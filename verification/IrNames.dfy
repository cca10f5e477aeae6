/** Which variable names a program may have: exactly those of which no two can be given one register. */
module IrNames {
  import opened Wrappers
  import opened Decimal
  import opened Names
  import opened Scoping
  import opened Source
  import opened Qbe
  import opened IrGeneration
  import opened IrCorrectness
  import opened IrPrograms

  /** Code is generated for the statements, and every run of it that reaches the end leaves the value
      `v` in the current register. */
  ghost predicate CompiledRight(es: seq<Expr>, v: Value) {
    && CompileSeq(INITIAL, es).Some?
    && var t := CompileSeq(INITIAL, es).value;
       forall regs | Reaches(t.code, State(0, map[]), State(|t.code|, regs)) :: Get(regs, t.name) == Encode(v)
  }

  /** All programs of the supported shapes whose variables have registers named from `bs` are compiled
      right. */
  ghost predicate SafeBases(rd: Compiled, bs: Bases) {
    forall es: seq<Expr>, o: Outcome, fuel: nat |
      SupportedSeq(bs, es) && es != [] && WellTypedSeq(es, [], []) && FreeVarsSeq(es) == {} &&
      EvalSeq(rd, es, [], Void, fuel) == Some(o) && !o.val.Void? ::
      CompiledRight(es, o.val)
  }

  /** Names of variables are safe exactly when no two of them can be given the same register. */
  lemma BasesExactly(rd: Compiled, bs: Bases)
    requires forall b | b in bs :: b != [] && b[0] == '_'
    ensures SafeBases(rd, bs) <==> Apart(bs)
  {
    if Apart(bs) {
      forall es: seq<Expr>, o: Outcome, fuel: nat |
        SupportedSeq(bs, es) && es != [] && WellTypedSeq(es, [], []) && FreeVarsSeq(es) == {} &&
        EvalSeq(rd, es, [], Void, fuel) == Some(o) && !o.val.Void?
        ensures CompiledRight(es, o.val)
      {
        var t, after := ProgramCorrect(rd, bs, es, o, fuel);
      }
    } else {
      var b1, b2 :| b1 in bs && b2 in bs && DigitsAfter(b1, b2);
      assert b1 == "_" + b1[1..] && b2 == "_" + b2[1..];
      RegisterShared(rd, bs, b1[1..], b2[1..]);
    }
  }

  const ONE := NumberLit(1.0, Number)
  const FIVE := NumberLit(5.0, Number)

  /** `let x = 1 in ... let x = 1 in y`, with `n` binders. */
  function Nested(x: string, n: nat, y: string): Expr {
    if n == 0 then Var(y, Number) else Let(x, ONE, Nested(x, n - 1, y), Number)
  }

  /** As many binders of `x` as it takes to reach the first register of `y`. */
  function Meeting(x: string, y: string): nat
    requires DigitsAfter("_" + x, "_" + y)
  {
    ToNat(("_" + y)[|"_" + x|..] + ToText(1))
  }

  /** `let y = 5 in let x = 1 in ... in y`, where `y` is `x` followed by digits: an inner variable gets
      the register of `y`, and the program computes 1 instead of 5. */
  lemma RegisterShared(rd: Reading, bs: Bases, x: string, y: string)
    requires DigitsAfter("_" + x, "_" + y) && "_" + x in bs && "_" + y in bs
    ensures var e := Let(y, FIVE, Nested(x, Meeting(x, y), y), Number);
            && SupportedSeq(bs, [e]) && WellTypedSeq([e], [], []) && FreeVarsSeq([e]) == {}
            && EvalSeq(rd, [e], [], Void, 0) == Some(Outcome(Num(5.0), []))
            && !CompiledRight([e], Num(5.0))
  {
    hide Compile, Eval, WellTyped, Supported, FreeVars, ToText, ToNat, Base;
    var n := Meeting(x, y);
    var e := Let(y, FIVE, Nested(x, n, y), Number);
    MeetingPoint(x, y);
    SharedShape(bs, x, y, n);
    SharedValue(rd, x, y, n);
    OneStatement(rd, bs, e);
    CompileSucceeds(bs, INITIAL, e);
    var t := Compile(INITIAL, e).value;
    var after := SharedRuns(t.code, t, x, y, n);
    assert Get(after, t.name) == Double(1.0) && Encode(Num(5.0)) == Double(5.0);
  }

  lemma OneStatement(rd: Reading, bs: Bases, e: Expr)
    requires Supported(bs, e) && WellTyped(e, [], []) && FreeVars(e) == {}
    requires Eval(rd, e, [], 0) == Some(Outcome(Num(5.0), []))
    ensures SupportedSeq(bs, [e]) && WellTypedSeq([e], [], []) && FreeVarsSeq([e]) == {}
    ensures EvalSeq(rd, [e], [], Void, 0) == Some(Outcome(Num(5.0), []))
    ensures CompileSeq(INITIAL, [e]) == Compile(INITIAL, e)
    ensures AllKnown(FreeVars(e), INITIAL.scopes)
  {
    hide Compile, Eval, WellTyped, Supported, FreeVars;
    assert [e][1..] == [];
    if Compile(INITIAL, e).Some? {
      assert CompileSeq(Compile(INITIAL, e).value, []) == Some(Compile(INITIAL, e).value);
    }
    assert EvalSeq(rd, [], [], Num(5.0), 0) == Some(Outcome(Num(5.0), []));
  }

  lemma MeetingPoint(x: string, y: string)
    requires DigitsAfter("_" + x, "_" + y)
    ensures Meeting(x, y) > 0 && Numbered("_" + x, Meeting(x, y)) == Numbered("_" + y, 1) && x != y
  {
    hide ToText, ToNat;
    var b1, b2 := "_" + x, "_" + y;
    var digits := b2[|b1|..] + ToText(1);
    TextOfNat(digits);
    assert b2 == b1 + b2[|b1|..];
  }

  // ---------- the program ----------

  lemma {:induction false} NestedShape(bs: Bases, x: string, y: string, n: nat, names: seq<string>, types: seq<Ty>)
    requires "_" + x in bs && x != y && |names| == |types| && Typed(names, types, y)
    ensures Supported(bs, Nested(x, n, y)) && WellTyped(Nested(x, n, y), names, types)
    ensures FreeVars(Nested(x, n, y)) == {y} && Nested(x, n, y).ty == Number
    decreases n
  {
    if n > 0 {
      FindAppend(names, x, y);
      NestedShape(bs, x, y, n - 1, names + [x], types + [Number]);
      assert WellTyped(ONE, names, types) && FreeVars(ONE) == {} && Supported(bs, ONE);
    }
  }

  /** `y` is the name of a number. */
  ghost predicate Typed(names: seq<string>, types: seq<Ty>, y: string)
    requires |names| == |types|
  {
    Find(names, y).Some? && types[Find(names, y).value] == Number
  }

  lemma SharedShape(bs: Bases, x: string, y: string, n: nat)
    requires "_" + x in bs && "_" + y in bs && x != y
    ensures var e := Let(y, FIVE, Nested(x, n, y), Number);
            Supported(bs, e) && WellTyped(e, [], []) && FreeVars(e) == {}
  {
    hide Supported, WellTyped, FreeVars;
    FindAppend([], y, y);
    assert [] + [y] == [y];
    NestedShape(bs, x, y, n, [] + [y], [] + [Number]);
    FiveInside(bs, x, y, n);
  }

  lemma FiveInside(bs: Bases, x: string, y: string, n: nat)
    requires "_" + y in bs && Supported(bs, Nested(x, n, y)) && FreeVars(Nested(x, n, y)) == {y}
    requires WellTyped(Nested(x, n, y), [] + [y], [] + [Number]) && Nested(x, n, y).ty == Number
    ensures var e := Let(y, FIVE, Nested(x, n, y), Number);
            Supported(bs, e) && WellTyped(e, [], []) && FreeVars(e) == {}
  {
    hide Nested;
    assert WellTyped(FIVE, [], []) && FreeVars(FIVE) == {} && Supported(bs, FIVE);
  }

  lemma {:induction false} NestedValue(rd: Reading, x: string, y: string, n: nat, env: Env)
    requires x != y && Find(BoundNames(env), y).Some? && env[Find(BoundNames(env), y).value].val == Num(5.0)
    ensures Eval(rd, Nested(x, n, y), env, 0) == Some(Outcome(Num(5.0), env))
    decreases n
  {
    if n > 0 {
      var inner := env + [Binding(x, Num(1.0))];
      assert BoundNames(inner) == BoundNames(env) + [x];
      FindAppend(BoundNames(env), x, y);
      NestedValue(rd, x, y, n - 1, inner);
      assert Eval(rd, ONE, env, 0) == Some(Outcome(Num(1.0), env));
      assert inner[..|env|] == env;
    }
  }

  lemma SharedValue(rd: Reading, x: string, y: string, n: nat)
    requires x != y
    ensures Eval(rd, Let(y, FIVE, Nested(x, n, y), Number), [], 0) == Some(Outcome(Num(5.0), []))
  {
    hide Nested;
    var inner := [] + [Binding(y, Num(5.0))];
    assert BoundNames(inner) == [] + [y];
    FindAppend([], y, y);
    NestedValue(rd, x, y, n, inner);
    assert Eval(rd, FIVE, [], 0) == Some(Outcome(Num(5.0), []));
    assert inner[..0] == [];
  }

  // ---------- its code ----------

  /** The code of a let with a literal as its initialiser. */
  lemma LiteralLet(s: GenState, t: GenState, e: Expr, v: real) returns (s2: GenState, s3: GenState, s4: GenState)
    requires e.Let? && e.init == NumberLit(v, Number) && e.ty == Number && Compile(s, e) == Some(t)
    ensures s2 == Yield(StartLet(s, e.name), Base(NumLiteral), D, Constant(D, Double(v)))
    ensures s3 == EndInit(s, e.name, s2) && Compile(s3, e.body) == Some(s4)
    ensures t == ExitScope(CopyResult(s4, Base(LetInResult), Number))
    ensures s2.code == s.code + [Set(s2.name, Constant(D, Double(v)))]
    ensures s2.cls == D && s2.name[0] == 'n' && s3.scopes == StartLet(s, e.name).scopes
    ensures Count(s3.counters, "_" + e.name) == Count(s.counters, "_" + e.name) + 1
    ensures s3.code <= s4.code && s4.scopes == s3.scopes
  {
    var s1 := StartLet(s, e.name);
    assert CompileLet(s, e) == Some(t);
    s2 := Compile(s1, e.init).value;
    s3 := EndInit(s, e.name, s2);
    s4 := Compile(s3, e.body).value;
    assert "num_literal"[0] != ("_" + e.name)[0];
  }

  /** The initialiser: the literal is in the variable's register. */
  lemma InitRuns(p: Program, s: GenState, s2: GenState, s3: GenState, x: string, v: real, regs: Registers)
    returns (after: Registers)
    requires s2.code == s.code + [Set(s2.name, Constant(D, Double(v)))] && s2.cls == D && s3 == EndInit(s, x, s2)
    requires s3.code <= p
    ensures Reaches(p, State(|s.code|, regs), State(|s3.code|, after))
    ensures after == regs[s2.name := Double(v)][FreshName(s, "_" + x) := Double(v)]
  {
    hide FreshName;
    var r1 := regs[s2.name := Double(v)];
    assert p[|s.code|] == s2.code[|s.code|] by { assert s2.code <= p; }
    ReachesStep(p, State(|s.code|, regs), State(|s2.code|, r1));
    CopyStep(p, s2, FreshName(s, "_" + x), D, s2.name, r1);
    after := r1[FreshName(s, "_" + x) := Double(v)];
    ReachesTrans(p, State(|s.code|, regs), State(|s2.code|, r1), State(|s3.code|, after));
  }

  /** The body's value is in a new register. */
  lemma ResultRuns(p: Program, s4: GenState, t: GenState, v: real, regs: Registers) returns (after: Registers)
    requires t == ExitScope(CopyResult(s4, Base(LetInResult), Number)) && t.code <= p && Get(regs, s4.name) == Double(v)
    ensures Reaches(p, State(|s4.code|, regs), State(|t.code|, after)) && Get(after, t.name) == Double(v)
  {
    hide Base, FreshName;
    CopyStep(p, s4, t.name, D, s4.name, regs);
    after := regs[t.name := Double(v)];
  }

  /** After the nested binders the register `r` of `y` holds 1: one of them, number `m` from here, has it
      too, or it has held 1 already. */
  lemma {:induction false} NestedRuns(p: Program, s: GenState, t: GenState, x: string, y: string, n: nat, m: nat,
                                      r: string, regs: Registers)
    returns (after: Registers)
    requires x != y && Compile(s, Nested(x, n, y)) == Some(t) && t.code <= p
    requires Lookup(s.scopes, y).Some? && Lookup(s.scopes, y).value.register == r && r != [] && r[0] == '_'
    requires if m > 0 then m <= n && r == Numbered("_" + x, Count(s.counters, "_" + x) + m)
             else Get(regs, r) == Double(1.0)
    ensures Reaches(p, State(|s.code|, regs), State(|t.code|, after)) && Get(after, t.name) == Double(1.0)
    decreases n
  {
    hide Compile, Base, StartLet, EndInit, CopyResult, Yield, ToText;
    if n == 0 {
      VariableCompiles(s, y);
      after := regs;
      ReachesRefl(p, State(|s.code|, regs));
    } else {
      var s2, s3, s4 := LiteralLet(s, t, Nested(x, n, y), 1.0);
      CodeGrows(s2, s3, s4, t, x, s);
      var r2 := InitRuns(p, s, s2, s3, x, 1.0, regs);
      StartScopes(s, x, y);
      var r3 := NestedRuns(p, s3, s4, x, y, n - 1, if m > 0 then m - 1 else 0, r, r2);
      after := ResultRuns(p, s4, t, 1.0, r3);
      ReachesTrans(p, State(|s.code|, regs), State(|s3.code|, r2), State(|s4.code|, r3));
      ReachesTrans(p, State(|s.code|, regs), State(|s4.code|, r3), State(|t.code|, after));
    }
  }

  lemma VariableCompiles(s: GenState, y: string)
    requires Lookup(s.scopes, y).Some?
    ensures Compile(s, Var(y, Number)) == Some(Result(s, Lookup(s.scopes, y).value.register, D))
  {
  }

  lemma CodeGrows(s2: GenState, s3: GenState, s4: GenState, t: GenState, x: string, s: GenState)
    requires s3 == EndInit(s, x, s2) && s3.code <= s4.code && t == ExitScope(CopyResult(s4, Base(LetInResult), Number))
    ensures s2.code <= s3.code && s4.code <= t.code
  {
    hide Base, FreshName;
  }

  lemma StartScopes(s: GenState, x: string, y: string)
    ensures Lookup(StartLet(s, x).scopes, y) ==
            if x == y then Some(VariableInfo(FreshName(s, "_" + x), None)) else Lookup(s.scopes, y)
  {
    hide FreshName;
    LookupPush(s.scopes, x, VariableInfo(FreshName(s, "_" + x), None), y);
    assert EnterScope(s).counters == s.counters;
    assert FreshName(EnterScope(s), "_" + x) == FreshName(s, "_" + x) by { FreshDepends(s, EnterScope(s), "_" + x); }
  }

  lemma FreshDepends(s: GenState, t: GenState, base: string)
    requires s.counters == t.counters
    ensures FreshName(s, base) == FreshName(t, base)
  {
  }

  lemma SharedRuns(p: Program, t: GenState, x: string, y: string, n: nat) returns (after: Registers)
    requires x != y && n > 0 && Numbered("_" + x, n) == Numbered("_" + y, 1)
    requires Compile(INITIAL, Let(y, FIVE, Nested(x, n, y), Number)) == Some(t) && p == t.code
    ensures Reaches(p, State(0, map[]), State(|p|, after)) && Get(after, t.name) == Double(1.0)
  {
    hide Compile, Base, StartLet, EndInit, CopyResult, Yield, ToText, Nested;
    var s := INITIAL;
    var s2, s3, s4 := LiteralLet(s, t, Let(y, FIVE, Nested(x, n, y), Number), 5.0);
    CodeGrows(s2, s3, s4, t, y, s);
    var r2 := InitRuns(p, s, s2, s3, y, 5.0, map[]);
    StartScopes(s, y, y);
    OtherCounter(s, s2, s3, x, y);
    var r3 := NestedRuns(p, s3, s4, x, y, n, n, Numbered("_" + y, 1), r2);
    after := ResultRuns(p, s4, t, 1.0, r3);
    ReachesTrans(p, State(0, map[]), State(|s3.code|, r2), State(|s4.code|, r3));
    ReachesTrans(p, State(0, map[]), State(|s4.code|, r3), State(|p|, after));
  }

  lemma OtherCounter(s: GenState, s2: GenState, s3: GenState, x: string, y: string)
    requires s == INITIAL && x != y && s3 == EndInit(s, y, s2)
    requires s2 == Yield(StartLet(s, y), Base(NumLiteral), D, Constant(D, Double(5.0)))
    ensures Count(s3.counters, "_" + x) == 0 && FreshName(s, "_" + y) == Numbered("_" + y, 1)
  {
    assert ("_" + x)[1..] == x && ("_" + y)[1..] == y;
    assert "num_literal"[0] != ("_" + x)[0];
  }
}
