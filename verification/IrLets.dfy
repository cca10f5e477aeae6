/** Let expressions without any condition on the initialiser: what the code computes, and when that is
    what the source means. */
module IrLets {
  import opened Wrappers
  import opened Names
  import opened Scoping
  import opened Source
  import opened Qbe
  import opened IrGeneration
  import opened IrCorrectness
  import opened IrPrograms

  /** What the code of a let computes: its initialiser already sees the new variable, with whatever the
      new register holds, `u`. */
  function LetAsCompiled(rd: Reading, e: Expr, env: Env, u: Value, fuel: nat): (o: Option<Outcome>)
    requires e.Let?
    ensures o.Some? ==> |o.value.env| == |env|
  {
    var outer := env + [Binding(e.name, u)];
    var o1 :- Eval(rd, e.init, outer, fuel);
    assert |BoundNames(o1.env)| == |BoundNames(outer)|;
    var inner := o1.env[..|env|] + [Binding(e.name, o1.val)];
    var o2 :- Eval(rd, e.body, inner, fuel);
    assert |BoundNames(o2.env)| == |BoundNames(inner)|;
    Some(Outcome(o2.val, o2.env[..|env|]))
  }

  /** A let whose parts are supported; in the initialiser its variable is taken to have type `ty`. */
  ghost predicate LetStatic(bs: Bases, p: Program, s: GenState, t: GenState, e: Expr, names: seq<string>,
                            types: seq<Ty>, ty: Ty) {
    && e.Let? && Compile(s, e) == Some(t) && t.code <= p && UniqueLabels(p)
    && Supported(bs, e.init) && Supported(bs, e.body) && "_" + e.name in bs
    && |names| == |types|
    && WellTyped(e.init, names + [e.name], types + [ty])
    && WellTyped(e.body, names + [e.name], types + [e.init.ty]) && e.body.ty == e.ty
  }

  /** The new register holds `u`. A register that has not been set holds an undefined value; in a later
      round of a loop it holds the variable's value of the round before. */
  ghost predicate RegisterHolds(s: GenState, e: Expr, f: Frame, u: Value, ty: Ty) {
    e.Let? && !u.Void? && HasType(u, ty) && Get(f.regs, FreshName(s, "_" + e.name)) == Encode(u)
  }

  lemma UnsetHoldsUndefined(s: GenState, e: Expr, f: Frame, ty: Ty)
    requires e.Let? && FreshName(s, "_" + e.name) !in f.regs
    ensures RegisterHolds(s, e, f, Undefined(ty), ty)
  {
  }

  /** Names and types of the bindings when the initialiser runs. */
  function Opened(f: Frame, x: string, u: Value, ty: Ty, register: string): Frame {
    Frame(f.env + [Binding(x, u)], f.types + [ty], f.rho + [register], f.regs)
  }

  lemma OpenedAgrees(s: GenState, x: string, u: Value, ty: Ty, register: string, f: Frame, xs: set<string>,
                     ys: set<string>)
    requires |f.rho| == |f.env| && Agree(ys, BoundNames(f.env), f.rho, s.scopes) && xs - {x} <= ys
    ensures Agree(xs, BoundNames(Opened(f, x, u, ty, register).env), f.rho + [register],
                  s.scopes + [map[x := VariableInfo(register, None)]])
  {
    var names := BoundNames(f.env) + [x];
    assert BoundNames(f.env + [Binding(x, u)]) == names;
    forall y | y in xs && Find(names, y).Some?
      ensures var found := Lookup(s.scopes + [map[x := VariableInfo(register, None)]], y);
              found.Some? && found.value.register == (f.rho + [register])[Find(names, y).value]
    {
      LookupPush(s.scopes, x, VariableInfo(register, None), y);
      FindAppend(BoundNames(f.env), x, y);
    }
  }

  lemma OpenedHolds(f: Frame, x: string, u: Value, ty: Ty, register: string)
    requires Holds(f.env, f.rho, f.regs) && Get(f.regs, register) == Encode(u)
    requires EnvTyped(f.env, f.types) && HasType(u, ty)
    ensures var g := Opened(f, x, u, ty, register); Holds(g.env, g.rho, g.regs) && EnvTyped(g.env, g.types)
  {
  }

  /** The machine is ready for the initialiser. */
  lemma ReadyForInit(bs: Bases, s: GenState, e: Expr, f: Frame, u: Value, ty: Ty)
    requires e.Let? && Ready(bs, s, FreeVars(e), f) && RegisterHolds(s, e, f, u, ty) && "_" + e.name in bs
    ensures var s1, register := StartLet(s, e.name), FreshName(s, "_" + e.name);
            && Ready(bs, s1, FreeVars(e.init), Opened(f, e.name, u, ty, register))
            && Agree(FreeVars(e.body), BoundNames(f.env + [Binding(e.name, u)]), f.rho + [register], s1.scopes)
            && register !in f.rho && !Taken(bs, s.counters, register) && Grown(s.counters, s1.counters)
  {
    hide Taken;
    var base := "_" + e.name;
    var s1, register := StartLet(s, e.name), FreshName(s, base);
    FreshIsNew(bs, s.counters, base);
    PlacedLater(bs, f.rho, s.counters, s1.counters);
    LetPlaced(bs, f.rho, s1.counters, register);
    OpenedHolds(f, e.name, u, ty, register);
    OpenedAgrees(s, e.name, u, ty, register, f, FreeVars(e.init), FreeVars(e));
    OpenedAgrees(s, e.name, u, ty, register, f, FreeVars(e.body), FreeVars(e));
  }

  lemma PartsCompile(bs: Bases, p: Program, s: GenState, t: GenState, e: Expr, names: seq<string>, types: seq<Ty>,
                     ty: Ty)
    returns (s1: GenState, s2: GenState, s3: GenState, s4: GenState)
    requires LetStatic(bs, p, s, t, e, names, types, ty)
    ensures s1 == StartLet(s, e.name) && Static(bs, p, s1, s2, e.init, names + [e.name], types + [ty])
    ensures s3 == EndInit(s, e.name, s2)
    ensures Static(bs, p, s3, s4, e.body, names + [e.name], types + [e.init.ty])
    ensures t == ExitScope(CopyResult(s4, Base(LetInResult), e.ty))
    ensures CopyResult(s4, Base(LetInResult), e.ty).code <= p && s3.code <= p && s1.code == s.code
  {
    hide Base;
    assert CompileLet(s, e) == Some(t);
    s1 := StartLet(s, e.name);
    s2 := Compile(s1, e.init).value;
    s3 := EndInit(s, e.name, s2);
    s4 := Compile(s3, e.body).value;
  }

  lemma PartsEvaluate(rd: Reading, e: Expr, env: Env, u: Value, o: Outcome, fuel: nat)
    returns (o1: Outcome, o2: Outcome)
    requires e.Let? && LetAsCompiled(rd, e, env, u, fuel) == Some(o)
    ensures Eval(rd, e.init, env + [Binding(e.name, u)], fuel) == Some(o1) && |o1.env| == |env| + 1
    ensures var inner := o1.env[..|env|] + [Binding(e.name, o1.val)];
            && BoundNames(inner) == BoundNames(env + [Binding(e.name, u)]) == BoundNames(env) + [e.name]
            && Eval(rd, e.body, inner, fuel) == Some(o2) && |o2.env| == |env| + 1
            && o == Outcome(o2.val, o2.env[..|env|])
  {
    var outer := env + [Binding(e.name, u)];
    o1 := Eval(rd, e.init, outer, fuel).value;
    assert |BoundNames(o1.env)| == |BoundNames(outer)|;
    NamesPrefix(o1.env, outer, |env|);
    var inner := o1.env[..|env|] + [Binding(e.name, o1.val)];
    assert outer[..|env|] == env;
    assert BoundNames(inner) == BoundNames(o1.env[..|env|]) + [e.name];
    assert BoundNames(outer) == BoundNames(env) + [e.name];
    o2 := Eval(rd, e.body, inner, fuel).value;
    assert |BoundNames(o2.env)| == |BoundNames(inner)|;
  }

  /** The frame in which the body runs. */
  function Initialised(f: Frame, e: Expr, o1: Outcome, register: string, r2: Registers): Frame
    requires e.Let? && |o1.env| == |f.env| + 1
  {
    Frame(o1.env[..|f.env|] + [Binding(e.name, o1.val)], f.types + [e.init.ty], f.rho + [register], r2)
  }

  lemma ReadyForBody(bs: Bases, s2: GenState, s3: GenState, e: Expr, f: Frame, u: Value, ty: Ty, o1: Outcome,
                     register: string,
                     r1: Registers, r2: Registers, xs: set<string>)
    requires e.Let? && s3.counters == s2.counters
    requires |f.env| == |f.rho| == |f.types| && |o1.env| == |f.env| + 1
    requires Ready(bs, s2, xs, Opened(f, e.name, u, ty, register).(env := o1.env, regs := r1))
    requires BoundNames(o1.env) == BoundNames(o1.env[..|f.env|] + [Binding(e.name, o1.val)])
    requires HasType(o1.val, e.init.ty) && (!o1.val.Void? ==> Get(r2, register) == Encode(o1.val))
    requires r2 == r1[register := Get(r2, register)] && s3.scopes == s2.scopes
    ensures Ready(bs, s3, xs, Initialised(f, e, o1, register, r2))
  {
    hide Taken, Agree;
    var g := Initialised(f, e, o1, register, r2);
    var n := |f.env|;
    forall i | 0 <= i < |g.env| && !g.env[i].val.Void? ensures Get(g.regs, g.rho[i]) == Encode(g.env[i].val) {
      if i < n {
        assert (f.rho + [register])[i] != (f.rho + [register])[n];
      }
    }
  }

  /** Leaving the scope; the new register was not in use before. */
  lemma LeaveLet(bs: Bases, s: GenState, s1: GenState, s2: GenState, s3: GenState, s4: GenState, f: Frame,
                 f2: Frame, register: string,
                 r1: Registers, r2: Registers, o2: Outcome, r3: Registers)
    requires |f.env| == |f.rho| == |f.types| && Placed(bs, f.rho, s.counters) && |o2.env| == |f.env| + 1
    requires f2.rho == f.rho + [register] && f2.regs == r2 && !Taken(bs, s.counters, register)
    requires |f2.types| == |f.types| + 1 && f2.types[..|f.types|] == f.types && EnvTyped(o2.env, f2.types)
    requires Grown(s.counters, s1.counters) && Grown(s1.counters, s2.counters) && s3.counters == s2.counters
    requires Grown(s3.counters, s4.counters)
    requires Kept(bs, s1.counters, f2.rho, f.regs, r1) && r2 == r1[register := Get(r2, register)]
    requires Preserved(bs, s3, f2, o2.env, r3)
    ensures var env := o2.env[..|f.env|];
            Placed(bs, f.rho, s4.counters) && Holds(env, f.rho, r3) && EnvTyped(env, f.types)
    ensures Kept(bs, s.counters, f.rho, f.regs, r3) && Grown(s.counters, s4.counters)
  {
    hide Taken;
    assert Grown(s.counters, s3.counters) && Grown(s.counters, s4.counters);
    TakenStays(bs, s.counters, s1.counters);
    TakenStays(bs, s.counters, s3.counters);
    TakenStays(bs, s.counters, s4.counters);
    forall r | Taken(bs, s.counters, r) && r !in f.rho ensures Get(r3, r) == Get(f.regs, r) {
      assert r != register && r !in f2.rho;
    }
    forall i | 0 <= i < |f.env| ensures (f.rho + [register])[i] == f.rho[i] {
    }
  }

  /** For any initialiser and body: the code runs the initialiser with the variable already there,
      holding what the new register holds, and then the body with the initialiser's value. */
  lemma LetRuns(rd: Compiled, bs: Bases, p: Program, s: GenState, t: GenState, e: Expr, f: Frame, u: Value, ty: Ty,
                o: Outcome, fuel: nat)
    returns (after: Registers)
    requires LetStatic(bs, p, s, t, e, BoundNames(f.env), f.types, ty) && Ready(bs, s, FreeVars(e), f)
    requires RegisterHolds(s, e, f, u, ty) && LetAsCompiled(rd, e, f.env, u, fuel) == Some(o)
    ensures Reaches(p, State(|s.code|, f.regs), State(|t.code|, after)) && Preserved(bs, s, f, o.env, after)
    ensures HasType(o.val, e.ty) && (!o.val.Void? ==> Get(after, t.name) == Encode(o.val))
  {
    hide Compile, Eval, Taken, Grown, WellTyped, Static, Agree, Placed, Kept, StartLet, Base, FreeVars,
      LetAsCompiled, Reaches;
    var s1, s2, s3, s4 := PartsCompile(bs, p, s, t, e, BoundNames(f.env), f.types, ty);
    var o1, o2 := PartsEvaluate(rd, e, f.env, u, o, fuel);
    var register := FreshName(s, "_" + e.name);
    ReadyForInit(bs, s, e, f, u, ty);
    var f0 := Opened(f, e.name, u, ty, register);
    var r1, r2 := InitRuns(rd, bs, p, s, s1, s2, s3, e, f, f0, register, o1, fuel);
    var f2 := Initialised(f, e, o1, register, r2);
    ReadyForBody(bs, s2, s3, e, f, u, ty, o1, register, r1, r2, FreeVars(e.body));
    var r3 := Simulates(rd, bs, p, s3, s4, e.body, f2, o2, fuel);
    ReadyAfter(rd, bs, p, s3, s4, e.body, f2, o2, fuel, r3, {}) by { AgreeNothing(f2, s3); }
    LeaveLet(bs, s, s1, s2, s3, s4, f, f2, register, r1, r2, o2, r3);
    var f3 := Frame(o.env, f.types, f.rho, r3);
    after := CopyResultStep(bs, p, s4, LetInResult, e.ty, o2.val, f3);
    ReachesTrans(p, State(|s.code|, f.regs), State(|s3.code|, r2), State(|s4.code|, r3));
    Continue(bs, p, s, s4, t, f, r3, o.env, after);
  }

  lemma InitRuns(rd: Compiled, bs: Bases, p: Program, s: GenState, s1: GenState, s2: GenState, s3: GenState, e: Expr,
                 f: Frame, f0: Frame,
                 register: string, o1: Outcome, fuel: nat)
    returns (r1: Registers, r2: Registers)
    requires e.Let? && s1 == StartLet(s, e.name) && s3 == EndInit(s, e.name, s2) && s3.code <= p && s1.code == s.code
    requires Static(bs, p, s1, s2, e.init, BoundNames(f0.env), f0.types) && Ready(bs, s1, FreeVars(e.init), f0)
    requires Agree(FreeVars(e.body), BoundNames(f0.env), f0.rho, s1.scopes) && f0.regs == f.regs
    requires register == FreshName(s, "_" + e.name) && Eval(rd, e.init, f0.env, fuel) == Some(o1)
    ensures Reaches(p, State(|s.code|, f.regs), State(|s3.code|, r2))
    ensures r2 == r1[register := Get(r2, register)] && (!o1.val.Void? ==> Get(r2, register) == Encode(o1.val))
    ensures Ready(bs, s2, FreeVars(e.body), f0.(env := o1.env, regs := r1)) && HasType(o1.val, e.init.ty)
    ensures Kept(bs, s1.counters, f0.rho, f.regs, r1) && Grown(s1.counters, s2.counters) && s2.scopes == s1.scopes
    ensures BoundNames(o1.env) == BoundNames(f0.env)
  {
    hide Compile, Eval, Taken, Grown, WellTyped, Static, Agree, Placed, Kept, StartLet, Base, FreeVars, Reaches;
    r1 := Simulates(rd, bs, p, s1, s2, e.init, f0, o1, fuel);
    ReadyAfter(rd, bs, p, s1, s2, e.init, f0, o1, fuel, r1, FreeVars(e.body));
    CopyStep(p, s2, register, s2.cls, s2.name, r1);
    r2 := r1[register := AsClass(s2.cls, Get(r1, s2.name))];
    if !o1.val.Void? {
      AsClassEncode(o1.val, e.init.ty);
    }
    ReachesTrans(p, State(|s.code|, f.regs), State(|s2.code|, r1), State(|s3.code|, r2));
  }

  /** A let is right exactly when running its initialiser with the new variable already there makes no
      difference: the result register then holds the source value, and each variable its own. */
  lemma LetExactly(rd: Compiled, bs: Bases, p: Program, s: GenState, t: GenState, e: Expr, f: Frame, u: Value, ty: Ty,
                   o: Outcome, o': Outcome,
                   fuel: nat)
    returns (after: Registers)
    requires LetStatic(bs, p, s, t, e, BoundNames(f.env), f.types, ty) && Ready(bs, s, FreeVars(e), f)
    requires RegisterHolds(s, e, f, u, ty) && WellTyped(e, BoundNames(f.env), f.types)
    requires Eval(rd, e, f.env, fuel) == Some(o) && LetAsCompiled(rd, e, f.env, u, fuel) == Some(o')
    requires !o.val.Void? && !o'.val.Void?
    ensures Reaches(p, State(|s.code|, f.regs), State(|t.code|, after)) && Preserved(bs, s, f, o'.env, after)
    ensures Get(after, t.name) == Encode(o.val) <==> o'.val == o.val
    ensures SameInitialiser(rd, e, f.env, u, fuel) ==> o' == o
  {
    hide Compile, Taken, Grown, Static, Agree, Placed, Kept, Base, LetAsCompiled, Eval, WellTyped;
    after := LetRuns(rd, bs, p, s, t, e, f, u, ty, o', fuel);
    TypesSound(rd, e, f.env, f.types, fuel);
    EncodeInjective(o.val, o'.val, e.ty);
    if SameInitialiser(rd, e, f.env, u, fuel) {
      SameLet(rd, e, f.env, u, fuel);
    }
  }

  /** The initialiser gives the same value and changes the same variables with the new variable there. */
  ghost predicate SameInitialiser(rd: Reading, e: Expr, env: Env, u: Value, fuel: nat) {
    && e.Let?
    && match Eval(rd, e.init, env, fuel)
       case None => false
       case Some(o1) =>
         var seen := Eval(rd, e.init, env + [Binding(e.name, u)], fuel);
         seen.Some? && seen.value.val == o1.val && |seen.value.env| == |env| + 1 && seen.value.env[..|env|] == o1.env
  }

  lemma SameLet(rd: Reading, e: Expr, env: Env, u: Value, fuel: nat)
    requires SameInitialiser(rd, e, env, u, fuel)
    ensures LetAsCompiled(rd, e, env, u, fuel) == Eval(rd, e, env, fuel)
  {
    var o1 := Eval(rd, e.init, env, fuel).value;
    assert |BoundNames(o1.env)| == |BoundNames(env)|;
  }

  // ---------- typing of the initialiser ----------

  /** The names that a typing knows, with their types. */
  function Typed(names: seq<string>, types: seq<Ty>, x: string): Option<Ty>
    requires |names| == |types|
  {
    match Find(names, x)
    case None => None
    case Some(i) => Some(types[i])
  }

  lemma {:induction false} TypingDepends(e: Expr, a: seq<string>, as_: seq<Ty>, b: seq<string>, bs: seq<Ty>)
    requires |a| == |as_| && |b| == |bs| && forall x :: Typed(a, as_, x) == Typed(b, bs, x)
    requires WellTyped(e, a, as_)
    ensures WellTyped(e, b, bs)
    decreases e
  {
    match e
    case NumberLit(_, _) =>
    case BoolLit(_, _) =>
    case Var(x, _) =>
      assert Typed(a, as_, x) == Typed(b, bs, x);
    case Binary(_, l, r, _) =>
      TypingDepends(l, a, as_, b, bs);
      TypingDepends(r, a, as_, b, bs);
    case Unary(_, x, _) =>
      TypingDepends(x, a, as_, b, bs);
    case Let(x, init, body, _) =>
      TypingDepends(init, a, as_, b, bs);
      forall y ensures Typed(a + [x], as_ + [init.ty], y) == Typed(b + [x], bs + [init.ty], y) {
        FindAppend(a, x, y);
        FindAppend(b, x, y);
        assert Typed(a, as_, y) == Typed(b, bs, y);
      }
      TypingDepends(body, a + [x], as_ + [init.ty], b + [x], bs + [init.ty]);
    case Block(stmts, _) =>
      TypingDependsSeq(stmts, a, as_, b, bs);
    case If(c, t, els, _) =>
      TypingDepends(c, a, as_, b, bs);
      TypingDepends(t, a, as_, b, bs);
      if els.Some? {
        TypingDepends(els.value, a, as_, b, bs);
      }
    case Assign(x, s, _) =>
      TypingDepends(s, a, as_, b, bs);
      assert Typed(a, as_, x) == Typed(b, bs, x);
    case While(c, body, _) =>
      TypingDepends(c, a, as_, b, bs);
      TypingDepends(body, a, as_, b, bs);
  }

  lemma {:induction false} TypingDependsSeq(es: seq<Expr>, a: seq<string>, as_: seq<Ty>, b: seq<string>, bs: seq<Ty>)
    requires |a| == |as_| && |b| == |bs| && forall x :: Typed(a, as_, x) == Typed(b, bs, x)
    requires WellTypedSeq(es, a, as_)
    ensures WellTypedSeq(es, b, bs)
    decreases es
  {
    if es != [] {
      TypingDepends(es[0], a, as_, b, bs);
      TypingDependsSeq(es[1..], a, as_, b, bs);
    }
  }

  /** An initialiser that is well typed where its variable is already bound outside is so with the new
      variable, taken at the outer one's type. */
  lemma OuterType(e: Expr, names: seq<string>, types: seq<Ty>, x: string, ty: Ty)
    requires |names| == |types| && WellTyped(e, names, types) && Typed(names, types, x) == Some(ty)
    ensures WellTyped(e, names + [x], types + [ty])
  {
    forall y ensures Typed(names, types, y) == Typed(names + [x], types + [ty], y) {
      FindAppend(names, x, y);
    }
    TypingDepends(e, names, types, names + [x], types + [ty]);
  }
}
