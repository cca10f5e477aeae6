/** Generated code does what the source expression means: a forward simulation. */
module IrCorrectness {
  import opened Wrappers
  import opened Names
  import opened Scoping
  import opened Source
  import opened Qbe
  import opened IrGeneration

  // ---------- what code generation relies on ----------

  /** The type annotations semantic analysis leaves on the tree are consistent. */
  predicate WellTyped(e: Expr, names: seq<string>, types: seq<Ty>)
    requires |names| == |types|
  {
    match e
    case NumberLit(_, ty) => ty == Number
    case BoolLit(_, ty) => ty == Bool
    case Var(x, ty) => Find(names, x).Some? ==> types[Find(names, x).value] == ty
    case Binary(op, l, r, ty) =>
      && WellTyped(l, names, types)
      && WellTyped(r, names, types)
      && ty == (if op.Arith? then Number else Bool)
    case Unary(op, a, ty) => WellTyped(a, names, types) && ty == (if op.Neg? then Number else Bool)
    case Let(x, init, body, ty) =>
      && WellTyped(init, names, types)
      && WellTyped(body, names + [x], types + [init.ty])
      && body.ty == ty
    case Block(stmts, ty) =>
      && WellTypedSeq(stmts, names, types)
      && (stmts != [] ==> stmts[|stmts| - 1].ty == ty)
    case If(c, t, els, ty) =>
      && WellTyped(c, names, types)
      && WellTyped(t, names, types)
      && t.ty == ty
      && (match els case Some(f) => WellTyped(f, names, types) && f.ty == ty case None => true)
    case Assign(x, s, ty) =>
      && WellTyped(s, names, types)
      && s.ty == ty
      && (Find(names, x).Some? ==> types[Find(names, x).value] == ty)
    case While(c, body, _) => WellTyped(c, names, types) && WellTyped(body, names, types)
  }

  predicate WellTypedSeq(es: seq<Expr>, names: seq<string>, types: seq<Ty>)
    requires |names| == |types|
  {
    es == [] || (WellTyped(es[0], names, types) && WellTypedSeq(es[1..], names, types))
  }

  /** The readings of `&` and `|` that code generation follows. */
  type Compiled = rd: Reading | !rd.AsWritten? witness AsEmitted

  /** The variable whose register, not a copy of it, is the compiled form of `e`. */
  function ResultVariable(e: Expr): Option<string> {
    match e
    case Var(x, _) => Some(x)
    case Assign(_, s, _) => ResultVariable(s)
    case Binary(op, _, r, _) => if op.And? || op.Or? then ResultVariable(r) else None
    case _ => None
  }

  /** The shapes that are compiled faithfully: no variable whose registers are not named from `bs`, no
      initialiser that mentions the variable it initialises, and no right operand of a comparison or of
      arithmetic that assigns the variable whose register is the left operand. */
  predicate Supported(bs: Bases, e: Expr) {
    match e
    case NumberLit(_, _) => true
    case BoolLit(_, _) => true
    case Var(_, _) => true
    case Binary(op, l, r, _) =>
      && Supported(bs, l)
      && Supported(bs, r)
      && ((op.Compare? || op.Arith?) && ResultVariable(l).Some? ==> ResultVariable(l).value !in Assigned(r))
    case Unary(_, a, _) => Supported(bs, a)
    case Let(x, init, body, _) =>
      && Supported(bs, init)
      && Supported(bs, body)
      && "_" + x in bs
      && x !in FreeVars(init)
    case Block(stmts, _) => SupportedSeq(bs, stmts)
    case If(c, t, els, _) =>
      && Supported(bs, c)
      && Supported(bs, t)
      && (match els case Some(f) => Supported(bs, f) case None => true)
    case Assign(_, s, _) => Supported(bs, s)
    case While(c, body, _) => Supported(bs, c) && Supported(bs, body)
  }

  predicate SupportedSeq(bs: Bases, es: seq<Expr>) {
    es == [] || (Supported(bs, es[0]) && SupportedSeq(bs, es[1..]))
  }

  // ---------- type soundness of the source ----------

  predicate HasType(v: Value, ty: Ty) {
    match v
    case Num(_) => ty == Number
    case Truth(_) => ty == Bool
    case Void => true
    case Undefined(t) => t == ty
  }

  ghost predicate EnvTyped(env: Env, types: seq<Ty>) {
    |env| == |types| && forall i | 0 <= i < |env| :: HasType(env[i].val, types[i])
  }

  lemma OperationTyped(rd: Reading, op: BinaryOp, l: Value, r: Value)
    requires Apply(rd, op, l, r).Some?
    ensures HasType(Apply(rd, op, l, r).value, if op.Arith? then Number else Bool)
  {
  }

  lemma {:induction false} TypesSound(rd: Reading, e: Expr, env: Env, types: seq<Ty>, fuel: nat)
    requires EnvTyped(env, types) && WellTyped(e, BoundNames(env), types) && Eval(rd, e, env, fuel).Some?
    ensures var o := Eval(rd, e, env, fuel).value;
            EnvTyped(o.env, types) && HasType(o.val, e.ty)
    decreases fuel, e, 1
  {
    hide Apply;
    assert |BoundNames(Eval(rd, e, env, fuel).value.env)| == |BoundNames(env)|;
    match e
    case NumberLit(_, _) =>
    case BoolLit(_, _) =>
    case Var(_, _) =>
    case Binary(_, l, r, _) =>
      TypesSound(rd, l, env, types, fuel);
      var o1 := Eval(rd, l, env, fuel).value;
      TypesSound(rd, r, o1.env, types, fuel);
      OperationTyped(rd, e.op, o1.val, Eval(rd, r, o1.env, fuel).value.val);
    case Unary(_, a, _) =>
      TypesSound(rd, a, env, types, fuel);
    case Let(_, _, _, _) =>
      TypesSoundLet(rd, e, env, types, fuel);
    case Block(stmts, _) =>
      TypesSoundSeq(rd, stmts, env, types, Void, fuel);
    case If(c, t, els, _) =>
      TypesSound(rd, c, env, types, fuel);
      var o := Eval(rd, c, env, fuel).value;
      if o.val.b {
        TypesSound(rd, t, o.env, types, fuel);
      } else if els.Some? {
        TypesSound(rd, els.value, o.env, types, fuel);
      }
    case Assign(_, s, _) =>
      TypesSound(rd, s, env, types, fuel);
    case While(_, _, _) =>
      TypesSoundWhile(rd, e, env, types, fuel);
  }

  lemma {:induction false} TypesSoundLet(rd: Reading, e: Expr, env: Env, types: seq<Ty>, fuel: nat)
    requires e.Let? && EnvTyped(env, types) && WellTyped(e, BoundNames(env), types) && Eval(rd, e, env, fuel).Some?
    ensures var o := Eval(rd, e, env, fuel).value;
            EnvTyped(o.env, types) && HasType(o.val, e.ty)
    decreases fuel, e, 0
  {
    hide HasType, FreeVars;
    TypesSound(rd, e.init, env, types, fuel);
    var o1 := Eval(rd, e.init, env, fuel).value;
    var inner := o1.env + [Binding(e.name, o1.val)];
    assert BoundNames(inner) == BoundNames(o1.env) + [e.name];
    TypesSound(rd, e.body, inner, types + [e.init.ty], fuel);
  }

  lemma {:induction false} TypesSoundWhile(rd: Reading, e: Expr, env: Env, types: seq<Ty>, fuel: nat)
    requires e.While? && EnvTyped(env, types) && WellTyped(e, BoundNames(env), types) && Eval(rd, e, env, fuel).Some?
    ensures var o := Eval(rd, e, env, fuel).value;
            EnvTyped(o.env, types) && HasType(o.val, e.ty)
    decreases fuel, e, 0
  {
    hide EnvTyped, BoundNames;
    TypesSound(rd, e.cond, env, types, fuel);
    var o1 := Eval(rd, e.cond, env, fuel).value;
    if o1.val.b {
      TypesSound(rd, e.loopBody, o1.env, types, fuel);
      TypesSound(rd, e, Eval(rd, e.loopBody, o1.env, fuel).value.env, types, fuel - 1);
    }
  }

  lemma {:induction false} TypesSoundSeq(rd: Reading, es: seq<Expr>, env: Env, types: seq<Ty>, last: Value, fuel: nat)
    requires EnvTyped(env, types) && WellTypedSeq(es, BoundNames(env), types)
    requires EvalSeq(rd, es, env, last, fuel).Some?
    ensures var o := EvalSeq(rd, es, env, last, fuel).value;
            EnvTyped(o.env, types) && (if es == [] then o.val == last else HasType(o.val, es[|es| - 1].ty))
    decreases fuel, es
  {
    if es != [] {
      TypesSound(rd, es[0], env, types, fuel);
      var o := Eval(rd, es[0], env, fuel).value;
      TypesSoundSeq(rd, es[1..], o.env, types, o.val, fuel);
    }
  }

  // ---------- the simulation relation ----------

  function Encode(v: Value): Content {
    match v
    case Num(r) => Double(r)
    case Truth(b) => Flag(b)
    case Void => Junk
    case Undefined(_) => Junk
  }

  lemma PurposeAllowed(bs: Bases, purpose: Purpose)
    ensures Allowed(bs, Base(purpose))
  {
    BaseIsPlain(purpose);
  }

  /** `rho` gives each live binding its register: different registers, all handed out before for bases
      that do not collide. */
  ghost predicate Placed(bs: Bases, rho: seq<string>, c: Counters) {
    && Apart(bs)
    && (forall i | 0 <= i < |rho| :: Taken(bs, c, rho[i]))
    && (forall i, j | 0 <= i < j < |rho| :: rho[i] != rho[j])
  }

  /** The scope table knows the variables in `xs` by the registers of their bindings. */
  ghost predicate Agree(xs: set<string>, names: seq<string>, rho: seq<string>, scopes: Scopes<Ty>)
    requires |names| == |rho|
  {
    forall x | x in xs && Find(names, x).Some? ::
      Lookup(scopes, x).Some? && Lookup(scopes, x).value.register == rho[Find(names, x).value]
  }

  ghost predicate Holds(env: Env, rho: seq<string>, regs: Registers) {
    && |env| == |rho|
    && (forall i | 0 <= i < |env| && !env[i].val.Void? :: Get(regs, rho[i]) == Encode(env[i].val))
  }

  /** Registers handed out before, other than those of live bindings, are left alone. */
  ghost predicate Kept(bs: Bases, c: Counters, rho: seq<string>, before: Registers, after: Registers) {
    forall r | Taken(bs, c, r) && r !in rho :: Get(after, r) == Get(before, r)
  }

  /** Where a simulation stands: the environment, the types and registers of its bindings, and the
      registers' contents. */
  datatype Frame = Frame(env: Env, types: seq<Ty>, rho: seq<string>, regs: Registers)

  ghost predicate Ready(bs: Bases, s: GenState, xs: set<string>, f: Frame) {
    && EnvTyped(f.env, f.types)
    && Placed(bs, f.rho, s.counters)
    && Holds(f.env, f.rho, f.regs)
    && Agree(xs, BoundNames(f.env), f.rho, s.scopes)
  }

  /** `e` is a supported expression that compiles from `s` to `t`, inside the program `p`. */
  ghost predicate Static(bs: Bases, p: Program, s: GenState, t: GenState, e: Expr, names: seq<string>, types: seq<Ty>) {
    && Compile(s, e) == Some(t)
    && t.code <= p
    && UniqueLabels(p)
    && Supported(bs, e)
    && |names| == |types|
    && WellTyped(e, names, types)
  }

  /** Also, `e` evaluates to `o` and the machine is ready to run its code. */
  ghost predicate Premises(rd: Compiled, bs: Bases, p: Program, s: GenState, t: GenState, e: Expr, f: Frame,
                           o: Outcome, fuel: nat) {
    && Static(bs, p, s, t, e, BoundNames(f.env), f.types)
    && Ready(bs, s, FreeVars(e), f)
    && Eval(rd, e, f.env, fuel) == Some(o)
  }

  /** The result register holds the value and is a temporary, or the result variable's register. */
  ghost predicate ResultReady(bs: Bases, e: Expr, t: GenState, f: Frame, v: Value, after: Registers) {
    !v.Void? ==>
      && Get(after, t.name) == Encode(v)
      && t.cls == ClassOf(e.ty)
      && Taken(bs, t.counters, t.name)
      && (t.name in f.rho ==>
            var x := ResultVariable(e);
            && x.Some?
            && var i := Find(BoundNames(f.env), x.value);
            && i.Some? && i.value < |f.rho| && f.rho[i.value] == t.name)
  }

  /** Every live binding is in its register and no other old register has changed. */
  ghost predicate Preserved(bs: Bases, s: GenState, f: Frame, env: Env, after: Registers) {
    Holds(env, f.rho, after) && Kept(bs, s.counters, f.rho, f.regs, after)
  }

  ghost predicate Conclusion(bs: Bases, p: Program, s: GenState, t: GenState, e: Expr, f: Frame, o: Outcome,
                             after: Registers) {
    && Reaches(p, State(|s.code|, f.regs), State(|t.code|, after))
    && Preserved(bs, s, f, o.env, after)
    && ResultReady(bs, e, t, f, o.val, after)
  }

  lemma PlacedLater(bs: Bases, rho: seq<string>, c: Counters, later: Counters)
    requires Placed(bs, rho, c) && Grown(c, later)
    ensures Placed(bs, rho, later)
  {
    TakenStays(bs, c, later);
  }

  lemma KeptTrans(bs: Bases, c: Counters, later: Counters, rho: seq<string>, r0: Registers, r1: Registers,
                  r2: Registers)
    requires Grown(c, later) && Kept(bs, c, rho, r0, r1) && Kept(bs, later, rho, r1, r2)
    ensures Kept(bs, c, rho, r0, r2)
  {
    TakenStays(bs, c, later);
  }

  /** Writing a fresh register disturbs nothing. */
  lemma FreshWrite(bs: Bases, s: GenState, base: string, env: Env, rho: seq<string>, regs: Registers, content: Content)
    requires Allowed(bs, base) && Placed(bs, rho, s.counters) && Holds(env, rho, regs)
    ensures var r := FreshName(s, base);
            && r !in rho
            && !Taken(bs, s.counters, r)
            && Taken(bs, Bump(s, base).counters, r)
            && Grown(s.counters, Bump(s, base).counters)
            && Holds(env, rho, regs[r := content])
            && Kept(bs, s.counters, rho, regs, regs[r := content])
  {
    FreshIsNew(bs, s.counters, base);
  }

  lemma AsClassEncode(v: Value, ty: Ty)
    requires HasType(v, ty) && !v.Void?
    ensures AsClass(ClassOf(ty), Encode(v)) == Encode(v)
  {
  }

  lemma LookupPush(scopes: Scopes<Ty>, x: string, info: VariableInfo<Ty>, y: string)
    ensures Lookup(Defined(scopes + [map[]], x, info), y) == if x == y then Some(info) else Lookup(scopes, y)
  {
    var pushed := Defined(scopes + [map[]], x, info);
    assert pushed[..|pushed| - 1] == scopes;
  }

  lemma LookupEmptyScope(scopes: Scopes<Ty>)
    ensures forall y :: Lookup(scopes + [map[]], y) == Lookup(scopes, y)
  {
    forall y ensures Lookup(scopes + [map[]], y) == Lookup(scopes, y) {
      assert (scopes + [map[]])[..|scopes|] == scopes;
    }
  }

  // ---------- one instruction at a time ----------

  lemma StepOf(p: Program, s: GenState, i: Instr, regs: Registers)
    requires Emit(s, i).code <= p
    ensures p[|s.code|] == i && |s.code| < |p|
  {
    assert Emit(s, i).code[|s.code|] == i;
  }

  lemma LabelStep(p: Program, s: GenState, name: string, regs: Registers)
    requires Emit(s, Label(name)).code <= p
    ensures Reaches(p, State(|s.code|, regs), State(|s.code| + 1, regs))
  {
    StepOf(p, s, Label(name), regs);
    ReachesStep(p, State(|s.code|, regs), State(|s.code| + 1, regs));
  }

  lemma CopyStep(p: Program, s: GenState, dst: string, cls: Class, src: string, regs: Registers)
    requires Emit(s, Set(dst, Copy(cls, src))).code <= p
    ensures Reaches(p, State(|s.code|, regs), State(|s.code| + 1, regs[dst := AsClass(cls, Get(regs, src))]))
  {
    StepOf(p, s, Set(dst, Copy(cls, src)), regs);
    ReachesStep(p, State(|s.code|, regs), State(|s.code| + 1, regs[dst := AsClass(cls, Get(regs, src))]));
  }

  lemma JumpTo(p: Program, s: GenState, name: string, regs: Registers, at: nat)
    requires Emit(s, Jmp(name)).code <= p && UniqueLabels(p) && at < |p| && p[at] == Label(name)
    ensures Reaches(p, State(|s.code|, regs), State(at, regs))
  {
    StepOf(p, s, Jmp(name), regs);
    TargetIs(p, name, 0, at);
    ReachesStep(p, State(|s.code|, regs), State(at, regs));
  }

  lemma JumpStep(p: Program, s: GenState, name: string, regs: Registers, at: nat)
    requires Emit(s, Jmp(name)).code <= p && UniqueLabels(p) && at < |p| && p[at] == Label(name)
    ensures Reaches(p, State(|s.code|, regs), State(at + 1, regs))
  {
    JumpTo(p, s, name, regs, at);
    ReachesStep(p, State(at, regs), State(at + 1, regs));
    ReachesTrans(p, State(|s.code|, regs), State(at, regs), State(at + 1, regs));
  }

  lemma BranchStep(p: Program, s: GenState, a: string, nz: string, z: string, regs: Registers, b: bool, at: nat)
    requires Emit(s, Jnz(a, nz, z)).code <= p && UniqueLabels(p)
    requires Get(regs, a) == Flag(b) && at < |p| && p[at] == Label(if b then nz else z)
    ensures Reaches(p, State(|s.code|, regs), State(at + 1, regs))
  {
    StepOf(p, s, Jnz(a, nz, z), regs);
    TargetIs(p, if b then nz else z, 0, at);
    ReachesStep(p, State(|s.code|, regs), State(at, regs));
    ReachesStep(p, State(at, regs), State(at + 1, regs));
    ReachesTrans(p, State(|s.code|, regs), State(at, regs), State(at + 1, regs));
  }

  // ---------- the simulation ----------

  /** From the first instruction generated for `e`, the machine reaches the end of that code with
      the value of `e` in the result register and every live binding in its register. */
  lemma {:induction false} Simulates(rd: Compiled, bs: Bases, p: Program, s: GenState, t: GenState, e: Expr, f: Frame,
                                     o: Outcome, fuel: nat)
    returns (after: Registers)
    requires Premises(rd, bs, p, s, t, e, f, o, fuel)
    ensures Conclusion(bs, p, s, t, e, f, o, after)
    decreases fuel, e, 3
  {
    hide Base;
    match e
    case NumberLit(n, ty) =>
      PurposeAllowed(bs, NumLiteral);
      after := YieldStep(bs, p, s, f, Base(NumLiteral), ClassOf(ty), Constant(ClassOf(ty), Double(n)));
    case BoolLit(b, ty) =>
      PurposeAllowed(bs, BoolLiteral);
      after := YieldStep(bs, p, s, f, Base(BoolLiteral), ClassOf(ty), Constant(ClassOf(ty), Flag(b)));
    case Var(x, _) =>
      after := f.regs;
      ReachesRefl(p, State(|s.code|, f.regs));
    case Binary(_, _, _, _) =>
      after := SimulatesBinary(rd, bs, p, s, t, e, f, o, fuel);
    case Unary(_, _, _) =>
      after := SimulatesUnary(rd, bs, p, s, t, e, f, o, fuel);
    case Let(_, _, _, _) =>
      after := SimulatesLet(rd, bs, p, s, t, e, f, o, fuel);
    case Block(_, _) =>
      after := SimulatesBlock(rd, bs, p, s, t, e, f, o, fuel);
    case If(_, _, _, _) =>
      after := SimulatesIf(rd, bs, p, s, t, e, f, o, fuel);
    case Assign(_, _, _) =>
      after := SimulatesAssign(rd, bs, p, s, t, e, f, o, fuel);
    case While(_, _, _) =>
      after := SimulatesWhile(rd, bs, p, s, t, e, f, o, fuel);
  }

  /** An operation into a fresh register. */
  lemma YieldStep(bs: Bases, p: Program, s: GenState, f: Frame, base: string, cls: Class, operation: Operation)
    returns (after: Registers)
    requires Yield(s, base, cls, operation).code <= p && Allowed(bs, base)
    requires Placed(bs, f.rho, s.counters) && Holds(f.env, f.rho, f.regs)
    ensures var t := Yield(s, base, cls, operation);
            && Reaches(p, State(|s.code|, f.regs), State(|t.code|, after))
            && Preserved(bs, s, f, f.env, after)
            && Get(after, t.name) == Perform(operation, f.regs)
            && Taken(bs, t.counters, t.name) && t.name !in f.rho
  {
    var dst := FreshName(s, base);
    after := f.regs[dst := Perform(operation, f.regs)];
    StepOf(p, s, Set(dst, operation), f.regs);
    ReachesStep(p, State(|s.code|, f.regs), State(|s.code| + 1, after));
    FreshWrite(bs, s, base, f.env, f.rho, f.regs, Perform(operation, f.regs));
  }

  /** Two stretches of code, one after the other. */
  lemma Continue(bs: Bases, p: Program, s: GenState, s1: GenState, t: GenState, f: Frame, r1: Registers,
                 env: Env, after: Registers)
    requires Grown(s.counters, s1.counters)
    requires Reaches(p, State(|s.code|, f.regs), State(|s1.code|, r1)) && Kept(bs, s.counters, f.rho, f.regs, r1)
    requires Reaches(p, State(|s1.code|, r1), State(|t.code|, after))
    requires Preserved(bs, s1, f.(regs := r1), env, after)
    ensures Reaches(p, State(|s.code|, f.regs), State(|t.code|, after)) && Preserved(bs, s, f, env, after)
  {
    ReachesTrans(p, State(|s.code|, f.regs), State(|s1.code|, r1), State(|t.code|, after));
    KeptTrans(bs, s.counters, s1.counters, f.rho, f.regs, r1, after);
  }

  /** After `e`, the machine is ready for whatever follows it in the same scope. */
  lemma ReadyAfter(rd: Compiled, bs: Bases, p: Program, s: GenState, s1: GenState, e: Expr, f: Frame, o: Outcome,
                   fuel: nat, r1: Registers, xs: set<string>)
    requires Premises(rd, bs, p, s, s1, e, f, o, fuel) && Conclusion(bs, p, s, s1, e, f, o, r1)
    requires Agree(xs, BoundNames(f.env), f.rho, s.scopes)
    ensures Ready(bs, s1, xs, f.(env := o.env, regs := r1))
    ensures HasType(o.val, e.ty) && |o.env| == |f.env| && BoundNames(o.env) == BoundNames(f.env)
    ensures Grown(s.counters, s1.counters) && s1.scopes == s.scopes && s.code <= s1.code
  {
    hide Compile, Eval, Taken;
    assert BoundNames(o.env) == BoundNames(f.env) by { EvalNames(rd, e, f.env, fuel); }
    TypesSound(rd, e, f.env, f.types, fuel);
    assert Extends(s, s1) by { CompileExtends(s, e); }
    PlacedLater(bs, f.rho, s.counters, s1.counters);
  }

  lemma EvalNames(rd: Reading, e: Expr, env: Env, fuel: nat)
    requires Eval(rd, e, env, fuel).Some?
    ensures BoundNames(Eval(rd, e, env, fuel).value.env) == BoundNames(env)
  {
  }

  lemma CompileExtends(s: GenState, e: Expr)
    requires Compile(s, e).Some?
    ensures Extends(s, Compile(s, e).value)
  {
  }

  // ---------- operations ----------

  /** When the compiled form of `e` is a variable's register, the value of `e` is that variable's. */
  lemma {:induction false} ResultVariableValue(rd: Compiled, e: Expr, env: Env, fuel: nat)
    requires ResultVariable(e).Some? && Eval(rd, e, env, fuel).Some?
    ensures var o := Eval(rd, e, env, fuel).value;
            var i := Find(BoundNames(env), ResultVariable(e).value);
            i.Some? && i.value < |o.env| && o.env[i.value].val == o.val
    decreases e
  {
    var o := Eval(rd, e, env, fuel).value;
    assert |BoundNames(o.env)| == |BoundNames(env)|;
    match e
    case Var(_, _) =>
    case Assign(_, source, _) =>
      ResultVariableValue(rd, source, env, fuel);
    case Binary(_, l, r, _) =>
      ResultVariableValue(rd, r, Eval(rd, l, env, fuel).value.env, fuel);
    case _ =>
  }

  lemma ComparisonContent(rd: Reading, rel: Relation, l: Value, r: Value, ty: Ty)
    requires HasType(l, ty) && HasType(r, ty) && Apply(rd, Compare(rel), l, r).Some?
    ensures CompareContents(rel, ClassOf(ty), Encode(l), Encode(r)) == Encode(Apply(rd, Compare(rel), l, r).value)
  {
  }

  /** Values of different types are never equal, and only equality accepts them. */
  lemma MixedComparison(rd: Reading, rel: Relation, l: Value, r: Value, lty: Ty, rty: Ty)
    requires HasType(l, lty) && HasType(r, rty) && lty != rty && Apply(rd, Compare(rel), l, r).Some?
    ensures rel.Eq? && Encode(Apply(rd, Compare(rel), l, r).value) == Word(0)
  {
  }

  lemma ArithmeticContent(rd: Reading, op: ArithOp, l: Value, r: Value)
    requires Apply(rd, Arith(op), l, r).Some?
    ensures CalculateContents(D, op, Encode(l), Encode(r)) == Encode(Apply(rd, Arith(op), l, r).value)
  {
  }

  lemma UnaryContent(op: UnaryOp, v: Value)
    requires ApplyUnary(op, v).Some?
    ensures var content := Encode(ApplyUnary(op, v).value);
            match op
            case Neg => CalculateContents(D, Sub, Double(0.0), Encode(v)) == content
            case Not => XorOneContent(W, Encode(v)) == content
  {
  }


  lemma {:induction false} SimulatesBinary(rd: Compiled, bs: Bases, p: Program, s: GenState, t: GenState, e: Expr,
                                           f: Frame, o: Outcome, fuel: nat)
    returns (after: Registers)
    requires e.Binary? && Premises(rd, bs, p, s, t, e, f, o, fuel)
    ensures Conclusion(bs, p, s, t, e, f, o, after)
    decreases fuel, e, 1
  {
    var s1, s2 := BinaryCompiles(bs, p, s, t, e, BoundNames(f.env), f.types);
    var o1, o2 := BinaryEvaluates(rd, e, f.env, o, fuel);
    hide Compile, Eval, Agree, Taken, Grown, WellTyped, Static;
    var r1 := Simulates(rd, bs, p, s, s1, e.left, f, o1, fuel);
    ReadyAfter(rd, bs, p, s, s1, e.left, f, o1, fuel, r1, FreeVars(e.right));
    var f1 := f.(env := o1.env, regs := r1);
    var r2 := Simulates(rd, bs, p, s1, s2, e.right, f1, o2, fuel);
    ReadyAfter(rd, bs, p, s1, s2, e.right, f1, o2, fuel, r2, {});
    Continue(bs, p, s, s1, s2, f, r1, o2.env, r2);
    if e.op.And? || e.op.Or? {
      after := r2;
      RightIsResult(rd, bs, s2, t, e, s1, f, f1, o1, o2, o, r2);
    } else {
      LeftKept(rd, bs, e, s1, f, o1, o2, fuel, r1, r2);
      var f2 := f.(env := o2.env, regs := r2);
      after := OperationStep(rd, bs, p, s2, e.op, s1.name, s1.cls, o1.val, o2.val, e.left.ty, e.right.ty, e.ty, f2);
      GrownTrans(s.counters, s1.counters, s2.counters);
      Continue(bs, p, s, s2, t, f, r2, o2.env, after);
    }
  }

  /** `&` and `|` add no code: their result register is the right operand's. */
  lemma RightIsResult(rd: Compiled, bs: Bases, s2: GenState, t: GenState, e: Expr, s1: GenState, f: Frame, f1: Frame,
                      o1: Outcome, o2: Outcome, o: Outcome, after: Registers)
    requires e.Binary? && (e.op.And? || e.op.Or?) && e.ty == Bool
    requires t == CompileOperation(s2, e.op, s1.name, s1.cls, e.left.ty, e.right.ty, e.ty)
    requires Apply(rd, e.op, o1.val, o2.val) == Some(o.val) && HasType(o2.val, e.right.ty)
    requires f1.rho == f.rho && BoundNames(f1.env) == BoundNames(f.env)
    requires ResultReady(bs, e.right, s2, f1, o2.val, after)
    ensures t == s2 && o.val == o2.val && ResultReady(bs, e, t, f, o.val, after)
  {
    hide Taken;
  }

  lemma BinaryCompiles(bs: Bases, p: Program, s: GenState, t: GenState, e: Expr, names: seq<string>, types: seq<Ty>)
    returns (s1: GenState, s2: GenState)
    requires e.Binary? && Static(bs, p, s, t, e, names, types)
    ensures Static(bs, p, s, s1, e.left, names, types) && Static(bs, p, s1, s2, e.right, names, types)
    ensures t == CompileOperation(s2, e.op, s1.name, s1.cls, e.left.ty, e.right.ty, e.ty)
    ensures s2.code <= p && e.ty == (if e.op.Arith? then Number else Bool)
  {
    assert CompileBinary(s, e) == Some(t);
    s1 := Compile(s, e.left).value;
    s2 := Compile(s1, e.right).value;
  }

  lemma BinaryEvaluates(rd: Reading, e: Expr, env: Env, o: Outcome, fuel: nat) returns (o1: Outcome, o2: Outcome)
    requires e.Binary? && Eval(rd, e, env, fuel) == Some(o)
    ensures Eval(rd, e.left, env, fuel) == Some(o1) && Eval(rd, e.right, o1.env, fuel) == Some(o2)
    ensures Apply(rd, e.op, o1.val, o2.val) == Some(o.val) && o.env == o2.env
    ensures !o1.val.Void? && !o2.val.Void?
  {
    o1 := Eval(rd, e.left, env, fuel).value;
    o2 := Eval(rd, e.right, o1.env, fuel).value;
  }

  /** The left operand's register still holds its value after the right operand has run. */
  lemma LeftKept(rd: Compiled, bs: Bases, e: Expr, s1: GenState, f: Frame, o1: Outcome, o2: Outcome, fuel: nat,
                 r1: Registers, r2: Registers)
    requires e.Binary? && Supported(bs, e) && (e.op.Compare? || e.op.Arith?) && !o1.val.Void?
    requires Eval(rd, e.left, f.env, fuel) == Some(o1) && Eval(rd, e.right, o1.env, fuel) == Some(o2)
    requires ResultReady(bs, e.left, s1, f, o1.val, r1)
    requires Preserved(bs, s1, f.(env := o1.env, regs := r1), o2.env, r2)
    requires Holds(o1.env, f.rho, r1)
    ensures Get(r2, s1.name) == Encode(o1.val)
  {
    if s1.name in f.rho {
      var x := ResultVariable(e.left).value;
      var i := Find(BoundNames(f.env), x).value;
      ResultVariableValue(rd, e.left, f.env, fuel);
      assert BoundNames(o1.env) == BoundNames(f.env) by { EvalNames(rd, e.left, f.env, fuel); }
      forall y | y in Assigned(e.right) ensures Find(BoundNames(o1.env), y) != Some(i) {
        assert y != x;
      }
      UnassignedKept(rd, e.right, o1.env, fuel, i);
    }
  }

  /** The instruction emitted for an operation computes it. */
  lemma OperationStep(rd: Compiled, bs: Bases, p: Program, s: GenState, op: BinaryOp, left: string, cls: Class,
                      l: Value, r: Value, lty: Ty, rty: Ty, ty: Ty, f: Frame)
    returns (after: Registers)
    requires (op.Compare? || op.Arith?) && ty == (if op.Arith? then Number else Bool)
    requires CompileOperation(s, op, left, cls, lty, rty, ty).code <= p
    requires Placed(bs, f.rho, s.counters) && Holds(f.env, f.rho, f.regs)
    requires Apply(rd, op, l, r).Some? && HasType(l, lty) && HasType(r, rty)
    requires Get(f.regs, left) == Encode(l) && Get(f.regs, s.name) == Encode(r) && cls == ClassOf(lty)
    ensures var t := CompileOperation(s, op, left, cls, lty, rty, ty);
            && Reaches(p, State(|s.code|, f.regs), State(|t.code|, after))
            && Preserved(bs, s, f, f.env, after)
            && Get(after, t.name) == Encode(Apply(rd, op, l, r).value) && t.cls == ClassOf(ty)
            && Taken(bs, t.counters, t.name) && t.name !in f.rho
  {
    hide Base, Apply, Encode, CompareContents, CalculateContents;
    match op
    case Compare(rel) =>
      PurposeAllowed(bs, Compared(rel));
      if lty != rty {
        MixedComparison(rd, rel, l, r, lty, rty);
        after := YieldStep(bs, p, s, f, Base(Compared(rel)), W, Constant(W, Word(0)));
      } else {
        ComparisonContent(rd, rel, l, r, lty);
        after := YieldStep(bs, p, s, f, Base(Compared(rel)), W, Comparison(rel, cls, left, s.name));
      }
    case Arith(arith) =>
      PurposeAllowed(bs, Calculated(arith));
      ArithmeticContent(rd, arith, l, r);
      after := YieldStep(bs, p, s, f, Base(Calculated(arith)), D, Arithmetic(D, arith, left, s.name));
  }

  lemma {:induction false} SimulatesUnary(rd: Compiled, bs: Bases, p: Program, s: GenState, t: GenState, e: Expr,
                                          f: Frame, o: Outcome, fuel: nat)
    returns (after: Registers)
    requires e.Unary? && Premises(rd, bs, p, s, t, e, f, o, fuel)
    ensures Conclusion(bs, p, s, t, e, f, o, after)
    decreases fuel, e, 1
  {
    var s1 := Compile(s, e.operand).value;
    var o1 := Eval(rd, e.operand, f.env, fuel).value;
    assert ApplyUnary(e.uop, o1.val) == Some(o.val) && !o1.val.Void?;
    var r1 := Simulates(rd, bs, p, s, s1, e.operand, f, o1, fuel);
    hide Eval, Agree, Taken, Grown, FreeVars, ApplyUnary;
    ReadyAfter(rd, bs, p, s, s1, e.operand, f, o1, fuel, r1, {});
    after := UnaryStep(bs, p, s1, e.uop, e.ty, o1.val, f.(env := o1.env, regs := r1));
    Continue(bs, p, s, s1, t, f, r1, o1.env, after);
  }

  lemma UnaryStep(bs: Bases, p: Program, s: GenState, op: UnaryOp, ty: Ty, v: Value, f: Frame)
    returns (after: Registers)
    requires ty == (if op.Neg? then Number else Bool) && CompileUnary(s, op, ty).code <= p
    requires Placed(bs, f.rho, s.counters) && Holds(f.env, f.rho, f.regs)
    requires ApplyUnary(op, v).Some? && Get(f.regs, s.name) == Encode(v)
    ensures var t := CompileUnary(s, op, ty);
            && Reaches(p, State(|s.code|, f.regs), State(|t.code|, after))
            && Preserved(bs, s, f, f.env, after)
            && Get(after, t.name) == Encode(ApplyUnary(op, v).value) && t.cls == ClassOf(ty)
            && Taken(bs, t.counters, t.name) && t.name !in f.rho
  {
    hide Base, ApplyUnary, Encode;
    PurposeAllowed(bs, UnaryPurpose(op));
    UnaryContent(op, v);
    match op
    case Neg =>
      after := YieldStep(bs, p, s, f, Base(Negation), D, SubtractFromZero(D, s.name));
    case Not =>
      after := YieldStep(bs, p, s, f, Base(Negated), W, XorOne(W, s.name));
  }

  lemma {:induction false} SimulatesAssign(rd: Compiled, bs: Bases, p: Program, s: GenState, t: GenState, e: Expr,
                                           f: Frame, o: Outcome, fuel: nat)
    returns (after: Registers)
    requires e.Assign? && Premises(rd, bs, p, s, t, e, f, o, fuel)
    ensures Conclusion(bs, p, s, t, e, f, o, after)
    decreases fuel, e, 1
  {
    hide Base, Kept, Reaches, Encode, ResultReady, ResultVariable;
    var s1, register := AssignCompiles(bs, p, s, t, e, BoundNames(f.env), f.types);
    var o1, i := AssignEvaluates(rd, e, f.env, o, fuel);
    hide Eval, Compile, Taken, Grown, WellTyped, Static;
    var r1 := Simulates(rd, bs, p, s, s1, e.source, f, o1, fuel);
    ReadyAfter(rd, bs, p, s, s1, e.source, f, o1, fuel, r1, FreeVars(e));
    assert register == f.rho[i];
    var content := AsClass(ClassOf(e.ty), Get(r1, s1.name));
    ResultHolds(bs, e.source, s1, f, o1.val, r1);
    CopyStep(p, s1, register, ClassOf(e.ty), s1.name, r1);
    after := r1[register := content];
    AssignHolds(e.target, i, o1, f.rho, r1, content, e.ty, s1.name);
    BindingWritten(bs, s1.counters, f.rho, i, r1, content);
    AssignResult(bs, s1, t, e, f, o1.val, r1, after);
    Continue(bs, p, s, s1, t, f, r1, o.env, after);
  }

  lemma ResultHolds(bs: Bases, e: Expr, t: GenState, f: Frame, v: Value, after: Registers)
    requires ResultReady(bs, e, t, f, v, after)
    ensures !v.Void? ==> Get(after, t.name) == Encode(v)
  {
  }

  /** The result of an assignment is that of its source. */
  lemma AssignResult(bs: Bases, s1: GenState, t: GenState, e: Expr, f: Frame, v: Value, r1: Registers, after: Registers)
    requires e.Assign? && ResultReady(bs, e.source, s1, f, v, r1)
    requires t.name == s1.name && t.counters == s1.counters && t.cls == ClassOf(e.ty)
    requires !v.Void? ==> Get(after, t.name) == Encode(v)
    ensures ResultReady(bs, e, t, f, v, after)
  {
    hide Taken;
  }

  lemma BindingWritten(bs: Bases, c: Counters, rho: seq<string>, i: nat, regs: Registers, content: Content)
    requires i < |rho|
    ensures Kept(bs, c, rho, regs, regs[rho[i] := content])
  {
    hide Taken;
  }

  lemma AssignCompiles(bs: Bases, p: Program, s: GenState, t: GenState, e: Expr, names: seq<string>, types: seq<Ty>)
    returns (s1: GenState, register: string)
    requires e.Assign? && Static(bs, p, s, t, e, names, types)
    ensures Static(bs, p, s, s1, e.source, names, types) && e.source.ty == e.ty
    ensures Lookup(s1.scopes, e.target).Some? && register == Lookup(s1.scopes, e.target).value.register
    ensures t == Result(Emit(s1, Set(register, Copy(ClassOf(e.ty), s1.name))), s1.name, ClassOf(e.ty))
    ensures Emit(s1, Set(register, Copy(ClassOf(e.ty), s1.name))).code <= p
  {
    assert CompileAssign(s, e) == Some(t);
    s1 := Compile(s, e.source).value;
    register := Lookup(s1.scopes, e.target).value.register;
  }

  lemma AssignEvaluates(rd: Reading, e: Expr, env: Env, o: Outcome, fuel: nat) returns (o1: Outcome, i: nat)
    requires e.Assign? && Eval(rd, e, env, fuel) == Some(o)
    ensures Eval(rd, e.source, env, fuel) == Some(o1)
    ensures Find(BoundNames(env), e.target) == Some(i) && i < |o1.env|
    ensures o == Outcome(o1.val, o1.env[i := Binding(e.target, o1.val)])
  {
    o1 := Eval(rd, e.source, env, fuel).value;
    i := Find(BoundNames(o1.env), e.target).value;
  }

  lemma AssignHolds(x: string, i: nat, o: Outcome, rho: seq<string>, regs: Registers, content: Content,
                    ty: Ty, name: string)
    requires i < |o.env| && Holds(o.env, rho, regs) && HasType(o.val, ty)
    requires forall i, j | 0 <= i < j < |rho| :: rho[i] != rho[j]
    requires !o.val.Void? ==> Get(regs, name) == Encode(o.val)
    requires content == AsClass(ClassOf(ty), Get(regs, name))
    ensures Holds(o.env[i := Binding(x, o.val)], rho, regs[rho[i] := content])
    ensures !o.val.Void? ==> Get(regs[rho[i] := content], name) == Encode(o.val)
  {
  }

  // ---------- let ----------

  lemma {:induction false} SimulatesLet(rd: Compiled, bs: Bases, p: Program, s: GenState, t: GenState, e: Expr,
                                        f: Frame, o: Outcome, fuel: nat)
    returns (after: Registers)
    requires e.Let? && Premises(rd, bs, p, s, t, e, f, o, fuel)
    ensures Conclusion(bs, p, s, t, e, f, o, after)
    decreases fuel, e, 1
  {
    var s1, s2, s3, s4 := LetCompiles(bs, p, s, t, e, BoundNames(f.env), f.types);
    var o1, o2 := LetEvaluates(rd, e, f.env, o, fuel);
    var register := FreshName(s, "_" + e.name);
    LetReadyInit(bs, s, e, f);
    hide Compile, Eval, Taken, Grown, WellTyped, Static, Agree, Placed, Kept, StartLet, Base;
    var r1 := Simulates(rd, bs, p, s1, s2, e.init, f, o1, fuel);
    ReadyAfter(rd, bs, p, s1, s2, e.init, f, o1, fuel, r1, FreeVars(e.init));
    var f1 := f.(env := o1.env, regs := r1);
    CopyStep(p, s2, register, s2.cls, s2.name, r1);
    var r2 := r1[register := AsClass(s2.cls, Get(r1, s2.name))];
    LetReadyBody(bs, s, s1, s2, s3, e, f1, o1, register, r2);
    var f2 := Frame(f1.env + [Binding(e.name, o1.val)], f.types + [e.init.ty], f.rho + [register], r2);
    var r3 := Simulates(rd, bs, p, s3, s4, e.body, f2, o2, fuel);
    ReadyAfter(rd, bs, p, s3, s4, e.body, f2, o2, fuel, r3, {});
    var f3 := LetLeave(bs, s, s1, s2, s3, s4, f, r1, f2, o2, r3);
    after := CopyResultStep(bs, p, s4, LetInResult, e.ty, o2.val, f3);
    ReachesTrans(p, State(|s.code|, f.regs), State(|s2.code|, r1), State(|s3.code|, r2));
    ReachesTrans(p, State(|s.code|, f.regs), State(|s3.code|, r2), State(|s4.code|, r3));
    Continue(bs, p, s, s4, t, f, r3, o.env, after);
  }

  lemma LetCompiles(bs: Bases, p: Program, s: GenState, t: GenState, e: Expr, names: seq<string>, types: seq<Ty>)
    returns (s1: GenState, s2: GenState, s3: GenState, s4: GenState)
    requires e.Let? && Static(bs, p, s, t, e, names, types)
    ensures s1 == StartLet(s, e.name) && Static(bs, p, s1, s2, e.init, names, types)
    ensures s3 == EndInit(s, e.name, s2)
    ensures Static(bs, p, s3, s4, e.body, names + [e.name], types + [e.init.ty]) && e.body.ty == e.ty
    ensures t == ExitScope(CopyResult(s4, Base(LetInResult), e.ty))
    ensures CopyResult(s4, Base(LetInResult), e.ty).code <= p && s3.code <= p && s1.code == s.code
  {
    hide Base;
    assert CompileLet(s, e) == Some(t);
    s1 := StartLet(s, e.name);
    s2 := Compile(s1, e.init).value;
    s3 := EndInit(s, e.name, s2);
    s4 := Compile(s3, e.body).value;
  }

  lemma LetEvaluates(rd: Reading, e: Expr, env: Env, o: Outcome, fuel: nat) returns (o1: Outcome, o2: Outcome)
    requires e.Let? && Eval(rd, e, env, fuel) == Some(o)
    ensures Eval(rd, e.init, env, fuel) == Some(o1) && BoundNames(o1.env) == BoundNames(env)
    ensures var inner := o1.env + [Binding(e.name, o1.val)];
            && BoundNames(inner) == BoundNames(env) + [e.name]
            && Eval(rd, e.body, inner, fuel) == Some(o2)
            && |o2.env| == |inner| && |inner| == |env| + 1
            && o == Outcome(o2.val, o2.env[..|env|])
  {
    o1 := Eval(rd, e.init, env, fuel).value;
    var inner := o1.env + [Binding(e.name, o1.val)];
    assert |BoundNames(o1.env)| == |BoundNames(env)|;
    o2 := Eval(rd, e.body, inner, fuel).value;
    assert |BoundNames(o2.env)| == |BoundNames(inner)|;
    assert BoundNames(inner) == BoundNames(o1.env) + [e.name];
  }

  /** Defining the variable first does not matter to an initialiser that does not mention it. */
  lemma LetReadyInit(bs: Bases, s: GenState, e: Expr, f: Frame)
    requires e.Let? && Supported(bs, e) && Ready(bs, s, FreeVars(e), f)
    ensures var s1 := StartLet(s, e.name);
            var register := FreshName(s, "_" + e.name);
            && Ready(bs, s1, FreeVars(e.init), f)
            && register !in f.rho && !Taken(bs, s.counters, register) && Taken(bs, s1.counters, register)
            && Grown(s.counters, s1.counters)
  {
    var x := e.name;
    var s1 := StartLet(s, x);
    var base := "_" + x;
    var register := FreshName(s, base);
    FreshIsNew(bs, s.counters, base);
    PlacedLater(bs, f.rho, s.counters, s1.counters);
    forall y | y in FreeVars(e.init) && Find(BoundNames(f.env), y).Some?
      ensures Lookup(s1.scopes, y).Some? &&
              Lookup(s1.scopes, y).value.register == f.rho[Find(BoundNames(f.env), y).value]
    {
      LookupPush(s.scopes, x, VariableInfo(register, None), y);
    }
  }

  lemma LetReadyBody(bs: Bases, s: GenState, s1: GenState, s2: GenState, s3: GenState, e: Expr, f1: Frame, o1: Outcome,
                     register: string, r2: Registers)
    requires e.Let? && s1 == StartLet(s, e.name) && s3 == EndInit(s, e.name, s2) && s2.scopes == s1.scopes
    requires Ready(bs, s2, FreeVars(e.init), f1) && Agree(FreeVars(e), BoundNames(f1.env), f1.rho, s.scopes)
    requires HasType(o1.val, e.init.ty) && ResultReady(bs, e.init, s2, f1, o1.val, f1.regs)
    requires register == FreshName(s, "_" + e.name) && register !in f1.rho
    requires Taken(bs, s1.counters, register) && Grown(s1.counters, s2.counters)
    requires r2 == f1.regs[register := AsClass(s2.cls, Get(f1.regs, s2.name))]
    ensures Ready(bs, s3, FreeVars(e.body),
                  Frame(f1.env + [Binding(e.name, o1.val)], f1.types + [e.init.ty], f1.rho + [register], r2))
  {
    hide Taken, Grown, Agree, Holds, Placed, Lookup, Find, FreeVars, AsClass;
    assert Taken(bs, s2.counters, register) by { TakenStays(bs, s1.counters, s2.counters); }
    if !o1.val.Void? {
      AsClassEncode(o1.val, e.init.ty);
    }
    LetHolds(f1.env, f1.rho, f1.regs, Binding(e.name, o1.val), register, AsClass(s2.cls, Get(f1.regs, s2.name)));
    LetPlaced(bs, f1.rho, s3.counters, register);
    LetAgrees(s, e, f1, o1.val, register);
  }

  lemma LetHolds(env: Env, rho: seq<string>, regs: Registers, b: Binding, register: string, content: Content)
    requires Holds(env, rho, regs) && register !in rho && (!b.val.Void? ==> content == Encode(b.val))
    ensures Holds(env + [b], rho + [register], regs[register := content])
  {
  }

  lemma LetPlaced(bs: Bases, rho: seq<string>, c: Counters, register: string)
    requires Placed(bs, rho, c) && register !in rho && Taken(bs, c, register)
    ensures Placed(bs, rho + [register], c)
  {
    hide Taken;
  }

  lemma LetAgrees(s: GenState, e: Expr, f: Frame, val: Value, register: string)
    requires e.Let? && |f.rho| == |f.env| && Agree(FreeVars(e), BoundNames(f.env), f.rho, s.scopes)
    ensures Agree(FreeVars(e.body), BoundNames(f.env + [Binding(e.name, val)]), f.rho + [register],
                  s.scopes + [map[e.name := VariableInfo(register, None)]])
  {
    var names := BoundNames(f.env) + [e.name];
    assert BoundNames(f.env + [Binding(e.name, val)]) == names;
    forall y | y in FreeVars(e.body) && Find(names, y).Some?
      ensures var found := Lookup(s.scopes + [map[e.name := VariableInfo(register, None)]], y);
              found.Some? && found.value.register == (f.rho + [register])[Find(names, y).value]
    {
      LookupPush(s.scopes, e.name, VariableInfo(register, None), y);
      FindAppend(BoundNames(f.env), e.name, y);
    }
  }

  /** Leaving the scope drops the innermost binding. */
  lemma LetLeave(bs: Bases, s: GenState, s1: GenState, s2: GenState, s3: GenState, s4: GenState, f: Frame,
                 r1: Registers, f2: Frame, o2: Outcome, r3: Registers)
    returns (f3: Frame)
    requires |f.env| == |f.rho| && Placed(bs, f.rho, s.counters) && EnvTyped(f.env, f.types)
    requires Grown(s.counters, s1.counters) && Grown(s1.counters, s2.counters) && s3.counters == s2.counters
    requires Grown(s3.counters, s4.counters)
    requires |f2.rho| == |f.rho| + 1 && f2.rho[..|f.rho|] == f.rho && f2.rho[|f.rho|] !in f.rho
    requires !Taken(bs, s.counters, f2.rho[|f.rho|]) && |o2.env| == |f.env| + 1
    requires EnvTyped(o2.env, f2.types) && f2.types[..|f.types|] == f.types
    requires Kept(bs, s1.counters, f.rho, f.regs, r1)
    requires f2.regs == r1[f2.rho[|f.rho|] := Get(f2.regs, f2.rho[|f.rho|])]
    requires Preserved(bs, s3, f2, o2.env, r3)
    ensures f3 == Frame(o2.env[..|f.env|], f.types, f.rho, r3)
    ensures Placed(bs, f3.rho, s4.counters) && Holds(f3.env, f3.rho, r3) && EnvTyped(f3.env, f3.types)
    ensures Kept(bs, s.counters, f.rho, f.regs, r3) && Grown(s.counters, s4.counters)
  {
    hide Taken;
    f3 := Frame(o2.env[..|f.env|], f.types, f.rho, r3);
    assert Grown(s.counters, s3.counters);
    assert Grown(s.counters, s4.counters);
    TakenStays(bs, s.counters, s1.counters);
    TakenStays(bs, s.counters, s3.counters);
    TakenStays(bs, s.counters, s4.counters);
  }

  /** The copy that ends a scope. */
  lemma CopyResultStep(bs: Bases, p: Program, s: GenState, purpose: Purpose, ty: Ty, v: Value, f: Frame)
    returns (after: Registers)
    requires CopyResult(s, Base(purpose), ty).code <= p && HasType(v, ty)
    requires Placed(bs, f.rho, s.counters) && Holds(f.env, f.rho, f.regs)
    requires !v.Void? ==> Get(f.regs, s.name) == Encode(v)
    ensures var t := CopyResult(s, Base(purpose), ty);
            && Reaches(p, State(|s.code|, f.regs), State(|t.code|, after))
            && Preserved(bs, s, f, f.env, after)
            && (!v.Void? ==> Get(after, t.name) == Encode(v))
            && t.cls == ClassOf(ty) && Taken(bs, t.counters, t.name) && t.name !in f.rho
  {
    hide Base;
    PurposeAllowed(bs, purpose);
    after := YieldStep(bs, p, s, f, Base(purpose), ClassOf(ty), Copy(ClassOf(ty), s.name));
    if !v.Void? {
      AsClassEncode(v, ty);
    }
  }

  // ---------- blocks ----------

  ghost predicate StaticSeq(bs: Bases, p: Program, s: GenState, t: GenState, es: seq<Expr>, names: seq<string>,
                            types: seq<Ty>) {
    && CompileSeq(s, es) == Some(t)
    && t.code <= p
    && UniqueLabels(p)
    && SupportedSeq(bs, es)
    && |names| == |types|
    && WellTypedSeq(es, names, types)
  }

  lemma {:induction false} SimulatesBlock(rd: Compiled, bs: Bases, p: Program, s: GenState, t: GenState, e: Expr,
                                          f: Frame, o: Outcome, fuel: nat)
    returns (after: Registers)
    requires e.Block? && Premises(rd, bs, p, s, t, e, f, o, fuel)
    ensures Conclusion(bs, p, s, t, e, f, o, after)
    decreases fuel, e, 1
  {
    var s0 := EnterScope(s);
    var s1 := BlockCompiles(bs, p, s, t, e, BoundNames(f.env), f.types);
    LookupEmptyScope(s.scopes);
    hide Compile, Eval, Taken, Grown, WellTyped, Static, Kept, Base;
    var r1 := SimulatesSeq(rd, bs, p, s0, s1, e.stmts, f, o, Void, fuel);
    TypesSoundSeq(rd, e.stmts, f.env, f.types, Void, fuel);
    var f1 := f.(env := o.env, regs := r1);
    after := CopyResultStep(bs, p, s1, BlockResult, e.ty, o.val, f1);
    Continue(bs, p, s, s1, t, f, r1, o.env, after);
  }

  lemma BlockCompiles(bs: Bases, p: Program, s: GenState, t: GenState, e: Expr, names: seq<string>, types: seq<Ty>)
    returns (s1: GenState)
    requires e.Block? && Static(bs, p, s, t, e, names, types)
    ensures StaticSeq(bs, p, EnterScope(s), s1, e.stmts, names, types)
    ensures t == ExitScope(CopyResult(s1, Base(BlockResult), e.ty))
    ensures CopyResult(s1, Base(BlockResult), e.ty).code <= p
    ensures e.stmts != [] ==> e.stmts[|e.stmts| - 1].ty == e.ty
  {
    hide Base;
    assert CompileBlock(s, e) == Some(t);
    s1 := CompileSeq(EnterScope(s), e.stmts).value;
  }

  /** Statements one after the other: the blocks of an expression, and the program's statements. */
  lemma {:induction false} SimulatesSeq(rd: Compiled, bs: Bases, p: Program, s: GenState, t: GenState, es: seq<Expr>,
                                        f: Frame, o: Outcome, last: Value, fuel: nat)
    returns (after: Registers)
    requires StaticSeq(bs, p, s, t, es, BoundNames(f.env), f.types) && Ready(bs, s, FreeVarsSeq(es), f)
    requires EvalSeq(rd, es, f.env, last, fuel) == Some(o)
    ensures Reaches(p, State(|s.code|, f.regs), State(|t.code|, after))
    ensures Preserved(bs, s, f, o.env, after)
    ensures Placed(bs, f.rho, t.counters) && Grown(s.counters, t.counters)
    ensures if es == [] then after == f.regs && t == s && o.val == last
            else !o.val.Void? ==> Get(after, t.name) == Encode(o.val)
    decreases fuel, es
  {
    if es == [] {
      assert t == s && o == Outcome(last, f.env);
      after := f.regs;
      ReachesRefl(p, State(|s.code|, f.regs));
    } else {
      var s1 := SeqCompiles(bs, p, s, t, es, BoundNames(f.env), f.types);
      var o1 := Eval(rd, es[0], f.env, fuel).value;
      hide Compile, Eval, Taken, Grown, Kept, Static, WellTyped, Agree;
      var r1 := Simulates(rd, bs, p, s, s1, es[0], f, o1, fuel);
      ReadyAfter(rd, bs, p, s, s1, es[0], f, o1, fuel, r1, FreeVarsSeq(es[1..]));
      var f1 := f.(env := o1.env, regs := r1);
      after := SimulatesSeq(rd, bs, p, s1, t, es[1..], f1, o, o1.val, fuel);
      Continue(bs, p, s, s1, t, f, r1, o.env, after);
      GrownTrans(s.counters, s1.counters, t.counters);
    }
  }

  lemma SeqCompiles(bs: Bases, p: Program, s: GenState, t: GenState, es: seq<Expr>, names: seq<string>, types: seq<Ty>)
    returns (s1: GenState)
    requires es != [] && StaticSeq(bs, p, s, t, es, names, types)
    ensures Static(bs, p, s, s1, es[0], names, types) && StaticSeq(bs, p, s1, t, es[1..], names, types)
  {
    s1 := Compile(s, es[0]).value;
  }

  lemma GrownTrans(a: Counters, b: Counters, c: Counters)
    requires Grown(a, b) && Grown(b, c)
    ensures Grown(a, c)
  {
  }

  // ---------- conditionals ----------

  /** Where the pieces of a conditional are: after the condition, the then branch, its end, and
      the else branch. */
  datatype IfParts = IfParts(s1: GenState, s2: GenState, s3: GenState, s4: GenState, s5: GenState, res: string)

  ghost predicate IfCompiled(bs: Bases, p: Program, s: GenState, t: GenState, e: Expr, names: seq<string>,
                             types: seq<Ty>, m: IfParts) {
    && e.If?
    && m.res == FreshName(s, Base(IfResult))
    && Static(bs, p, Bump(s, Base(IfResult)), m.s1, e.cond, names, types)
    && m.s2 == StartBranches(m.s1)
    && m.s2.code <= p
    && Static(bs, p, m.s2, m.s3, e.thenBranch, names, types)
    && e.thenBranch.ty == e.ty
    && m.s4 == EndThen(m.s3, m.res, m.s1)
    && m.s2.code <= m.s3.code && m.s4.code <= m.s5.code <= p
    && CompileElse(m.s4, e, m.res) == Some(m.s5)
    && t == Result(Emit(m.s5, Label(FreshName(m.s1, Base(MergeLabel)))), m.res, ClassOf(e.ty))
    && t.code <= p
    && UniqueLabels(p)
  }

  lemma IfCompiles(bs: Bases, p: Program, s: GenState, t: GenState, e: Expr, names: seq<string>, types: seq<Ty>)
    returns (m: IfParts)
    requires e.If? && Static(bs, p, s, t, e, names, types)
    ensures IfCompiled(bs, p, s, t, e, names, types, m)
  {
    hide Base, Compile, CompileElse, WellTyped, Supported, FreshName;
    IfUnfolds(s, e);
    m := IfSplits(s, t, e);
    assert Extends(m.s2, m.s3) && Extends(m.s4, m.s5);
    IfStatics(bs, e, names, types);
  }

  lemma IfStatics(bs: Bases, e: Expr, names: seq<string>, types: seq<Ty>)
    requires e.If? && |names| == |types| && Supported(bs, e) && WellTyped(e, names, types)
    ensures Supported(bs, e.cond) && WellTyped(e.cond, names, types)
    ensures Supported(bs, e.thenBranch) && WellTyped(e.thenBranch, names, types) && e.thenBranch.ty == e.ty
  {
  }

  lemma IfUnfolds(s: GenState, e: Expr)
    requires e.If?
    ensures Compile(s, e) == CompileIf(s, e)
  {
    hide CompileIf;
  }

  lemma IfSplits(s: GenState, t: GenState, e: Expr) returns (m: IfParts)
    requires e.If? && CompileIf(s, e) == Some(t)
    ensures m.res == FreshName(s, Base(IfResult)) && Compile(Bump(s, Base(IfResult)), e.cond) == Some(m.s1)
    ensures m.s2 == StartBranches(m.s1) && Compile(m.s2, e.thenBranch) == Some(m.s3)
    ensures m.s4 == EndThen(m.s3, m.res, m.s1) && CompileElse(m.s4, e, m.res) == Some(m.s5)
    ensures t == Result(Emit(m.s5, Label(FreshName(m.s1, Base(MergeLabel)))), m.res, ClassOf(e.ty))
  {
    hide Base, FreshName, StartBranches, EndThen, Result, Emit, Compile, CompileElse, Bump;
    var res := FreshName(s, Base(IfResult));
    var s1 := Compile(Bump(s, Base(IfResult)), e.cond).value;
    var s2 := StartBranches(s1);
    var s3 := Compile(s2, e.thenBranch).value;
    var s4 := EndThen(s3, res, s1);
    m := IfParts(s1, s2, s3, s4, CompileElse(s4, e, res).value, res);
  }

  lemma IfElseCompiles(bs: Bases, p: Program, s: GenState, t: GenState, e: Expr, names: seq<string>, types: seq<Ty>,
                       m: IfParts)
    returns (s5: GenState)
    requires e.If? && Static(bs, p, s, t, e, names, types) && IfCompiled(bs, p, s, t, e, names, types, m)
    requires e.elseBranch.Some?
    ensures Static(bs, p, EnterScope(m.s4), s5, e.elseBranch.value, names, types) && e.elseBranch.value.ty == e.ty
    ensures m.s5 == ExitScope(Emit(s5, Set(m.res, Copy(s5.cls, s5.name))))
  {
    hide Base;
    s5 := Compile(EnterScope(m.s4), e.elseBranch.value).value;
  }

  lemma IfEvaluates(rd: Reading, e: Expr, env: Env, o: Outcome, fuel: nat) returns (o1: Outcome)
    requires e.If? && Eval(rd, e, env, fuel) == Some(o)
    ensures Eval(rd, e.cond, env, fuel) == Some(o1) && o1.val.Truth?
    ensures if o1.val.b then Eval(rd, e.thenBranch, o1.env, fuel) == Some(o)
            else match e.elseBranch
              case Some(els) => Eval(rd, els, o1.env, fuel) == Some(o)
              case None => o == Outcome(Void, o1.env)
  {
    o1 := Eval(rd, e.cond, env, fuel).value;
  }

  lemma {:induction false} SimulatesIf(rd: Compiled, bs: Bases, p: Program, s: GenState, t: GenState, e: Expr,
                                       f: Frame, o: Outcome, fuel: nat)
    returns (after: Registers)
    requires e.If? && Premises(rd, bs, p, s, t, e, f, o, fuel)
    ensures Conclusion(bs, p, s, t, e, f, o, after)
    decreases fuel, e, 2
  {
    hide Compile, Eval, Taken, Grown, Kept, WellTyped, Static, Agree, Placed, Base;
    var m := IfCompiles(bs, p, s, t, e, BoundNames(f.env), f.types);
    var o1 := IfEvaluates(rd, e, f.env, o, fuel);
    var s0 := Bump(s, Base(IfResult));
    IfReady(bs, s, e, f);
    var r1 := Simulates(rd, bs, p, s0, m.s1, e.cond, f, o1, fuel);
    ReadyAfter(rd, bs, p, s0, m.s1, e.cond, f, o1, fuel, r1, FreeVars(e));
    var f1 := f.(env := o1.env, regs := r1);
    BranchesReady(bs, p, s, s0, t, e, m, f1);
    if o1.val.b {
      after := SimulatesThen(rd, bs, p, s, t, e, f1, o, fuel, m);
    } else {
      after := SimulatesElse(rd, bs, p, s, t, e, f1, o, fuel, m);
    }
    KeptEarlier(bs, s.counters, s0.counters, f.rho, f.regs, r1);
    KeptTrans(bs, s.counters, s.counters, f.rho, f.regs, r1, after) by { GrownRefl(s.counters); }
    ReachesTrans(p, State(|s.code|, f.regs), State(|m.s1.code|, r1), State(|t.code|, after));
  }

  lemma GrownRefl(c: Counters)
    ensures Grown(c, c)
  {
  }

  lemma KeptEarlier(bs: Bases, c: Counters, later: Counters, rho: seq<string>, before: Registers, after: Registers)
    requires Grown(c, later) && Kept(bs, later, rho, before, after)
    ensures Kept(bs, c, rho, before, after)
  {
    TakenStays(bs, c, later);
  }

  /** The register for the value of the conditional is new. */
  lemma IfReady(bs: Bases, s: GenState, e: Expr, f: Frame)
    requires e.If? && Ready(bs, s, FreeVars(e), f)
    ensures var s0 := Bump(s, Base(IfResult));
            var res := FreshName(s, Base(IfResult));
            && Ready(bs, s0, FreeVars(e.cond), f)
            && Agree(FreeVars(e), BoundNames(f.env), f.rho, s0.scopes)
            && res !in f.rho && !Taken(bs, s.counters, res) && Taken(bs, s0.counters, res)
            && Grown(s.counters, s0.counters)
  {
    hide Base;
    PurposeAllowed(bs, IfResult);
    FreshIsNew(bs, s.counters, Base(IfResult));
    PlacedLater(bs, f.rho, s.counters, Bump(s, Base(IfResult)).counters);
  }

  /** What both branches start from. */
  ghost predicate BranchReady(bs: Bases, s: GenState, e: Expr, m: IfParts, f: Frame) {
    && e.If?
    && !Taken(bs, s.counters, m.res) && m.res !in f.rho
    && Grown(s.counters, m.s1.counters)
    && Ready(bs, m.s2, FreeVars(e.thenBranch), f)
    && (e.elseBranch.Some? ==> Ready(bs, EnterScope(m.s4), FreeVars(e.elseBranch.value), f))
    && Grown(s.counters, m.s2.counters) && Grown(s.counters, m.s4.counters)
  }

  lemma BranchesReady(bs: Bases, p: Program, s: GenState, s0: GenState, t: GenState, e: Expr, m: IfParts, f: Frame)
    requires IfCompiled(bs, p, s, t, e, BoundNames(f.env), f.types, m) && s0 == Bump(s, Base(IfResult))
    requires Ready(bs, m.s1, FreeVars(e), f) && Grown(s.counters, s0.counters) && Grown(s0.counters, m.s1.counters)
    requires !Taken(bs, s.counters, m.res) && Taken(bs, s0.counters, m.res) && m.res !in f.rho
    ensures BranchReady(bs, s, e, m, f) && Taken(bs, m.s5.counters, m.res)
  {
    hide Base, Taken, Compile, WellTyped, Supported, FreeVars;
    assert Grown(m.s1.counters, m.s2.counters) by { StartBranchesGrows(m.s1); }
    assert Extends(m.s2, m.s3) by { CompileExtends(m.s2, e.thenBranch); }
    GrownTrans(s.counters, s0.counters, m.s1.counters);
    GrownTrans(s.counters, m.s1.counters, m.s2.counters);
    GrownTrans(s.counters, m.s2.counters, m.s4.counters);
    GrownTrans(m.s1.counters, m.s2.counters, m.s4.counters);
    PlacedLater(bs, f.rho, m.s1.counters, m.s2.counters);
    PlacedLater(bs, f.rho, m.s1.counters, m.s4.counters);
    LookupEmptyScope(m.s4.scopes);
    BranchAgrees(e, f, m);
    assert Extends(m.s4, m.s5) by { ElseExtends(m.s4, e, m.res); }
    GrownTrans(m.s1.counters, m.s4.counters, m.s5.counters);
    GrownTrans(s0.counters, m.s1.counters, m.s5.counters);
    TakenStays(bs, s0.counters, m.s5.counters);
  }

  lemma BranchAgrees(e: Expr, f: Frame, m: IfParts)
    requires e.If? && |f.env| == |f.rho| && Agree(FreeVars(e), BoundNames(f.env), f.rho, m.s1.scopes)
    requires m.s2.scopes == m.s1.scopes && m.s4.scopes == m.s1.scopes
    requires forall y :: Lookup(m.s4.scopes + [map[]], y) == Lookup(m.s4.scopes, y)
    ensures Agree(FreeVars(e.thenBranch), BoundNames(f.env), f.rho, m.s2.scopes)
    ensures e.elseBranch.Some? ==>
              Agree(FreeVars(e.elseBranch.value), BoundNames(f.env), f.rho, EnterScope(m.s4).scopes)
  {
  }

  lemma StartBranchesGrows(s: GenState)
    ensures Grown(s.counters, StartBranches(s).counters)
  {
    hide Base;
  }

  lemma ElseExtends(s: GenState, e: Expr, res: string)
    requires e.If? && CompileElse(s, e, res).Some?
    ensures Extends(s, CompileElse(s, e, res).value)
  {
  }

  /** Writing the result register, which no binding lives in. */
  lemma WriteResult(bs: Bases, c: Counters, rho: seq<string>, env: Env, r0: Registers, r1: Registers, res: string,
                    content: Content)
    requires !Taken(bs, c, res) && res !in rho && Kept(bs, c, rho, r0, r1) && Holds(env, rho, r1)
    ensures Kept(bs, c, rho, r0, r1[res := content]) && Holds(env, rho, r1[res := content])
  {
    hide Taken;
  }

  lemma {:induction false} SimulatesThen(rd: Compiled, bs: Bases, p: Program, s: GenState, t: GenState, e: Expr,
                                         f: Frame, o: Outcome, fuel: nat, m: IfParts)
    returns (after: Registers)
    requires IfCompiled(bs, p, s, t, e, BoundNames(f.env), f.types, m) && BranchReady(bs, s, e, m, f)
    requires Get(f.regs, m.s1.name) == Flag(true) && Taken(bs, m.s5.counters, m.res)
    requires Eval(rd, e.thenBranch, f.env, fuel) == Some(o)
    ensures Reaches(p, State(|m.s1.code|, f.regs), State(|t.code|, after))
    ensures Preserved(bs, s, f, o.env, after) && ResultReady(bs, e, t, f, o.val, after)
    decreases fuel, e, 0
  {
    hide Compile, Eval, Taken, Grown, Kept, WellTyped, Static, Agree, Placed, Base, CompileElse, StartBranches, EndThen,
      Reaches;
    var s1, s2, s3 := m.s1, m.s2, m.s3;
    ThenStarts(bs, p, s, t, e, f, m);
    var r1 := Simulates(rd, bs, p, s2, s3, e.thenBranch, f, o, fuel);
    ReadyAfter(rd, bs, p, s2, s3, e.thenBranch, f, o, fuel, r1, {}) by { AgreeNothing(f, s2); }
    var content := AsClass(s3.cls, Get(r1, s3.name));
    after := r1[m.res := content];
    ThenEnds(bs, p, s, t, e, f, m, r1);
    if !o.val.Void? {
      AsClassEncode(o.val, e.ty);
    }
    KeptEarlier(bs, s.counters, s2.counters, f.rho, f.regs, r1);
    WriteResult(bs, s.counters, f.rho, o.env, f.regs, r1, m.res, content);
    ReachesTrans(p, State(|s1.code|, f.regs), State(|s2.code|, f.regs), State(|s3.code|, r1));
    ReachesTrans(p, State(|s1.code|, f.regs), State(|s3.code|, r1), State(|t.code|, after));
  }

  lemma ThenStarts(bs: Bases, p: Program, s: GenState, t: GenState, e: Expr, f: Frame, m: IfParts)
    requires IfCompiled(bs, p, s, t, e, BoundNames(f.env), f.types, m) && Get(f.regs, m.s1.name) == Flag(true)
    ensures Reaches(p, State(|m.s1.code|, f.regs), State(|m.s2.code|, f.regs))
  {
    hide Compile, Static, Base, CompileElse, Reaches;
    var s1, s2 := m.s1, m.s2;
    var thenLabel, elseLabel := FreshName(s1, Base(ThenLabel)), FreshName(s1, Base(ElseLabel));
    assert p[|s1.code| + 1] == s2.code[|s1.code| + 1] == Label(thenLabel);
    assert Emit(s1, Jnz(s1.name, thenLabel, elseLabel)).code <= s2.code;
    BranchStep(p, s1, s1.name, thenLabel, elseLabel, f.regs, true, |s1.code| + 1);
  }

  /** The end of the then branch copies the value and jumps over the else branch. */
  lemma ThenEnds(bs: Bases, p: Program, s: GenState, t: GenState, e: Expr, f: Frame, m: IfParts, r1: Registers)
    requires IfCompiled(bs, p, s, t, e, BoundNames(f.env), f.types, m)
    ensures Reaches(p, State(|m.s3.code|, r1), State(|t.code|, r1[m.res := AsClass(m.s3.cls, Get(r1, m.s3.name))]))
  {
    hide Compile, Static, Base, CompileElse, Reaches, StartBranches;
    var s3, mergeLabel := m.s3, FreshName(m.s1, Base(MergeLabel));
    var s3' := Emit(s3, Set(m.res, Copy(s3.cls, s3.name)));
    assert s3'.code <= m.s4.code && Emit(s3', Jmp(mergeLabel)).code <= m.s4.code;
    CopyStep(p, s3, m.res, s3.cls, s3.name, r1);
    var after := r1[m.res := AsClass(s3.cls, Get(r1, s3.name))];
    assert p[|m.s5.code|] == t.code[|m.s5.code|] == Label(mergeLabel);
    JumpStep(p, s3', mergeLabel, after, |m.s5.code|);
    ReachesTrans(p, State(|s3.code|, r1), State(|s3'.code|, after), State(|t.code|, after));
  }

  lemma AgreeNothing(f: Frame, s: GenState)
    requires |f.env| == |f.rho|
    ensures Agree({}, BoundNames(f.env), f.rho, s.scopes)
  {
  }

  lemma {:induction false} SimulatesElse(rd: Compiled, bs: Bases, p: Program, s: GenState, t: GenState, e: Expr,
                                         f: Frame, o: Outcome, fuel: nat, m: IfParts)
    returns (after: Registers)
    requires e.If? && Static(bs, p, s, t, e, BoundNames(f.env), f.types)
    requires IfCompiled(bs, p, s, t, e, BoundNames(f.env), f.types, m) && BranchReady(bs, s, e, m, f)
    requires m.s2.code <= m.s3.code && Get(f.regs, m.s1.name) == Flag(false) && Taken(bs, m.s5.counters, m.res)
    requires match e.elseBranch
             case Some(els) => Eval(rd, els, f.env, fuel) == Some(o)
             case None => o == Outcome(Void, f.env)
    ensures Reaches(p, State(|m.s1.code|, f.regs), State(|t.code|, after))
    ensures Preserved(bs, s, f, o.env, after) && ResultReady(bs, e, t, f, o.val, after)
    decreases fuel, e, 1
  {
    hide Compile, CompileElse, Eval, Taken, Grown, WellTyped, Static, Agree, Placed, Base;
    var s1, s4 := m.s1, m.s4;
    ElseJump(bs, p, s, t, e, f, m);
    if e.elseBranch.None? {
      after := f.regs;
      NoElse(s4, e, m.res);
      assert m.s5 == s4;
      assert Preserved(bs, s, f, o.env, after) by { ReadyHolds(bs, m.s2, e, f); }
    } else {
      after := SimulatesElseBranch(rd, bs, p, s, t, e, f, o, fuel, m);
      ReachesTrans(p, State(|s1.code|, f.regs), State(|s4.code|, f.regs), State(|m.s5.code|, after));
    }
    LabelStep(p, m.s5, FreshName(s1, Base(MergeLabel)), after);
    ReachesTrans(p, State(|s1.code|, f.regs), State(|m.s5.code|, after), State(|t.code|, after));
  }

  lemma NoElse(s: GenState, e: Expr, res: string)
    requires e.If? && e.elseBranch.None?
    ensures CompileElse(s, e, res) == Some(s)
  {
  }

  lemma ReadyHolds(bs: Bases, s: GenState, e: Expr, f: Frame)
    requires e.If? && Ready(bs, s, FreeVars(e.thenBranch), f)
    ensures Holds(f.env, f.rho, f.regs)
  {
  }

  lemma ElseJump(bs: Bases, p: Program, s: GenState, t: GenState, e: Expr, f: Frame, m: IfParts)
    requires IfCompiled(bs, p, s, t, e, BoundNames(f.env), f.types, m)
    requires m.s2.code <= m.s3.code && Get(f.regs, m.s1.name) == Flag(false)
    ensures Reaches(p, State(|m.s1.code|, f.regs), State(|m.s4.code|, f.regs))
  {
    hide Base, Static, CompileElse;
    var s1, s4 := m.s1, m.s4;
    var elseLabel := FreshName(s1, Base(ElseLabel));
    assert p[|s4.code| - 1] == s4.code[|s4.code| - 1] == Label(elseLabel);
    assert Emit(s1, Jnz(s1.name, FreshName(s1, Base(ThenLabel)), elseLabel)).code <= m.s2.code;
    BranchStep(p, s1, s1.name, FreshName(s1, Base(ThenLabel)), elseLabel, f.regs, false, |s4.code| - 1);
  }

  lemma {:induction false} SimulatesElseBranch(rd: Compiled, bs: Bases, p: Program, s: GenState, t: GenState, e: Expr,
                                               f: Frame, o: Outcome, fuel: nat, m: IfParts)
    returns (after: Registers)
    requires e.If? && Static(bs, p, s, t, e, BoundNames(f.env), f.types)
    requires IfCompiled(bs, p, s, t, e, BoundNames(f.env), f.types, m) && BranchReady(bs, s, e, m, f)
    requires Taken(bs, m.s5.counters, m.res)
    requires e.elseBranch.Some? && Eval(rd, e.elseBranch.value, f.env, fuel) == Some(o)
    ensures Reaches(p, State(|m.s4.code|, f.regs), State(|m.s5.code|, after))
    ensures Preserved(bs, s, f, o.env, after) && ResultReady(bs, e, t, f, o.val, after)
    decreases fuel, e, 0
  {
    hide Compile, Eval, Taken, Grown, Kept, WellTyped, Static, Agree, Placed, Base, CompileElse;
    var els := e.elseBranch.value;
    var s5 := IfElseCompiles(bs, p, s, t, e, BoundNames(f.env), f.types, m);
    var s4 := EnterScope(m.s4);
    var r1 := Simulates(rd, bs, p, s4, s5, els, f, o, fuel);
    ReadyAfter(rd, bs, p, s4, s5, els, f, o, fuel, r1, {}) by { AgreeNothing(f, s4); }
    CopyStep(p, s5, m.res, s5.cls, s5.name, r1);
    var content := AsClass(s5.cls, Get(r1, s5.name));
    after := r1[m.res := content];
    if !o.val.Void? {
      AsClassEncode(o.val, e.ty);
    }
    KeptEarlier(bs, s.counters, s4.counters, f.rho, f.regs, r1);
    WriteResult(bs, s.counters, f.rho, o.env, f.regs, r1, m.res, content);
    ReachesTrans(p, State(|s4.code|, f.regs), State(|s5.code|, r1), State(|m.s5.code|, after));
  }

  // ---------- loops ----------

  datatype LoopParts = LoopParts(s1: GenState, s2: GenState, s3: GenState, s4: GenState)

  ghost predicate WhileCompiled(bs: Bases, p: Program, s: GenState, t: GenState, e: Expr, names: seq<string>,
                                types: seq<Ty>, m: LoopParts) {
    && e.While?
    && m.s1 == StartLoop(s)
    && m.s1.code <= p
    && Static(bs, p, m.s1, m.s2, e.cond, names, types)
    && m.s3 == EnterScope(StartBody(m.s2, s))
    && m.s3.code <= p
    && Static(bs, p, m.s3, m.s4, e.loopBody, names, types)
    && t == EndLoop(m.s4, s)
    && t.code <= p
    && UniqueLabels(p)
  }

  lemma WhileCompiles(bs: Bases, p: Program, s: GenState, t: GenState, e: Expr, names: seq<string>, types: seq<Ty>)
    returns (m: LoopParts)
    requires e.While? && Static(bs, p, s, t, e, names, types)
    ensures WhileCompiled(bs, p, s, t, e, names, types, m)
  {
    hide Base;
    assert CompileWhile(s, e) == Some(t);
    var s1 := StartLoop(s);
    var s2 := Compile(s1, e.cond).value;
    var s3 := EnterScope(StartBody(s2, s));
    var s4 := Compile(s3, e.loopBody).value;
    m := LoopParts(s1, s2, s3, s4);
  }

  lemma WhileEvaluates(rd: Reading, e: Expr, env: Env, o: Outcome, fuel: nat) returns (o1: Outcome, o2: Outcome)
    requires e.While? && Eval(rd, e, env, fuel) == Some(o)
    ensures Eval(rd, e.cond, env, fuel) == Some(o1) && o1.val.Truth?
    ensures if o1.val.b then
              Eval(rd, e.loopBody, o1.env, fuel) == Some(o2) && fuel > 0 && Eval(rd, e, o2.env, fuel - 1) == Some(o)
            else o == Outcome(Void, o1.env)
    ensures o.val.Void?
    decreases fuel
  {
    o1 := Eval(rd, e.cond, env, fuel).value;
    o2 := o1;
    if o1.val.b {
      o2 := Eval(rd, e.loopBody, o1.env, fuel).value;
      var _, _ := WhileEvaluates(rd, e, o2.env, o, fuel - 1);
    }
  }

  lemma {:induction false} SimulatesWhile(rd: Compiled, bs: Bases, p: Program, s: GenState, t: GenState, e: Expr,
                                          f: Frame, o: Outcome, fuel: nat)
    returns (after: Registers)
    requires e.While? && Premises(rd, bs, p, s, t, e, f, o, fuel)
    ensures Conclusion(bs, p, s, t, e, f, o, after)
    decreases fuel, e, 1
  {
    hide Compile, Eval, Taken, Grown, WellTyped, Agree, Placed, Base, Reaches, FreeVars, Supported,
         EnvTyped, Holds, Kept, StartLoop, EndLoop;
    var m := WhileCompiles(bs, p, s, t, e, BoundNames(f.env), f.types);
    var o1, o2 := WhileEvaluates(rd, e, f.env, o, fuel);
    LoopReady(bs, s, e, f);
    var f1 := LoopTest(rd, bs, p, s, t, e, f, o1, fuel, m);
    if o1.val.b {
      var f2 := LoopBodyRuns(rd, bs, p, s, t, e, f1, o2, fuel, m);
      after := SimulatesWhile(rd, bs, p, s, t, e, f2, o, fuel - 1);
      LoopChain(bs, p, s, t, m, f, f1, f2, after);
    } else {
      after := f1.regs;
      LoopExits(bs, p, s, t, e, f1, m);
      ReachesTrans(p, State(|s.code|, f.regs), State(|m.s2.code|, f1.regs), State(|t.code|, after));
    }
  }

  lemma LoopChain(bs: Bases, p: Program, s: GenState, t: GenState, m: LoopParts, f: Frame, f1: Frame, f2: Frame,
                  after: Registers)
    requires Reaches(p, State(|s.code|, f.regs), State(|m.s2.code|, f1.regs))
    requires Reaches(p, State(|m.s2.code|, f1.regs), State(|s.code|, f2.regs))
    requires Reaches(p, State(|s.code|, f2.regs), State(|t.code|, after))
    requires Kept(bs, s.counters, f.rho, f.regs, f1.regs) && Kept(bs, s.counters, f.rho, f1.regs, f2.regs)
    requires Kept(bs, s.counters, f.rho, f2.regs, after)
    ensures Reaches(p, State(|s.code|, f.regs), State(|t.code|, after))
    ensures Kept(bs, s.counters, f.rho, f.regs, after)
  {
    hide Taken, Reaches;
    ReachesTrans(p, State(|s.code|, f.regs), State(|m.s2.code|, f1.regs), State(|s.code|, f2.regs));
    ReachesTrans(p, State(|s.code|, f.regs), State(|s.code|, f2.regs), State(|t.code|, after));
  }

  lemma LoopReady(bs: Bases, s: GenState, e: Expr, f: Frame)
    requires e.While? && Ready(bs, s, FreeVars(e), f)
    ensures var s1 := StartLoop(s);
            && Ready(bs, s1, FreeVars(e.cond), f)
            && Agree(FreeVars(e), BoundNames(f.env), f.rho, s1.scopes)
            && Grown(s.counters, s1.counters)
  {
    hide Base, Taken;
    PlacedLater(bs, f.rho, s.counters, StartLoop(s).counters);
  }

  /** From the loop's label to its test. */
  lemma {:induction false} LoopTest(rd: Compiled, bs: Bases, p: Program, s: GenState, t: GenState, e: Expr, f: Frame,
                                    o1: Outcome, fuel: nat, m: LoopParts)
    returns (f1: Frame)
    requires WhileCompiled(bs, p, s, t, e, BoundNames(f.env), f.types, m)
    requires Ready(bs, m.s1, FreeVars(e.cond), f) && Grown(s.counters, m.s1.counters)
    requires Agree(FreeVars(e), BoundNames(f.env), f.rho, m.s1.scopes)
    requires Eval(rd, e.cond, f.env, fuel) == Some(o1) && o1.val.Truth?
    ensures f1 == f.(env := o1.env, regs := f1.regs) && BoundNames(f1.env) == BoundNames(f.env)
    ensures Reaches(p, State(|s.code|, f.regs), State(|m.s2.code|, f1.regs))
    ensures Kept(bs, s.counters, f.rho, f.regs, f1.regs) && Get(f1.regs, m.s2.name) == Flag(o1.val.b)
    ensures Ready(bs, m.s2, FreeVars(e), f1) && m.s2.scopes == s.scopes
    ensures Grown(s.counters, m.s2.counters)
    decreases fuel, e, 0
  {
    hide Compile, Eval, Taken, Grown, Kept, WellTyped, Static, Agree, Placed, Base;
    LabelStep(p, s, FreshName(s, Base(LoopCond)), f.regs);
    var r1 := Simulates(rd, bs, p, m.s1, m.s2, e.cond, f, o1, fuel);
    ReadyAfter(rd, bs, p, m.s1, m.s2, e.cond, f, o1, fuel, r1, FreeVars(e));
    f1 := f.(env := o1.env, regs := r1);
    KeptEarlier(bs, s.counters, m.s1.counters, f.rho, f.regs, r1);
    GrownTrans(s.counters, m.s1.counters, m.s2.counters);
    ReachesTrans(p, State(|s.code|, f.regs), State(|m.s1.code|, f.regs), State(|m.s2.code|, r1));
  }

  /** From a test that holds, through the body, back to the loop's label. */
  lemma {:induction false} LoopBodyRuns(rd: Compiled, bs: Bases, p: Program, s: GenState, t: GenState, e: Expr,
                                        f: Frame, o: Outcome, fuel: nat, m: LoopParts)
    returns (f2: Frame)
    requires WhileCompiled(bs, p, s, t, e, BoundNames(f.env), f.types, m)
    requires Ready(bs, m.s2, FreeVars(e), f) && Get(f.regs, m.s2.name) == Flag(true)
    requires Grown(s.counters, m.s2.counters) && m.s2.scopes == s.scopes && Placed(bs, f.rho, s.counters)
    requires Eval(rd, e.loopBody, f.env, fuel) == Some(o)
    ensures f2 == f.(env := o.env, regs := f2.regs) && BoundNames(f2.env) == BoundNames(f.env)
    ensures Reaches(p, State(|m.s2.code|, f.regs), State(|s.code|, f2.regs))
    ensures Kept(bs, s.counters, f.rho, f.regs, f2.regs) && Ready(bs, s, FreeVars(e), f2)
    decreases fuel, e, 0
  {
    hide Compile, Eval, Taken, Grown, Kept, WellTyped, Static, Placed, Base;
    var bodyLabel, endLabel := FreshName(s, Base(LoopBody)), FreshName(s, Base(LoopEnd));
    assert p[|m.s2.code| + 1] == m.s3.code[|m.s2.code| + 1] == Label(bodyLabel);
    assert Emit(m.s2, Jnz(m.s2.name, bodyLabel, endLabel)).code <= m.s3.code;
    BranchStep(p, m.s2, m.s2.name, bodyLabel, endLabel, f.regs, true, |m.s2.code| + 1);
    BodyAgrees(e, f, m.s2, m.s3);
    var r1 := Simulates(rd, bs, p, m.s3, m.s4, e.loopBody, f, o, fuel);
    ReadyAfter(rd, bs, p, m.s3, m.s4, e.loopBody, f, o, fuel, r1, {}) by { AgreeNothing(f, m.s3); }
    f2 := f.(env := o.env, regs := r1);
    BackToStart(bs, p, s, t, e, f, m, r1);
    KeptEarlier(bs, s.counters, m.s2.counters, f.rho, f.regs, r1);
    ReachesTrans(p, State(|m.s2.code|, f.regs), State(|m.s3.code|, f.regs), State(|m.s4.code|, r1));
    ReachesTrans(p, State(|m.s2.code|, f.regs), State(|m.s4.code|, r1), State(|s.code|, r1));
  }

  lemma BodyAgrees(e: Expr, f: Frame, s2: GenState, s3: GenState)
    requires e.While? && |f.env| == |f.rho| && Agree(FreeVars(e), BoundNames(f.env), f.rho, s2.scopes)
    requires s3.scopes == s2.scopes + [map[]]
    ensures Agree(FreeVars(e.loopBody), BoundNames(f.env), f.rho, s3.scopes)
  {
    LookupEmptyScope(s2.scopes);
  }

  lemma BackToStart(bs: Bases, p: Program, s: GenState, t: GenState, e: Expr, f: Frame, m: LoopParts, regs: Registers)
    requires WhileCompiled(bs, p, s, t, e, BoundNames(f.env), f.types, m) && m.s1.code <= p
    ensures Reaches(p, State(|m.s4.code|, regs), State(|s.code|, regs))
  {
    hide Base, Static;
    var condLabel := FreshName(s, Base(LoopCond));
    assert p[|s.code|] == m.s1.code[|s.code|] == Label(condLabel);
    assert Emit(m.s4, Jmp(condLabel)).code <= t.code;
    JumpTo(p, m.s4, condLabel, regs, |s.code|);
  }

  lemma LoopExits(bs: Bases, p: Program, s: GenState, t: GenState, e: Expr, f: Frame, m: LoopParts)
    requires WhileCompiled(bs, p, s, t, e, BoundNames(f.env), f.types, m)
    requires Get(f.regs, m.s2.name) == Flag(false)
    ensures Reaches(p, State(|m.s2.code|, f.regs), State(|t.code|, f.regs))
  {
    hide Base, Static;
    var bodyLabel, endLabel := FreshName(s, Base(LoopBody)), FreshName(s, Base(LoopEnd));
    assert p[|t.code| - 1] == t.code[|t.code| - 1] == Label(endLabel);
    assert Emit(m.s2, Jnz(m.s2.name, bodyLabel, endLabel)).code <= m.s3.code;
    BranchStep(p, m.s2, m.s2.name, bodyLabel, endLabel, f.regs, false, |t.code| - 1);
  }
}
