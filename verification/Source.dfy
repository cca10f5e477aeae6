/** The expression fragment that code generation handles, and what it means.

    An environment is the list of live bindings, innermost last. Evaluation is fuelled by the
    number of loop iterations; `None` covers running out of fuel and every error. */
module Source {
  import opened Wrappers

  /** The inferred type that semantic analysis leaves on a node. */
  datatype Ty = Number | Bool | Other

  datatype Relation = Lt | Gt | Le | Ge | Eq

  datatype ArithOp = Add | Sub | Mul | Div

  datatype BinaryOp = Compare(rel: Relation) | Arith(arith: ArithOp) | And | Or

  datatype UnaryOp = Neg | Not

  datatype Expr =
    | NumberLit(number: real, ty: Ty)
    | BoolLit(truth: bool, ty: Ty)
    | Var(name: string, ty: Ty)
    | Binary(op: BinaryOp, left: Expr, right: Expr, ty: Ty)
    | Unary(uop: UnaryOp, operand: Expr, ty: Ty)
    | Let(name: string, init: Expr, body: Expr, ty: Ty)
    | Block(stmts: seq<Expr>, ty: Ty)
    | If(cond: Expr, thenBranch: Expr, elseBranch: Option<Expr>, ty: Ty)
    | Assign(target: string, source: Expr, ty: Ty)
    | While(cond: Expr, loopBody: Expr, ty: Ty)

  /** `Void` is the value of a loop, of an empty block and of a conditional that takes a missing
      branch: no operation accepts it. `Undefined` is what a variable of the given type holds that has
      not been given a value; programs do not produce it, but code generation may read it. */
  datatype Value = Num(r: real) | Truth(b: bool) | Void | Undefined(ty: Ty)

  datatype Binding = Binding(name: string, val: Value)

  type Env = seq<Binding>

  datatype Outcome = Outcome(val: Value, env: Env)

  function BoundNames(env: Env): (names: seq<string>)
    ensures |names| == |env|
  {
    seq(|env|, i requires 0 <= i < |env| => env[i].name)
  }

  /** The position of the innermost binding of `name`. */
  function Find(names: seq<string>, name: string): (i: Option<nat>)
    ensures i.Some? ==> i.value < |names| && names[i.value] == name
  {
    if names == [] then None
    else if names[|names| - 1] == name then Some(|names| - 1)
    else Find(names[..|names| - 1], name)
  }

  predicate Related(rel: Relation, x: real, y: real) {
    match rel
    case Lt => x < y
    case Gt => x > y
    case Le => x <= y
    case Ge => x >= y
    case Eq => x == y
  }

  /** Real arithmetic; division by zero has no value. */
  function Calculate(op: ArithOp, x: real, y: real): Option<real> {
    match op
    case Add => Some(x + y)
    case Sub => Some(x - y)
    case Mul => Some(x * y)
    case Div => if y == 0.0 then None else Some(x / y)
  }

  function TypeOf(v: Value): Ty {
    match v
    case Num(_) => Number
    case Truth(_) => Bool
    case Void => Other
    case Undefined(ty) => ty
  }

  /** How `&` and `|` are read once both operands have been evaluated. `AsWritten`: as the language means
      them. `AsEmitted`: as the right operand alone, which is what code is generated for. `Decided`: as
      written, but without a value where the right operand alone does not decide it. */
  datatype Reading = AsWritten | AsEmitted | Decided

  function Logical(rd: Reading, written: bool, right: bool): Option<Value> {
    match rd
    case AsWritten => Some(Truth(written))
    case AsEmitted => Some(Truth(right))
    case Decided => if written == right then Some(Truth(right)) else None
  }

  function Apply(rd: Reading, op: BinaryOp, l: Value, r: Value): Option<Value> {
    match op
    case Compare(rel) =>
      if l.Num? && r.Num? then Some(Truth(Related(rel, l.r, r.r)))
      else if (l.Undefined? || r.Undefined?) && !l.Void? && !r.Void? && TypeOf(l) == TypeOf(r) then
        if rel.Eq? || TypeOf(l).Number? then Some(Undefined(Bool)) else None
      else if rel.Eq? && !l.Void? && !r.Void? then Some(Truth(l == r))
      else None
    case Arith(op) =>
      if l.Num? && r.Num? then
        var x :- Calculate(op, l.r, r.r);
        Some(Num(x))
      else if (l.Undefined? || r.Undefined?) && TypeOf(l).Number? && TypeOf(r).Number? then
        if op.Div? && r == Num(0.0) then None else Some(Undefined(Number))
      else None
    case And => if l.Truth? && r.Truth? then Logical(rd, l.b && r.b, r.b) else None
    case Or => if l.Truth? && r.Truth? then Logical(rd, l.b || r.b, r.b) else None
  }

  function ApplyUnary(op: UnaryOp, v: Value): Option<Value> {
    match op
    case Neg => if v.Num? then Some(Num(0.0 - v.r)) else if v == Undefined(Number) then Some(v) else None
    case Not => if v.Truth? then Some(Truth(!v.b)) else if v == Undefined(Bool) then Some(v) else None
  }

  function Eval(rd: Reading, e: Expr, env: Env, fuel: nat): (o: Option<Outcome>)
    ensures o.Some? ==> BoundNames(o.value.env) == BoundNames(env)
    decreases fuel, e
  {
    match e
    case NumberLit(n, _) => Some(Outcome(Num(n), env))
    case BoolLit(b, _) => Some(Outcome(Truth(b), env))
    case Var(x, _) =>
      var i :- Find(BoundNames(env), x);
      Some(Outcome(env[i].val, env))
    case Binary(op, l, r, _) =>
      var o1 :- Eval(rd, l, env, fuel);
      var o2 :- Eval(rd, r, o1.env, fuel);
      var v :- Apply(rd, op, o1.val, o2.val);
      Some(Outcome(v, o2.env))
    case Unary(op, a, _) =>
      var o :- Eval(rd, a, env, fuel);
      var v :- ApplyUnary(op, o.val);
      Some(Outcome(v, o.env))
    case Let(x, init, body, _) =>
      var o1 :- Eval(rd, init, env, fuel);
      var inner := o1.env + [Binding(x, o1.val)];
      var o2 :- Eval(rd, body, inner, fuel);
      assert |o2.env| == |inner| by { assert |BoundNames(o2.env)| == |BoundNames(inner)|; }
      NamesPrefix(o2.env, inner, |env|);
      Some(Outcome(o2.val, o2.env[..|env|]))
    case Block(stmts, _) => EvalSeq(rd, stmts, env, Void, fuel)
    case If(c, t, els, _) =>
      var o :- Eval(rd, c, env, fuel);
      if !o.val.Truth? then None
      else if o.val.b then Eval(rd, t, o.env, fuel)
      else (match els
            case Some(f) => Eval(rd, f, o.env, fuel)
            case None => Some(Outcome(Void, o.env)))
    case Assign(x, s, _) =>
      var o :- Eval(rd, s, env, fuel);
      var i :- Find(BoundNames(o.env), x);
      Some(Outcome(o.val, o.env[i := Binding(x, o.val)]))
    case While(c, body, _) =>
      var o1 :- Eval(rd, c, env, fuel);
      if !o1.val.Truth? then None
      else if !o1.val.b then Some(Outcome(Void, o1.env))
      else
        var o2 :- Eval(rd, body, o1.env, fuel);
        if fuel == 0 then None else Eval(rd, e, o2.env, fuel - 1)
  }

  /** Statements in order; the value is that of the last one. */
  function EvalSeq(rd: Reading, es: seq<Expr>, env: Env, last: Value, fuel: nat): (o: Option<Outcome>)
    ensures o.Some? ==> BoundNames(o.value.env) == BoundNames(env)
    decreases fuel, es
  {
    if es == [] then Some(Outcome(last, env))
    else
      var o :- Eval(rd, es[0], env, fuel);
      EvalSeq(rd, es[1..], o.env, o.val, fuel)
  }

  lemma NamesPrefix(a: Env, b: Env, n: nat)
    requires BoundNames(a) == BoundNames(b) && n <= |a|
    ensures |a| == |b| && BoundNames(a[..n]) == BoundNames(b[..n])
  {
    assert |BoundNames(a)| == |BoundNames(b)|;
    forall i | 0 <= i < n ensures BoundNames(a[..n])[i] == BoundNames(b[..n])[i] {
      assert BoundNames(a)[i] == BoundNames(b)[i];
    }
  }

  /** Variables that occur free: read or assigned. */
  function FreeVars(e: Expr): set<string> {
    match e
    case NumberLit(_, _) => {}
    case BoolLit(_, _) => {}
    case Var(x, _) => {x}
    case Binary(_, l, r, _) => FreeVars(l) + FreeVars(r)
    case Unary(_, a, _) => FreeVars(a)
    case Let(x, init, body, _) => FreeVars(init) + (FreeVars(body) - {x})
    case Block(stmts, _) => FreeVarsSeq(stmts)
    case If(c, t, els, _) =>
      FreeVars(c) + FreeVars(t) + (match els case Some(f) => FreeVars(f) case None => {})
    case Assign(x, s, _) => {x} + FreeVars(s)
    case While(c, body, _) => FreeVars(c) + FreeVars(body)
  }

  function FreeVarsSeq(es: seq<Expr>): set<string> {
    if es == [] then {} else FreeVars(es[0]) + FreeVarsSeq(es[1..])
  }

  /** Variables bound outside `e` that `e` may assign. */
  function Assigned(e: Expr): set<string> {
    match e
    case NumberLit(_, _) => {}
    case BoolLit(_, _) => {}
    case Var(x, _) => {}
    case Binary(_, l, r, _) => Assigned(l) + Assigned(r)
    case Unary(_, a, _) => Assigned(a)
    case Let(x, init, body, _) => Assigned(init) + (Assigned(body) - {x})
    case Block(stmts, _) => AssignedSeq(stmts)
    case If(c, t, els, _) =>
      Assigned(c) + Assigned(t) + (match els case Some(f) => Assigned(f) case None => {})
    case Assign(x, s, _) => {x} + Assigned(s)
    case While(c, body, _) => Assigned(c) + Assigned(body)
  }

  function AssignedSeq(es: seq<Expr>): set<string> {
    if es == [] then {} else Assigned(es[0]) + AssignedSeq(es[1..])
  }

  lemma FindAppend(names: seq<string>, x: string, y: string)
    ensures Find(names + [x], y) == if x == y then Some(|names|) else Find(names, y)
  {
    assert (names + [x])[..|names|] == names;
  }

  /** No variable in `xs` is the one bound at position `i`. */
  ghost predicate Misses(xs: set<string>, names: seq<string>, i: nat) {
    forall x | x in xs :: Find(names, x) != Some(i)
  }

  /** A binding that `e` does not assign keeps its value. */
  lemma {:induction false} UnassignedKept(rd: Reading, e: Expr, env: Env, fuel: nat, i: nat)
    requires i < |env| && Misses(Assigned(e), BoundNames(env), i) && Eval(rd, e, env, fuel).Some?
    ensures var after := Eval(rd, e, env, fuel).value.env;
            |after| == |env| && after[i].val == env[i].val
    decreases fuel, e, 1
  {
    hide Apply, ApplyUnary;
    var after := Eval(rd, e, env, fuel).value.env;
    assert |BoundNames(after)| == |BoundNames(env)|;
    match e
    case NumberLit(_, _) =>
    case BoolLit(_, _) =>
    case Var(_, _) =>
    case Binary(_, l, r, _) =>
      UnassignedKept(rd, l, env, fuel, i);
      UnassignedKept(rd, r, Eval(rd, l, env, fuel).value.env, fuel, i);
    case Unary(_, a, _) =>
      UnassignedKept(rd, a, env, fuel, i);
    case Let(_, _, _, _) =>
      UnassignedKeptLet(rd, e, env, fuel, i);
    case Block(stmts, _) =>
      UnassignedKeptSeq(rd, stmts, env, Void, fuel, i);
    case If(c, t, els, _) =>
      UnassignedKept(rd, c, env, fuel, i);
      var o := Eval(rd, c, env, fuel).value;
      if o.val.b {
        UnassignedKept(rd, t, o.env, fuel, i);
      } else if els.Some? {
        UnassignedKept(rd, els.value, o.env, fuel, i);
      }
    case Assign(y, s, _) =>
      UnassignedKept(rd, s, env, fuel, i);
    case While(c, body, _) =>
      UnassignedKept(rd, c, env, fuel, i);
      var o1 := Eval(rd, c, env, fuel).value;
      if o1.val.b {
        UnassignedKept(rd, body, o1.env, fuel, i);
        UnassignedKept(rd, e, Eval(rd, body, o1.env, fuel).value.env, fuel - 1, i);
      }
  }

  lemma {:induction false} UnassignedKeptLet(rd: Reading, e: Expr, env: Env, fuel: nat, i: nat)
    requires e.Let? && i < |env| && Misses(Assigned(e), BoundNames(env), i) && Eval(rd, e, env, fuel).Some?
    ensures var after := Eval(rd, e, env, fuel).value.env;
            |after| == |env| && after[i].val == env[i].val
    decreases fuel, e, 0
  {
    hide Apply, ApplyUnary;
    UnassignedKept(rd, e.init, env, fuel, i);
    var o1 := Eval(rd, e.init, env, fuel).value;
    var inner := o1.env + [Binding(e.name, o1.val)];
    assert |BoundNames(o1.env)| == |BoundNames(env)|;
    assert BoundNames(inner) == BoundNames(o1.env) + [e.name];
    forall x | x in Assigned(e.body) ensures Find(BoundNames(inner), x) != Some(i) {
      FindAppend(BoundNames(o1.env), e.name, x);
    }
    UnassignedKept(rd, e.body, inner, fuel, i);
    assert |BoundNames(Eval(rd, e.body, inner, fuel).value.env)| == |BoundNames(inner)|;
  }

  lemma {:induction false} UnassignedKeptSeq(rd: Reading, es: seq<Expr>, env: Env, last: Value, fuel: nat, i: nat)
    requires i < |env| && Misses(AssignedSeq(es), BoundNames(env), i) && EvalSeq(rd, es, env, last, fuel).Some?
    ensures var after := EvalSeq(rd, es, env, last, fuel).value.env;
            |after| == |env| && after[i].val == env[i].val
    decreases fuel, es
  {
    if es != [] {
      UnassignedKept(rd, es[0], env, fuel, i);
      var o := Eval(rd, es[0], env, fuel).value;
      UnassignedKeptSeq(rd, es[1..], o.env, o.val, fuel, i);
    }
  }
}
