/** The tree fragment that macro expansion works on, and what its names refer to. */
module MacroSyntax {
  import opened Wrappers

  datatype Literal = NumberLit(text: string, kind: string) | StringLit(text: string) | BoolLit(truth: bool)

  /** Node kinds that bind nothing and are cloned component by component. */
  datatype Label =
    | BinaryOp(op: string) | UnaryOp(op: string)
    | If | Block | ExprStmt | Return | While | Assignment
    | MemberAccess(member: string) | IndexAccess | VectorLiteral | New(typeName: string)
    | MethodCall(selector: string)

  /** `let name = init in body`, `for (name in init) body` and `[body || name in init]`: the name is
      bound in the body only. */
  datatype Binding = LetIn | ForIn | ComprehensionOver

  datatype Expr =
    | Lit(literal: Literal)
    | Var(name: string)
    | Node(kind: Label, kids: seq<Expr>)
    | Bind(binder: Binding, name: string, init: Expr, body: Expr)
    | Lambda(params: seq<string>, body: Expr)
    | Call(callee: string, args: seq<Expr>)
    | Match(subject: Expr, cases: seq<Case>, fallback: Expr)

  datatype Case = Case(pattern: Pattern, result: Expr)

  /** Patterns of a compile-time match; `Other` stands for every node kind that never matches. */
  datatype Pattern =
    | Capture(name: string)
    | LitPattern(literal: Literal)
    | BinaryPattern(op: string, left: Pattern, right: Pattern)
    | UnaryPattern(op: string, operand: Pattern)
    | Other

  // ---------- what names refer to ----------

  /** A binder, counted from the outside in, or a name no enclosing binder introduces. */
  datatype Referent = Binder(level: nat) | Global(globalName: string)

  /** A tree in which names have been replaced by what they refer to. Trees with the same resolved
      form differ at most in the names of bound variables, so they mean the same. */
  datatype Resolved =
    | RLit(literal: Literal)
    | RVar(referent: Referent)
    | RNode(kind: Label, kids: seq<Resolved>)
    | RBind(binder: Binding, init: Resolved, body: Resolved)
    | RLambda(arity: nat, body: Resolved)
    | RCall(callee: Referent, args: seq<Resolved>)
    | RError

  /** The binders in scope: the level of each visible name. */
  type Scope = map<string, nat>

  function Refer(scope: Scope, name: string): Referent {
    if name in scope then Binder(scope[name]) else Global(name)
  }

  function BindAll(scope: Scope, names: seq<string>, level: nat): Scope
    decreases names
  {
    if names == [] then scope
    else BindAll(scope[names[0] := level], names[1..], level + 1)
  }

  /** The resolved form of `e` under the binders in `scope`, at nesting depth `depth`. */
  function Resolve(e: Expr, scope: Scope, depth: nat): Resolved
    decreases e
  {
    match e
    case Lit(l) => RLit(l)
    case Var(x) => RVar(Refer(scope, x))
    case Node(kind, kids) => RNode(kind, ResolveAll(kids, scope, depth))
    case Bind(k, x, i, b) => RBind(k, Resolve(i, scope, depth), Resolve(b, scope[x := depth], depth + 1))
    case Lambda(ps, b) => RLambda(|ps|, Resolve(b, BindAll(scope, ps, depth), depth + |ps|))
    case Call(f, args) => RCall(Refer(scope, f), ResolveAll(args, scope, depth))
    case Match(_, _, _) => RError
  }

  function ResolveAll(es: seq<Expr>, scope: Scope, depth: nat): (rs: seq<Resolved>)
    ensures |rs| == |es| && forall i | 0 <= i < |es| :: rs[i] == Resolve(es[i], scope, depth)
    decreases es
  {
    if es == [] then []
    else [Resolve(es[0], scope, depth)] + ResolveAll(es[1..], scope, depth)
  }

  /** Names that occur free. */
  function FreeNames(e: Expr): set<string>
    decreases e
  {
    match e
    case Lit(_) => {}
    case Var(x) => {x}
    case Node(_, kids) => FreeNamesAll(kids)
    case Bind(_, x, i, b) => FreeNames(i) + (FreeNames(b) - {x})
    case Lambda(ps, b) => FreeNames(b) - (set p | p in ps)
    case Call(f, args) => {f} + FreeNamesAll(args)
    case Match(_, _, _) => {}
  }

  function FreeNamesAll(es: seq<Expr>): (names: set<string>)
    ensures forall i | 0 <= i < |es| :: FreeNames(es[i]) <= names
    decreases es
  {
    if es == [] then {} else FreeNames(es[0]) + FreeNamesAll(es[1..])
  }

  ghost predicate SameOn(names: set<string>, a: Scope, b: Scope) {
    forall x | x in names :: Refer(a, x) == Refer(b, x)
  }

  lemma {:induction false} BindAllRefer(a: Scope, b: Scope, names: seq<string>, level: nat, x: string)
    requires x in names || Refer(a, x) == Refer(b, x)
    ensures Refer(BindAll(a, names, level), x) == Refer(BindAll(b, names, level), x)
    decreases names
  {
    if names != [] {
      BindAllRefer(a[names[0] := level], b[names[0] := level], names[1..], level + 1, x);
    }
  }

  /** What a tree refers to depends only on what its free names refer to. */
  lemma {:induction false} ResolveDepends(e: Expr, a: Scope, b: Scope, depth: nat)
    requires SameOn(FreeNames(e), a, b)
    ensures Resolve(e, a, depth) == Resolve(e, b, depth)
    decreases e
  {
    match e
    case Lit(_) =>
    case Var(_) =>
    case Node(_, kids) => ResolveAllDepends(kids, a, b, depth);
    case Bind(_, x, i, body) =>
      ResolveDepends(i, a, b, depth);
      forall y | y in FreeNames(body) ensures Refer(a[x := depth], y) == Refer(b[x := depth], y) {
        assert y != x ==> y in FreeNames(e);
      }
      ResolveDepends(body, a[x := depth], b[x := depth], depth + 1);
    case Lambda(ps, body) =>
      forall x | x in FreeNames(body)
        ensures Refer(BindAll(a, ps, depth), x) == Refer(BindAll(b, ps, depth), x)
      {
        BindAllRefer(a, b, ps, depth, x);
      }
      ResolveDepends(body, BindAll(a, ps, depth), BindAll(b, ps, depth), depth + |ps|);
    case Call(_, args) => ResolveAllDepends(args, a, b, depth);
    case Match(_, _, _) =>
  }

  lemma {:induction false} ResolveAllDepends(es: seq<Expr>, a: Scope, b: Scope, depth: nat)
    requires SameOn(FreeNamesAll(es), a, b)
    ensures ResolveAll(es, a, depth) == ResolveAll(es, b, depth)
    decreases es
  {
    if es != [] {
      ResolveDepends(es[0], a, b, depth);
      ResolveAllDepends(es[1..], a, b, depth);
    }
  }
}
