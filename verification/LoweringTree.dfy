/** Lowering on trees (lowering/lowering.cpp): what every visitor makes of a tree, as a function. */
module LoweringTree {
  import opened Wrappers
  import opened Decimal
  import opened Scoping

  datatype Kind =
    | Number(value: real) | Text(text: string) | Boolean(truth: bool)
    | Variable(name: string)
    | Binary(op: string) | Unary(op: string)
    | Let(name: string) | If | While | For(variable: string) | Block | ExprStmt | Return
    | Assignment
    | Call(callee: string, functorValue: bool)
    | MethodCall(selector: string)
    | Member(member: string) | New(typeName: string)
    | Lambda(params: seq<string>)
    | VectorLiteral | Comprehension(variable: string) | Index
    | Program | FunctionDecl(name: string, params: seq<string>, inlined: bool)
    | AttributeDecl(name: string) | TypeDecl(name: string) | ProtocolDecl(name: string)

  /** A tree; children are listed in the order in which the visitors descend into them. */
  datatype Tree = Tree(kind: Kind, kids: seq<Tree>)

  type ScopeStack = Scopes<string>

  /** A generated type: its constructor takes the captured variables and keeps each in an attribute of
      the same name; its one method `invoke` has the lambda's parameters and the given body. */
  datatype Delegate = Delegate(name: string, captured: seq<string>, params: seq<string>, body: Tree)

  datatype Lowered = Lowered(tree: Tree, generated: seq<Delegate>, delegateId: nat)

  datatype LoweredAll = LoweredAll(trees: seq<Tree>, generated: seq<Delegate>, delegateId: nat)

  function Declare(scopes: ScopeStack, names: seq<string>): ScopeStack
    decreases names
  {
    if names == [] then scopes else Declare(Saved(scopes, names[0], None), names[1..])
  }

  /** The scopes in which child `i` is visited. */
  function KidScopes(kind: Kind, i: nat, scopes: ScopeStack): ScopeStack {
    match kind
    case Let(x) => if i == 1 then Declare(scopes + [map[]], [x]) else scopes
    case If => if i >= 1 then scopes + [map[]] else scopes
    case While => if i == 1 then scopes + [map[]] else scopes
    case For(_) => if i == 1 then scopes + [map[]] else scopes
    case Block => scopes + [map[]]
    case FunctionDecl(_, params, _) => Declare(scopes + [map[]], params)
    case _ => scopes
  }

  function DelegateName(id: nat): string {
    "Delegate_" + ToText(id)
  }

  /** `let x = self.x in ...` for every captured variable, the first outermost. */
  function Wrapped(captured: seq<string>, body: Tree): Tree {
    if captured == [] then body
    else Tree(Let(captured[0]),
              [Tree(Member(captured[0]), [Tree(Variable("self"), [])]), Wrapped(captured[1..], body)])
  }

  /** What replaces a node whose children have been lowered. */
  function Rewrite(order: set<string> -> seq<string>, kind: Kind, kids: seq<Tree>, scopes: ScopeStack,
                   generated: seq<Delegate>, id: nat): Lowered
  {
    match kind
    case Binary(op) =>
      Lowered(if |kids| == 2 then RewriteBinary(op, kids[0], kids[1]) else Tree(kind, kids), generated, id)
    case Call(f, functorValue) =>
      Lowered(if functorValue then Tree(MethodCall("invoke"), [Tree(Variable(f), [])] + kids) else Tree(kind, kids),
              generated, id)
    case For(x) =>
      Lowered(if |kids| == 2 then ForLoop(x, kids[0], kids[1]) else Tree(kind, kids), generated, id)
    case FunctionDecl(name, params, _) => Lowered(Tree(FunctionDecl(name, params, true), kids), generated, id)
    case Lambda(params) =>
      if |kids| == 1 then
        var captured := Visible(order, scopes, {});
        var name := DelegateName(id + 1);
        Lowered(Tree(New(name), seq(|captured|, i requires 0 <= i < |captured| => Tree(Variable(captured[i]), []))),
                generated + [Delegate(name, captured, params, Wrapped(captured, kids[0]))], id + 1)
      else Lowered(Tree(kind, kids), generated, id)
    case _ => Lowered(Tree(kind, kids), generated, id)
  }

  function RewriteBinary(op: string, left: Tree, right: Tree): Tree {
    if op == "^" then Tree(Call("pow", false), [left, right])
    else if op == "%" then Tree(Call("mod", false), [left, right])
    else if op == "!=" then Tree(Unary("!"), [Tree(Binary("=="), [left, right])])
    else if op == "@@" then
      Tree(Binary("@"), [Tree(Binary("@"), [left, Tree(Text(" "), [])]), right])
    else Tree(Binary(op), [left, right])
  }

  /** `let iterable = iter in while (iterable.next()) { let x = iterable.current() in body }` */
  function ForLoop(x: string, iter: Tree, body: Tree): Tree {
    var it := Tree(Variable("iterable"), []);
    Tree(Let("iterable"), [iter,
      Tree(While, [Tree(MethodCall("next"), [it]),
        Tree(Block, [Tree(Let(x), [Tree(MethodCall("current"), [it]), body])])])])
  }

  function Lower(order: set<string> -> seq<string>, t: Tree, scopes: ScopeStack, generated: seq<Delegate>, id: nat)
    : Lowered
    decreases t, 1
  {
    var ks := LowerKids(order, t.kind, t.kids, 0, scopes, generated, id);
    Rewrite(order, t.kind, ks.trees, scopes, ks.generated, ks.delegateId)
  }

  /** The children from number `i` on. */
  function LowerKids(order: set<string> -> seq<string>, kind: Kind, kids: seq<Tree>, i: nat, scopes: ScopeStack,
                     generated: seq<Delegate>, id: nat): (r: LoweredAll)
    ensures |r.trees| == |kids|
    decreases kids, 0
  {
    if kids == [] then LoweredAll([], generated, id)
    else
      var first := Lower(order, kids[0], KidScopes(kind, i, scopes), generated, id);
      var rest := LowerKids(order, kind, kids[1..], i + 1, scopes, first.generated, first.delegateId);
      LoweredAll([first.tree] + rest.trees, rest.generated, rest.delegateId)
  }

  // ---------- few children ----------

  lemma KidsOne(order: set<string> -> seq<string>, kind: Kind, kids: seq<Tree>, scopes: ScopeStack,
                generated: seq<Delegate>, id: nat)
    requires |kids| == 1
    ensures var a := Lower(order, kids[0], KidScopes(kind, 0, scopes), generated, id);
            LowerKids(order, kind, kids, 0, scopes, generated, id) == LoweredAll([a.tree], a.generated, a.delegateId)
  {
    hide KidScopes, Lower;
  }

  lemma KidsTwo(order: set<string> -> seq<string>, kind: Kind, kids: seq<Tree>, scopes: ScopeStack,
                generated: seq<Delegate>, id: nat)
    requires |kids| == 2
    ensures var a := Lower(order, kids[0], KidScopes(kind, 0, scopes), generated, id);
            var b := Lower(order, kids[1], KidScopes(kind, 1, scopes), a.generated, a.delegateId);
            LowerKids(order, kind, kids, 0, scopes, generated, id) ==
            LoweredAll([a.tree, b.tree], b.generated, b.delegateId)
  {
    hide KidScopes, Lower;
    var a := Lower(order, kids[0], KidScopes(kind, 0, scopes), generated, id);
    var b := Lower(order, kids[1], KidScopes(kind, 1, scopes), a.generated, a.delegateId);
    assert kids[1..] == [kids[1]] && kids[1..][1..] == [];
    assert LowerKids(order, kind, kids[1..], 1, scopes, a.generated, a.delegateId) ==
           LoweredAll([b.tree], b.generated, b.delegateId);
  }

  lemma KidsThree(order: set<string> -> seq<string>, kind: Kind, kids: seq<Tree>, scopes: ScopeStack,
                  generated: seq<Delegate>, id: nat)
    requires |kids| == 3
    ensures var a := Lower(order, kids[0], KidScopes(kind, 0, scopes), generated, id);
            var b := Lower(order, kids[1], KidScopes(kind, 1, scopes), a.generated, a.delegateId);
            var c := Lower(order, kids[2], KidScopes(kind, 2, scopes), b.generated, b.delegateId);
            LowerKids(order, kind, kids, 0, scopes, generated, id) ==
            LoweredAll([a.tree, b.tree, c.tree], c.generated, c.delegateId)
  {
    hide KidScopes, Lower;
    var a := Lower(order, kids[0], KidScopes(kind, 0, scopes), generated, id);
    var b := Lower(order, kids[1], KidScopes(kind, 1, scopes), a.generated, a.delegateId);
    var c := Lower(order, kids[2], KidScopes(kind, 2, scopes), b.generated, b.delegateId);
    assert kids[1..][1..] == [kids[2]];
    assert LowerKids(order, kind, [kids[2]], 2, scopes, b.generated, b.delegateId) ==
           LoweredAll([c.tree], c.generated, c.delegateId);
    assert LowerKids(order, kind, kids[1..], 1, scopes, a.generated, a.delegateId) ==
           LoweredAll([b.tree, c.tree], c.generated, c.delegateId);
  }

  // ---------- normal form ----------

  predicate NormalKind(kind: Kind) {
    match kind
    case Binary(op) => op != "^" && op != "%" && op != "!=" && op != "@@"
    case For(_) => false
    case Lambda(_) => false
    case Call(_, functorValue) => !functorValue
    case FunctionDecl(_, _, inlined) => inlined
    case _ => true
  }

  /** No for-loop, lambda, call of a function value or operator with a lowered form is left. */
  predicate Normal(t: Tree)
    decreases t
  {
    NormalKind(t.kind) && forall i | 0 <= i < |t.kids| :: Normal(t.kids[i])
  }

  predicate NormalAll(ts: seq<Tree>) {
    forall i | 0 <= i < |ts| :: Normal(ts[i])
  }

  predicate NormalTypes(ds: seq<Delegate>) {
    forall i | 0 <= i < |ds| :: Normal(ds[i].body)
  }

  /** Each node has the children its kind has. */
  predicate Shaped(t: Tree)
    decreases t
  {
    && (match t.kind
        case Binary(_) => |t.kids| == 2
        case Let(_) => |t.kids| == 2
        case If => |t.kids| == 2 || |t.kids| == 3
        case While => |t.kids| == 2
        case For(_) => |t.kids| == 2
        case Lambda(_) => |t.kids| == 1
        case _ => true)
    && forall i | 0 <= i < |t.kids| :: Shaped(t.kids[i])
  }

  lemma {:induction false} WrappedNormal(captured: seq<string>, body: Tree)
    requires Normal(body)
    ensures Normal(Wrapped(captured, body))
    decreases captured
  {
    if captured != [] {
      WrappedNormal(captured[1..], body);
      assert Normal(Tree(Variable("self"), []));
      assert Normal(Tree(Member(captured[0]), [Tree(Variable("self"), [])]));
    }
  }

  lemma RewriteBinaryNormal(op: string, left: Tree, right: Tree)
    requires Normal(left) && Normal(right)
    ensures Normal(RewriteBinary(op, left, right))
  {
    if op == "@@" {
      assert Normal(Tree(Text(" "), []));
      BinaryNormal("@", left, Tree(Text(" "), []));
      BinaryNormal("@", Tree(Binary("@"), [left, Tree(Text(" "), [])]), right);
    } else if op == "!=" {
      BinaryNormal("==", left, right);
    } else if op != "^" && op != "%" {
      BinaryNormal(op, left, right);
    }
  }

  lemma BinaryNormal(op: string, left: Tree, right: Tree)
    requires Normal(left) && Normal(right) && NormalKind(Binary(op))
    ensures Normal(Tree(Binary(op), [left, right]))
  {
  }

  lemma ForLoopNormal(x: string, iter: Tree, body: Tree)
    requires Normal(iter) && Normal(body)
    ensures Normal(ForLoop(x, iter, body))
  {
    var it := Tree(Variable("iterable"), []);
    assert Normal(it);
    var next, current := Tree(MethodCall("next"), [it]), Tree(MethodCall("current"), [it]);
    assert Normal(next) && Normal(current);
    var bind := Tree(Let(x), [current, body]);
    assert Normal(bind);
    var block := Tree(Block, [bind]);
    assert Normal(block);
    assert Normal(Tree(While, [next, block]));
  }

  lemma RewriteNormal(order: set<string> -> seq<string>, kind: Kind, kids: seq<Tree>, scopes: ScopeStack,
                      generated: seq<Delegate>, id: nat)
    requires NormalAll(kids) && NormalTypes(generated)
    requires match kind
             case Binary(_) => |kids| == 2
             case For(_) => |kids| == 2
             case Lambda(_) => |kids| == 1
             case _ => true
    ensures var r := Rewrite(order, kind, kids, scopes, generated, id);
            Normal(r.tree) && NormalTypes(r.generated)
  {
    hide RewriteBinary, ForLoop, Wrapped, Visible, DelegateName;
    match kind
    case Binary(op) => RewriteBinaryNormal(op, kids[0], kids[1]);
    case Call(f, functorValue) =>
      assert Normal(Tree(Variable(f), []));
      var all := [Tree(Variable(f), [])] + kids;
      assert NormalAll(all);
    case For(x) => ForLoopNormal(x, kids[0], kids[1]);
    case Lambda(_) =>
      WrappedNormal(Visible(order, scopes, {}), kids[0]);
      assert forall x :: Normal(Tree(Variable(x), []));
    case _ =>
  }

  /** Lowering leaves nothing to lower, in the tree and in the types it generates. */
  lemma {:induction false} LowerNormal(order: set<string> -> seq<string>, t: Tree, scopes: ScopeStack,
                                       generated: seq<Delegate>, id: nat)
    requires Shaped(t) && NormalTypes(generated)
    ensures var r := Lower(order, t, scopes, generated, id);
            Normal(r.tree) && NormalTypes(r.generated)
    decreases t, 1
  {
    hide Rewrite, Normal;
    LowerKidsNormal(order, t.kind, t.kids, 0, scopes, generated, id);
    var ks := LowerKids(order, t.kind, t.kids, 0, scopes, generated, id);
    RewriteNormal(order, t.kind, ks.trees, scopes, ks.generated, ks.delegateId);
  }

  lemma {:induction false} LowerKidsNormal(order: set<string> -> seq<string>, kind: Kind, kids: seq<Tree>, i: nat,
                                           scopes: ScopeStack, generated: seq<Delegate>, id: nat)
    requires (forall k | 0 <= k < |kids| :: Shaped(kids[k])) && NormalTypes(generated)
    ensures var r := LowerKids(order, kind, kids, i, scopes, generated, id);
            NormalAll(r.trees) && NormalTypes(r.generated)
    decreases kids, 0
  {
    hide KidScopes, Normal;
    if kids != [] {
      LowerNormal(order, kids[0], KidScopes(kind, i, scopes), generated, id);
      var first := Lower(order, kids[0], KidScopes(kind, i, scopes), generated, id);
      LowerKidsNormal(order, kind, kids[1..], i + 1, scopes, first.generated, first.delegateId);
    }
  }

  // ---------- what stays as it is ----------

  /** The kind of a node that lowering does not replace: what it was, and a function is marked `inlined`. */
  function KeptKind(kind: Kind): Kind {
    if kind.FunctionDecl? then FunctionDecl(kind.name, kind.params, true) else kind
  }

  /** From the root of `t` down to the nodes that lowering replaces, `u` has the same nodes. A
      declaration keeps its name and its parameters, with a body and without one. */
  predicate SameOutside(t: Tree, u: Tree)
    decreases t
  {
    NormalKind(KeptKind(t.kind)) ==>
      && u.kind == KeptKind(t.kind) && |u.kids| == |t.kids|
      && forall i | 0 <= i < |t.kids| :: SameOutside(t.kids[i], u.kids[i])
  }

  /** Lowering changes no other node than for-loops, lambdas, calls of function values and the operators
      with a lowered form. */
  lemma {:induction false} LowerKeeps(order: set<string> -> seq<string>, t: Tree, scopes: ScopeStack,
                                      generated: seq<Delegate>, id: nat)
    ensures SameOutside(t, Lower(order, t, scopes, generated, id).tree)
    decreases t, 1
  {
    hide KidScopes;
    LowerKidsKeep(order, t.kind, t.kids, 0, scopes, generated, id);
    var ks := LowerKids(order, t.kind, t.kids, 0, scopes, generated, id);
    if NormalKind(KeptKind(t.kind)) {
      RewriteKeeps(order, t.kind, ks.trees, scopes, ks.generated, ks.delegateId);
    }
  }

  lemma RewriteKeeps(order: set<string> -> seq<string>, kind: Kind, kids: seq<Tree>, scopes: ScopeStack,
                     generated: seq<Delegate>, id: nat)
    requires NormalKind(KeptKind(kind))
    ensures Rewrite(order, kind, kids, scopes, generated, id) == Lowered(Tree(KeptKind(kind), kids), generated, id)
  {
    if |kids| == 2 {
      assert kids == [kids[0], kids[1]];
    }
  }

  lemma {:induction false} LowerKidsKeep(order: set<string> -> seq<string>, kind: Kind, kids: seq<Tree>, i: nat,
                                         scopes: ScopeStack, generated: seq<Delegate>, id: nat)
    ensures var r := LowerKids(order, kind, kids, i, scopes, generated, id);
            forall k | 0 <= k < |kids| :: SameOutside(kids[k], r.trees[k])
    decreases kids, 0
  {
    hide KidScopes, SameOutside;
    if kids != [] {
      LowerKeeps(order, kids[0], KidScopes(kind, i, scopes), generated, id);
      var first := Lower(order, kids[0], KidScopes(kind, i, scopes), generated, id);
      LowerKidsKeep(order, kind, kids[1..], i + 1, scopes, first.generated, first.delegateId);
    }
  }
}
