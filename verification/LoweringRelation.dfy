/** The relation between running a program as written and running it lowered. */
module LoweringRelation {
  import opened Wrappers
  import opened Decimal
  import opened Scoping
  import opened LoweringTree
  import opened LoweringSemantics

  // ---------- names ----------

  /** Variables that occur free. */
  function Free(t: Tree): set<string>
    decreases t, 1
  {
    match t.kind
    case Variable(x) => {x} + FreeAll(t.kids)
    case Let(x) => if |t.kids| == 2 then Free(t.kids[0]) + (Free(t.kids[1]) - {x}) else FreeAll(t.kids)
    case For(x) => if |t.kids| == 2 then Free(t.kids[0]) + (Free(t.kids[1]) - {x}) else FreeAll(t.kids)
    case Lambda(params) => FreeAll(t.kids) - (set x | x in params)
    case Call(f, functorValue) => FreeAll(t.kids) + if functorValue then {f} else {}
    case _ => FreeAll(t.kids)
  }

  function FreeAll(ts: seq<Tree>): (names: set<string>)
    ensures forall i | 0 <= i < |ts| :: Free(ts[i]) <= names
    decreases ts, 0
  {
    if ts == [] then {} else Free(ts[0]) + FreeAll(ts[1..])
  }

  /** Variables that evaluation may assign. A function value assigns only its own copies. */
  function Assigned(t: Tree): set<string>
    decreases t, 1
  {
    match t.kind
    case Assignment =>
      AssignedAll(t.kids) + if |t.kids| == 2 && t.kids[0].kind.Variable? then {t.kids[0].kind.name} else {}
    case Let(x) =>
      if |t.kids| == 2 then Assigned(t.kids[0]) + (Assigned(t.kids[1]) - {x}) else AssignedAll(t.kids)
    case For(x) =>
      if |t.kids| == 2 then Assigned(t.kids[0]) + (Assigned(t.kids[1]) - {x}) else AssignedAll(t.kids)
    case Lambda(_) => {}
    case _ => AssignedAll(t.kids)
  }

  function AssignedAll(ts: seq<Tree>): (names: set<string>)
    ensures forall i | 0 <= i < |ts| :: Assigned(ts[i]) <= names
    decreases ts, 0
  {
    if ts == [] then {} else Assigned(ts[0]) + AssignedAll(ts[1..])
  }

  lemma {:induction false} AssignedFree(t: Tree)
    ensures Assigned(t) <= Free(t)
    decreases t, 1
  {
    AssignedAllFree(t.kids);
    if t.kind.Assignment? && |t.kids| == 2 && t.kids[0].kind.Variable? {
      assert t.kids[0].kind.name in Free(t.kids[0]);
    } else if (t.kind.Let? || t.kind.For?) && |t.kids| == 2 {
      AssignedFree(t.kids[0]);
      AssignedFree(t.kids[1]);
    }
  }

  lemma {:induction false} AssignedAllFree(ts: seq<Tree>)
    ensures AssignedAll(ts) <= FreeAll(ts)
    decreases ts, 0
  {
    if ts != [] {
      AssignedFree(ts[0]);
      AssignedAllFree(ts[1..]);
    }
  }

  /** Evaluation leaves every other variable alone. */
  lemma {:induction false} Untouched<W>(m: Machine<W>, t: Tree, env: Env, w: W, fuel: nat, y: string)
    requires Eval(m, t, env, w, fuel).Some? && y !in Assigned(t)
    ensures Get(Eval(m, t, env, w, fuel).value.env, y) == Get(env, y)
    decreases fuel, 1, t, 2
  {
    hide Operate, Apply, EvalFor, EvalAll, EvalStrict, Restore, Put;
    match t.kind
    case Let(_) => UntouchedLet(m, t, env, w, fuel, y);
    case If => UntouchedIf(m, t, env, w, fuel, y);
    case While => UntouchedWhile(m, t, env, w, fuel, y);
    case For(x) =>
      Untouched(m, t.kids[0], env, w, fuel, y);
      var it := Eval(m, t.kids[0], env, w, fuel).value;
      UntouchedFor(m, t, x, it.value, it.env, it.world, fuel, y);
    case Block => UntouchedAll(m, t.kids, env, w, fuel, y);
    case ExprStmt => Untouched(m, t.kids[0], env, w, fuel, y);
    case Assignment => Untouched(m, t.kids[1], env, w, fuel, y);
    case Call(_, functorValue) =>
      if functorValue {
        UntouchedAll(m, t.kids, env, w, fuel, y);
      } else {
        UntouchedStrict(m, t, env, w, fuel, y);
      }
    case Binary(_) | Unary(_) | MethodCall(_) | Member(_) | New(_) | VectorLiteral | Index =>
      UntouchedStrict(m, t, env, w, fuel, y);
    case Number(_) | Text(_) | Boolean(_) | Variable(_) | Lambda(_) =>
    case Return | Comprehension(_) | Program | FunctionDecl(_, _, _) | AttributeDecl(_) | TypeDecl(_) | ProtocolDecl(_) =>
      NoMeaning(m, t, env, w, fuel);
  }

  lemma NoMeaning<W>(m: Machine<W>, t: Tree, env: Env, w: W, fuel: nat)
    requires t.kind.Return? || t.kind.Comprehension? || t.kind.Program? || t.kind.FunctionDecl? || t.kind.AttributeDecl? ||
             t.kind.TypeDecl? || t.kind.ProtocolDecl?
    ensures Eval(m, t, env, w, fuel).None?
  {
  }

  lemma {:induction false} UntouchedStrict<W>(m: Machine<W>, t: Tree, env: Env, w: W, fuel: nat, y: string)
    requires EvalStrict(m, t, env, w, fuel).Some? && y !in AssignedAll(t.kids)
    ensures Get(EvalStrict(m, t, env, w, fuel).value.env, y) == Get(env, y)
    decreases fuel, 1, t, 1
  {
    hide Operate, EvalAll;
    UntouchedAll(m, t.kids, env, w, fuel, y);
  }

  lemma {:induction false} UntouchedLet<W>(m: Machine<W>, t: Tree, env: Env, w: W, fuel: nat, y: string)
    requires t.kind.Let? && Eval(m, t, env, w, fuel).Some? && y !in Assigned(t)
    ensures Get(Eval(m, t, env, w, fuel).value.env, y) == Get(env, y)
    decreases fuel, 1, t, 1
  {
    hide EvalStrict, EvalFor, EvalAll;
    var x := t.kind.name;
    Untouched(m, t.kids[0], env, w, fuel, y);
    var init := Eval(m, t.kids[0], env, w, fuel).value;
    if y != x {
      Untouched(m, t.kids[1], Put(init.env, x, init.value), init.world, fuel, y);
    }
  }

  lemma {:induction false} UntouchedIf<W>(m: Machine<W>, t: Tree, env: Env, w: W, fuel: nat, y: string)
    requires t.kind.If? && Eval(m, t, env, w, fuel).Some? && y !in Assigned(t)
    ensures Get(Eval(m, t, env, w, fuel).value.env, y) == Get(env, y)
    decreases fuel, 1, t, 1
  {
    Untouched(m, t.kids[0], env, w, fuel, y);
    var c := Eval(m, t.kids[0], env, w, fuel).value;
    if c.value == Bool(true) {
      Untouched(m, t.kids[1], c.env, c.world, fuel, y);
    } else if |t.kids| == 3 {
      Untouched(m, t.kids[2], c.env, c.world, fuel, y);
    }
  }

  lemma {:induction false} UntouchedWhile<W>(m: Machine<W>, t: Tree, env: Env, w: W, fuel: nat, y: string)
    requires t.kind.While? && Eval(m, t, env, w, fuel).Some? && y !in Assigned(t)
    ensures Get(Eval(m, t, env, w, fuel).value.env, y) == Get(env, y)
    decreases fuel, 1, t, 1
  {
    Untouched(m, t.kids[0], env, w, fuel, y);
    var c := Eval(m, t.kids[0], env, w, fuel).value;
    if c.value == Bool(true) {
      Untouched(m, t.kids[1], c.env, c.world, fuel, y);
      var b := Eval(m, t.kids[1], c.env, c.world, fuel).value;
      Untouched(m, t, b.env, b.world, fuel - 1, y);
    }
  }

  /** One round of a for-loop: whether there is an element, the element, and the world after asking. */
  lemma RoundOf<W>(m: Machine<W>, t: Tree, x: string, it: Value, env: Env, w: W, fuel: nat)
    returns (goes: bool, v: Value, w1: W, w2: W)
    requires |t.kids| == 2 && EvalFor(m, t, x, it, env, w, fuel).Some?
    ensures fuel > 0 && Operate(m, MethodCall("next"), [it], w, fuel) == Some((Bool(goes), w1))
    ensures !goes ==> EvalFor(m, t, x, it, env, w, fuel) == Some(Outcome(Unit, env, w1))
    ensures goes ==> Operate(m, MethodCall("current"), [it], w1, fuel) == Some((v, w2))
    ensures goes ==> Eval(m, t.kids[1], Put(env, x, v), w2, fuel).Some?
    ensures goes ==> var body := Eval(m, t.kids[1], Put(env, x, v), w2, fuel).value;
                     EvalFor(m, t, x, it, env, w, fuel) ==
                     EvalFor(m, t, x, it, Restore(body.env, x, Get(env, x)), body.world, fuel - 1)
  {
    hide Eval, Operate, Get, Put, Restore;
    var more := Operate(m, MethodCall("next"), [it], w, fuel).value;
    goes, w1 := more.0 == Bool(true), more.1;
    v, w2 := Unit, w1;
    if goes {
      var current := Operate(m, MethodCall("current"), [it], w1, fuel).value;
      v, w2 := current.0, current.1;
    }
  }

  lemma {:induction false} UntouchedFor<W>(m: Machine<W>, t: Tree, x: string, it: Value, env: Env, w: W, fuel: nat,
                                           y: string)
    requires t.kind == For(x) && |t.kids| == 2 && EvalFor(m, t, x, it, env, w, fuel).Some?
    requires y !in Assigned(t.kids[1]) - {x}
    ensures Get(EvalFor(m, t, x, it, env, w, fuel).value.env, y) == Get(env, y)
    decreases fuel, 1, t, 1
  {
    hide Eval, Operate, EvalFor, Assigned, Get, Put, Restore;
    var goes, v, w1, w2 := RoundOf(m, t, x, it, env, w, fuel);
    if goes {
      var body := Eval(m, t.kids[1], Put(env, x, v), w2, fuel).value;
      if y != x {
        Untouched(m, t.kids[1], Put(env, x, v), w2, fuel, y);
      }
      UntouchedFor(m, t, x, it, Restore(body.env, x, Get(env, x)), body.world, fuel - 1, y);
    }
  }

  lemma {:induction false} UntouchedAll<W>(m: Machine<W>, ts: seq<Tree>, env: Env, w: W, fuel: nat, y: string)
    requires EvalAll(m, ts, env, w, fuel).Some? && y !in AssignedAll(ts)
    ensures Get(EvalAll(m, ts, env, w, fuel).value.env, y) == Get(env, y)
    decreases fuel, 1, ts, 0
  {
    if ts != [] {
      Untouched(m, ts[0], env, w, fuel, y);
      var first := Eval(m, ts[0], env, w, fuel).value;
      UntouchedAll(m, ts[1..], first.env, first.world, fuel, y);
    }
  }

  lemma AssignedTwo(a: Tree, b: Tree)
    ensures AssignedAll([a, b]) == Assigned(a) + Assigned(b)
  {
    assert [a, b][1..] == [b];
    assert AssignedAll([b]) == Assigned(b) + AssignedAll([]);
  }

  lemma {:induction false} AssignedNone(names: seq<string>)
    ensures AssignedAll(seq(|names|, i requires 0 <= i < |names| => Tree(Variable(names[i]), []))) == {}
    decreases names
  {
    var ts := seq(|names|, i requires 0 <= i < |names| => Tree(Variable(names[i]), []));
    if names != [] {
      AssignedNone(names[1..]);
      assert ts[1..] == seq(|names[1..]|, i requires 0 <= i < |names[1..]| => Tree(Variable(names[1..][i]), []));
      assert Assigned(ts[0]) == AssignedAll([]);
    }
  }

  lemma RewriteAssigns(order: set<string> -> seq<string>, kind: Kind, kids: seq<Tree>, scopes: ScopeStack,
                       generated: seq<Delegate>, id: nat)
    ensures Assigned(Rewrite(order, kind, kids, scopes, generated, id).tree) <= Assigned(Tree(kind, kids))
  {
    match kind
    case Binary(op) =>
      if |kids| == 2 {
        RewriteBinaryAssigns(op, kids[0], kids[1]);
        assert kids == [kids[0], kids[1]];
      }
    case Call(f, functorValue) =>
      if functorValue {
        var all := [Tree(Variable(f), [])] + kids;
        assert all[1..] == kids;
        assert Assigned(all[0]) == AssignedAll([]);
        assert AssignedAll(all) == AssignedAll(kids);
      }
    case For(x) =>
      if |kids| == 2 {
        ForLoopAssigns(x, kids[0], kids[1]);
      }
    case Lambda(_) =>
      if |kids| == 1 {
        AssignedNone(Visible(order, scopes, {}));
      }
    case _ =>
  }

  lemma RewriteBinaryAssigns(op: string, left: Tree, right: Tree)
    ensures Assigned(RewriteBinary(op, left, right)) == Assigned(left) + Assigned(right)
  {
    AssignedTwo(left, right);
    var blank := Tree(Text(" "), []);
    var inner := Tree(Binary("@"), [left, blank]);
    AssignedTwo(left, blank);
    AssignedTwo(inner, right);
    assert Assigned(blank) == AssignedAll([]);
    var equals := Tree(Binary("=="), [left, right]);
    assert [equals][1..] == [];
    assert AssignedAll([equals]) == Assigned(equals) + AssignedAll([]);
  }

  lemma ForLoopAssigns(x: string, iter: Tree, body: Tree)
    ensures Assigned(ForLoop(x, iter, body)) <= Assigned(iter) + (Assigned(body) - {x})
  {
    var it := Tree(Variable("iterable"), []);
    assert Assigned(it) == AssignedAll([]);
    assert [it][1..] == [];
    assert AssignedAll([it]) == {};
    var next, current := Tree(MethodCall("next"), [it]), Tree(MethodCall("current"), [it]);
    var bind := Tree(Let(x), [current, body]);
    var block := Tree(Block, [bind]);
    assert Assigned(current) == AssignedAll([it]) && Assigned(next) == AssignedAll([it]);
    assert [bind][1..] == [];
    assert AssignedAll([bind]) == Assigned(bind) + AssignedAll([]);
    AssignedTwo(next, block);
    var loop := Tree(While, [next, block]);
    assert Assigned(loop) == AssignedAll([next, block]);
  }

  /** Lowering makes no new assignments. */
  lemma {:induction false} LowerAssigns(order: set<string> -> seq<string>, t: Tree, scopes: ScopeStack,
                                        generated: seq<Delegate>, id: nat)
    ensures Assigned(Lower(order, t, scopes, generated, id).tree) <= Assigned(t)
    decreases t, 1
  {
    hide Rewrite;
    LowerKidsAssign(order, t.kind, t.kids, 0, scopes, generated, id);
    var ks := LowerKids(order, t.kind, t.kids, 0, scopes, generated, id);
    RewriteAssigns(order, t.kind, ks.trees, scopes, ks.generated, ks.delegateId);
    if t.kind.Assignment? && |t.kids| == 2 && ks.trees[0].kind.Variable? {
      VariableStays(order, t.kids[0], KidScopes(t.kind, 0, scopes), generated, id);
    }
  }

  lemma VariableStays(order: set<string> -> seq<string>, t: Tree, scopes: ScopeStack, generated: seq<Delegate>, id: nat)
    ensures Lower(order, t, scopes, generated, id).tree.kind.Variable? ==>
              t.kind == Lower(order, t, scopes, generated, id).tree.kind
  {
  }

  lemma {:induction false} LowerKidsAssign(order: set<string> -> seq<string>, kind: Kind, kids: seq<Tree>, i: nat,
                                           scopes: ScopeStack, generated: seq<Delegate>, id: nat)
    ensures var r := LowerKids(order, kind, kids, i, scopes, generated, id).trees;
            && AssignedAll(r) <= AssignedAll(kids)
            && forall k | 0 <= k < |kids| :: Assigned(r[k]) <= Assigned(kids[k])
    decreases kids, 0
  {
    if kids != [] {
      LowerAssigns(order, kids[0], KidScopes(kind, i, scopes), generated, id);
      var first := Lower(order, kids[0], KidScopes(kind, i, scopes), generated, id);
      LowerKidsAssign(order, kind, kids[1..], i + 1, scopes, first.generated, first.delegateId);
    }
  }
}
