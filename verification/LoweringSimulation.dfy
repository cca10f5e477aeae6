/** The forward simulation between programs as written and lowered programs. */
module LoweringSimulation {
  import opened Wrappers
  import opened Scoping
  import opened LoweringTree
  import opened LoweringSemantics
  import opened LoweringRelation
  import opened LoweringCorrectness

  /** A machine, its lowered counterpart, and the order in which the scope table lists variables. */
  datatype Setting<!W> = Setting(order: set<string> -> seq<string>, m: Machine<W>, n: Machine<W>)

  ghost predicate Good<W>(s: Setting<W>) {
    MachinesRelated(s.order, s.m, s.n)
  }

  function Down<W>(s: Setting<W>, t: Tree, scopes: ScopeStack, generated: seq<Delegate>, id: nat): Lowered {
    Lower(s.order, t, scopes, generated, id)
  }

  ghost predicate Envs<W>(s: Setting<W>, names: set<string>, env: Env, env': Env) {
    EnvRelated(s.order, s.n.delegates, names, env, env')
  }

  ghost predicate Same<W>(s: Setting<W>, v: Value, v': Value) {
    Related(s.order, s.n.delegates, v, v')
  }

  ghost predicate SameAll<W>(s: Setting<W>, vs: seq<Value>, vs': seq<Value>) {
    AllRelated(s.order, s.n.delegates, vs, vs')
  }

  /** A tree and its environments before evaluation. */
  ghost predicate Ready<W>(s: Setting<W>, t: Tree, scopes: ScopeStack, generated: seq<Delegate>, id: nat, env: Env,
                           env': Env, names: set<string>)
  {
    && Good(s) && Supported(t, scopes) && Free(t) <= names && Envs(s, names, env, env') && Bound(scopes, env')
    && AllFound(s.n.delegates, Down(s, t, scopes, generated, id).generated)
  }

  /** The outcomes after evaluation. */
  ghost predicate Matches<W>(s: Setting<W>, scopes: ScopeStack, names: set<string>, o: Outcome<W>,
                             r: Option<Outcome<W>>)
  {
    && r.Some? && Same(s, o.value, r.value.value) && r.value.world == o.world
    && Envs(s, names, o.env, r.value.env) && Bound(scopes, r.value.env)
  }

  /** Children of one node that are evaluated one after the other. */
  ghost predicate ReadyAll<W>(s: Setting<W>, kind: Kind, ts: seq<Tree>, i: nat, scopes: ScopeStack,
                              generated: seq<Delegate>, id: nat, env: Env, env': Env, names: set<string>)
  {
    && Good(s) && !kind.Let? && !kind.FunctionDecl?
    && (forall k | 0 <= k < |ts| :: Supported(ts[k], KidScopes(kind, i + k, scopes)))
    && FreeAll(ts) <= names && Envs(s, names, env, env') && Bound(scopes, env')
    && AllFound(s.n.delegates, LowerKids(s.order, kind, ts, i, scopes, generated, id).generated)
  }

  ghost predicate MatchesAll<W>(s: Setting<W>, scopes: ScopeStack, names: set<string>, o: Outcomes<W>,
                                r: Option<Outcomes<W>>)
  {
    && r.Some? && SameAll(s, o.values, r.value.values) && r.value.world == o.world
    && Envs(s, names, o.env, r.value.env) && Bound(scopes, r.value.env)
  }

  // ---------- unfolding ----------

  lemma GrowsTwo(order: set<string> -> seq<string>, kind: Kind, kids: seq<Tree>, scopes: ScopeStack,
                 generated: seq<Delegate>, id: nat)
    requires |kids| == 2
    ensures var a := Lower(order, kids[0], KidScopes(kind, 0, scopes), generated, id);
            var b := Lower(order, kids[1], KidScopes(kind, 1, scopes), a.generated, a.delegateId);
            && LowerKids(order, kind, kids, 0, scopes, generated, id) ==
               LoweredAll([a.tree, b.tree], b.generated, b.delegateId)
            && a.generated <= b.generated
  {
    hide KidScopes, Lower, LowerKids;
    KidsTwo(order, kind, kids, scopes, generated, id);
    var a := Lower(order, kids[0], KidScopes(kind, 0, scopes), generated, id);
    LowerGrows(order, kids[1], KidScopes(kind, 1, scopes), a.generated, a.delegateId);
  }

  lemma GrowsThree(order: set<string> -> seq<string>, kind: Kind, kids: seq<Tree>, scopes: ScopeStack,
                   generated: seq<Delegate>, id: nat)
    requires |kids| == 3
    ensures var a := Lower(order, kids[0], KidScopes(kind, 0, scopes), generated, id);
            var b := Lower(order, kids[1], KidScopes(kind, 1, scopes), a.generated, a.delegateId);
            var c := Lower(order, kids[2], KidScopes(kind, 2, scopes), b.generated, b.delegateId);
            && LowerKids(order, kind, kids, 0, scopes, generated, id) ==
               LoweredAll([a.tree, b.tree, c.tree], c.generated, c.delegateId)
            && a.generated <= b.generated <= c.generated
  {
    hide KidScopes, Lower, LowerKids;
    KidsThree(order, kind, kids, scopes, generated, id);
    var a := Lower(order, kids[0], KidScopes(kind, 0, scopes), generated, id);
    var b := Lower(order, kids[1], KidScopes(kind, 1, scopes), a.generated, a.delegateId);
    LowerGrows(order, kids[1], KidScopes(kind, 1, scopes), a.generated, a.delegateId);
    LowerGrows(order, kids[2], KidScopes(kind, 2, scopes), b.generated, b.delegateId);
  }

  lemma BoundSame(a: ScopeStack, b: ScopeStack, env: Env)
    requires Bound(a, env) && Tracked(a) == Tracked(b)
    ensures Bound(b, env)
  {
  }

  // ---------- the simulation ----------

  /** Whenever the program as written yields an outcome, the lowered program yields a matching one. */
  lemma {:induction false} Simulates<W>(s: Setting<W>, t: Tree, scopes: ScopeStack, generated: seq<Delegate>, id: nat,
                                        env: Env, env': Env, names: set<string>, w: W, fuel: nat)
    requires Ready(s, t, scopes, generated, id, env, env', names) && Eval(s.m, t, env, w, fuel).Some?
    ensures Matches(s, scopes, names, Eval(s.m, t, env, w, fuel).value,
                    Eval(s.n, Down(s, t, scopes, generated, id).tree, env', w, fuel))
    decreases fuel, 1, t, 4
  {
    hide Good, Supported, Bound, Operate, Apply, EvalAll, LowerKids, KidScopes, Eval, Free;
    match t.kind
    case Number(_) | Text(_) | Boolean(_) => SimLiteral(s, t, scopes, generated, id, env, env', names, w, fuel);
    case Variable(_) => SimVariable(s, t, scopes, generated, id, env, env', names, w, fuel);
    case Lambda(_) => SimLambda(s, t, scopes, generated, id, env, env', names, w, fuel);
    case Let(_) => SimLet(s, t, scopes, generated, id, env, env', names, w, fuel);
    case If => SimIf(s, t, scopes, generated, id, env, env', names, w, fuel);
    case While => SimWhile(s, t, scopes, generated, id, env, env', names, w, fuel);
    case For(_) => SimFor(s, t, scopes, generated, id, env, env', names, w, fuel);
    case Block => SimBlock(s, t, scopes, generated, id, env, env', names, w, fuel);
    case ExprStmt => SimExprStmt(s, t, scopes, generated, id, env, env', names, w, fuel);
    case Assignment => SimAssignment(s, t, scopes, generated, id, env, env', names, w, fuel);
    case Call(_, functorValue) =>
      if functorValue {
        SimFunctorCall(s, t, scopes, generated, id, env, env', names, w, fuel);
      } else {
        SimStrict(s, t, scopes, generated, id, env, env', names, w, fuel);
      }
    case Binary(_) => SimBinary(s, t, scopes, generated, id, env, env', names, w, fuel);
    case Unary(_) | MethodCall(_) | Member(_) | New(_) | VectorLiteral | Index =>
      SimStrict(s, t, scopes, generated, id, env, env', names, w, fuel);
    case Return | Comprehension(_) | Program | FunctionDecl(_, _, _) | AttributeDecl(_) | TypeDecl(_) | ProtocolDecl(_) =>
      NoMeaning(s.m, t, env, w, fuel);
  }

  lemma SimLiteral<W>(s: Setting<W>, t: Tree, scopes: ScopeStack, generated: seq<Delegate>, id: nat, env: Env,
                      env': Env, names: set<string>, w: W, fuel: nat)
    requires t.kind.Number? || t.kind.Text? || t.kind.Boolean?
    requires Ready(s, t, scopes, generated, id, env, env', names) && Eval(s.m, t, env, w, fuel).Some?
    ensures Matches(s, scopes, names, Eval(s.m, t, env, w, fuel).value,
                    Eval(s.n, Down(s, t, scopes, generated, id).tree, env', w, fuel))
  {
    hide Good, Supported, Bound, LowerKids, KidScopes, Free, EnvRelated;
    assert Down(s, t, scopes, generated, id).tree.kind == t.kind;
  }

  lemma SimVariable<W>(s: Setting<W>, t: Tree, scopes: ScopeStack, generated: seq<Delegate>, id: nat, env: Env,
                       env': Env, names: set<string>, w: W, fuel: nat)
    requires t.kind.Variable?
    requires Ready(s, t, scopes, generated, id, env, env', names) && Eval(s.m, t, env, w, fuel).Some?
    ensures Matches(s, scopes, names, Eval(s.m, t, env, w, fuel).value,
                    Eval(s.n, Down(s, t, scopes, generated, id).tree, env', w, fuel))
  {
    hide Good, Supported, Bound, LowerKids, KidScopes, Related;
    assert Down(s, t, scopes, generated, id).tree.kind == t.kind;
    assert t.kind.name in names;
  }

  lemma {:induction false} SimLet<W>(s: Setting<W>, t: Tree, scopes: ScopeStack, generated: seq<Delegate>, id: nat,
                                     env: Env, env': Env, names: set<string>, w: W, fuel: nat)
    requires t.kind.Let?
    requires Ready(s, t, scopes, generated, id, env, env', names) && Eval(s.m, t, env, w, fuel).Some?
    ensures Matches(s, scopes, names, Eval(s.m, t, env, w, fuel).value,
                    Eval(s.n, Down(s, t, scopes, generated, id).tree, env', w, fuel))
    decreases fuel, 1, t, 2
  {
    hide Good, LowerKids, KidScopes, Related, EnvRelated, AllFound, EvalStrict;
    var x := t.kind.name;
    GrowsTwo(s.order, t.kind, t.kids, scopes, generated, id);
    var inner := KidScopes(t.kind, 1, scopes);
    assert KidScopes(t.kind, 0, scopes) == scopes by {
      ScopesOfFirst(t.kind, scopes);
    }
    var a := Down(s, t.kids[0], scopes, generated, id);
    var b := Down(s, t.kids[1], inner, a.generated, a.delegateId);
    assert Down(s, t, scopes, generated, id) == Lowered(Tree(t.kind, [a.tree, b.tree]), b.generated, b.delegateId);
    FoundBefore(s.n.delegates, a.generated, b.generated);
    KidTracks(t.kind, 1, scopes);
    Simulates(s, t.kids[0], scopes, generated, id, env, env', names, w, fuel);
    var i := Eval(s.m, t.kids[0], env, w, fuel).value;
    var i' := Eval(s.n, a.tree, env', w, fuel).value;
    EnvNarrow(s, names, i.env, i'.env, x);
    EnvPut(s.order, s.n.delegates, names, i.env, i'.env, x, i.value, i'.value);
    Simulates(s, t.kids[1], inner, a.generated, a.delegateId, Put(i.env, x, i.value), Put(i'.env, x, i'.value),
              names + {x}, i.world, fuel);
    var o := Eval(s.m, t.kids[1], Put(i.env, x, i.value), i.world, fuel).value;
    var o' := Eval(s.n, b.tree, Put(i'.env, x, i'.value), i'.world, fuel).value;
    EnvRestore(s.order, s.n.delegates, names, i.env, i'.env, o.env, o'.env, x);
  }

  lemma ScopesOfFirst(kind: Kind, scopes: ScopeStack)
    ensures kind.Let? || kind.If? || kind.While? || kind.For? || kind.Assignment? || kind.ExprStmt? || kind.Lambda? ==>
              KidScopes(kind, 0, scopes) == scopes
  {
  }

  lemma EnvNarrow<W>(s: Setting<W>, names: set<string>, env: Env, env': Env, x: string)
    requires Envs(s, names, env, env')
    ensures Envs(s, names - {x}, env, env')
  {
    hide Related;
  }

  lemma {:induction false} SimIf<W>(s: Setting<W>, t: Tree, scopes: ScopeStack, generated: seq<Delegate>, id: nat,
                                    env: Env, env': Env, names: set<string>, w: W, fuel: nat)
    requires t.kind.If?
    requires Ready(s, t, scopes, generated, id, env, env', names) && Eval(s.m, t, env, w, fuel).Some?
    ensures Matches(s, scopes, names, Eval(s.m, t, env, w, fuel).value,
                    Eval(s.n, Down(s, t, scopes, generated, id).tree, env', w, fuel))
    decreases fuel, 1, t, 2
  {
    hide Good, LowerKids, KidScopes, EnvRelated, AllFound, EvalStrict, Bound;
    ScopesOfFirst(t.kind, scopes);
    KidTracks(t.kind, 1, scopes);
    KidTracks(t.kind, 2, scopes);
    var a := Down(s, t.kids[0], scopes, generated, id);
    var b := Down(s, t.kids[1], KidScopes(t.kind, 1, scopes), a.generated, a.delegateId);
    if |t.kids| == 2 {
      GrowsTwo(s.order, t.kind, t.kids, scopes, generated, id);
      assert Down(s, t, scopes, generated, id) == Lowered(Tree(t.kind, [a.tree, b.tree]), b.generated, b.delegateId);
    } else {
      GrowsThree(s.order, t.kind, t.kids, scopes, generated, id);
      var c := Down(s, t.kids[2], KidScopes(t.kind, 2, scopes), b.generated, b.delegateId);
      assert Down(s, t, scopes, generated, id) ==
             Lowered(Tree(t.kind, [a.tree, b.tree, c.tree]), c.generated, c.delegateId);
      FoundBefore(s.n.delegates, b.generated, c.generated);
    }
    FoundBefore(s.n.delegates, a.generated, b.generated);
    Simulates(s, t.kids[0], scopes, generated, id, env, env', names, w, fuel);
    var o := Eval(s.m, t.kids[0], env, w, fuel).value;
    var o' := Eval(s.n, a.tree, env', w, fuel).value;
    assert o'.value == o.value;
    if o.value == Bool(true) {
      SimBranch(s, t, 1, scopes, a.generated, a.delegateId, o.env, o'.env, names, o.world, fuel);
    } else if |t.kids| == 3 {
      SimBranch(s, t, 2, scopes, b.generated, b.delegateId, o.env, o'.env, names, o.world, fuel);
    }
  }

  /** A child in a scope of its own that declares nothing. */
  lemma {:induction false} SimBranch<W>(s: Setting<W>, t: Tree, k: nat, scopes: ScopeStack, generated: seq<Delegate>,
                                        id: nat, env: Env, env': Env, names: set<string>, w: W, fuel: nat)
    requires k < |t.kids| && Good(s) && Supported(t, scopes) && Free(t.kids[k]) <= names
    requires Tracked(KidScopes(t.kind, k, scopes)) == Tracked(scopes)
    requires Envs(s, names, env, env') && Bound(scopes, env')
    requires AllFound(s.n.delegates, Down(s, t.kids[k], KidScopes(t.kind, k, scopes), generated, id).generated)
    requires Eval(s.m, t.kids[k], env, w, fuel).Some?
    ensures Matches(s, scopes, names, Eval(s.m, t.kids[k], env, w, fuel).value,
                    Eval(s.n, Down(s, t.kids[k], KidScopes(t.kind, k, scopes), generated, id).tree, env', w, fuel))
    decreases fuel, 1, t, 1
  {
    hide Good, LowerKids, KidScopes, EnvRelated, AllFound, Eval, Lower, Free, Related;
    var inner := KidScopes(t.kind, k, scopes);
    BoundSame(scopes, inner, env');
    Simulates(s, t.kids[k], inner, generated, id, env, env', names, w, fuel);
    BoundSame(inner, scopes, Eval(s.n, Down(s, t.kids[k], inner, generated, id).tree, env', w, fuel).value.env);
  }

  lemma {:induction false} SimWhile<W>(s: Setting<W>, t: Tree, scopes: ScopeStack, generated: seq<Delegate>, id: nat,
                                       env: Env, env': Env, names: set<string>, w: W, fuel: nat)
    requires t.kind.While?
    requires Ready(s, t, scopes, generated, id, env, env', names) && Eval(s.m, t, env, w, fuel).Some?
    ensures Matches(s, scopes, names, Eval(s.m, t, env, w, fuel).value,
                    Eval(s.n, Down(s, t, scopes, generated, id).tree, env', w, fuel))
    decreases fuel, 1, t, 2
  {
    hide Good, LowerKids, KidScopes, EnvRelated, AllFound, EvalStrict, Bound;
    ScopesOfFirst(t.kind, scopes);
    KidTracks(t.kind, 1, scopes);
    GrowsTwo(s.order, t.kind, t.kids, scopes, generated, id);
    var a := Down(s, t.kids[0], scopes, generated, id);
    var b := Down(s, t.kids[1], KidScopes(t.kind, 1, scopes), a.generated, a.delegateId);
    assert Down(s, t, scopes, generated, id) == Lowered(Tree(t.kind, [a.tree, b.tree]), b.generated, b.delegateId);
    FoundBefore(s.n.delegates, a.generated, b.generated);
    Simulates(s, t.kids[0], scopes, generated, id, env, env', names, w, fuel);
    var o := Eval(s.m, t.kids[0], env, w, fuel).value;
    var o' := Eval(s.n, a.tree, env', w, fuel).value;
    assert o'.value == o.value;
    if o.value == Bool(true) {
      SimBranch(s, t, 1, scopes, a.generated, a.delegateId, o.env, o'.env, names, o.world, fuel);
      var r := Eval(s.m, t.kids[1], o.env, o.world, fuel).value;
      var r' := Eval(s.n, b.tree, o'.env, o'.world, fuel).value;
      Simulates(s, t, scopes, generated, id, r.env, r'.env, names, r.world, fuel - 1);
    }
  }

  lemma {:induction false} SimBlock<W>(s: Setting<W>, t: Tree, scopes: ScopeStack, generated: seq<Delegate>, id: nat,
                                       env: Env, env': Env, names: set<string>, w: W, fuel: nat)
    requires t.kind.Block?
    requires Ready(s, t, scopes, generated, id, env, env', names) && Eval(s.m, t, env, w, fuel).Some?
    ensures Matches(s, scopes, names, Eval(s.m, t, env, w, fuel).value,
                    Eval(s.n, Down(s, t, scopes, generated, id).tree, env', w, fuel))
    decreases fuel, 1, t, 2
  {
    hide Good, LowerKids, KidScopes, EnvRelated, AllFound, EvalStrict, Bound, Related, EvalAll;
    KidsReady(s, t, scopes, generated, id, env, env', names);
    SimAll(s, t.kind, t.kids, 0, scopes, generated, id, env, env', names, w, fuel);
    FirstOrderRelated(s.order, s.n.delegates, Unit);
  }

  lemma KidsReady<W>(s: Setting<W>, t: Tree, scopes: ScopeStack, generated: seq<Delegate>, id: nat, env: Env,
                     env': Env, names: set<string>)
    requires Ready(s, t, scopes, generated, id, env, env', names)
    requires t.kind.Block? || Strict(t.kind) || t.kind.Call?
    ensures ReadyAll(s, t.kind, t.kids, 0, scopes, generated, id, env, env', names)
    ensures var ks := LowerKids(s.order, t.kind, t.kids, 0, scopes, generated, id);
            Down(s, t, scopes, generated, id) ==
            Rewrite(s.order, t.kind, ks.trees, scopes, ks.generated, ks.delegateId)
  {
    hide Good, LowerKids, KidScopes, EnvRelated, Bound;
  }

  lemma {:induction false} SimAll<W>(s: Setting<W>, kind: Kind, ts: seq<Tree>, i: nat, scopes: ScopeStack,
                                     generated: seq<Delegate>, id: nat, env: Env, env': Env, names: set<string>, w: W,
                                     fuel: nat)
    requires ReadyAll(s, kind, ts, i, scopes, generated, id, env, env', names) && EvalAll(s.m, ts, env, w, fuel).Some?
    ensures MatchesAll(s, scopes, names, EvalAll(s.m, ts, env, w, fuel).value,
                       EvalAll(s.n, LowerKids(s.order, kind, ts, i, scopes, generated, id).trees, env', w, fuel))
    decreases fuel, 1, ts, 0
  {
    hide Good, KidScopes, EnvRelated, AllFound, Bound, Related, Eval, Lower;
    if ts != [] {
      var inner := KidScopes(kind, i, scopes);
      KidTracks(kind, i, scopes);
      var a := Down(s, ts[0], inner, generated, id);
      LowerKidsGrow(s.order, kind, ts[1..], i + 1, scopes, a.generated, a.delegateId);
      FoundBefore(s.n.delegates, a.generated, LowerKids(s.order, kind, ts, i, scopes, generated, id).generated);
      BoundSame(scopes, inner, env');
      Simulates(s, ts[0], inner, generated, id, env, env', names, w, fuel);
      var o := Eval(s.m, ts[0], env, w, fuel).value;
      var o' := Eval(s.n, a.tree, env', w, fuel).value;
      BoundSame(inner, scopes, o'.env);
      SimAll(s, kind, ts[1..], i + 1, scopes, a.generated, a.delegateId, o.env, o'.env, names, o.world, fuel);
    }
  }

  lemma {:induction false} SimExprStmt<W>(s: Setting<W>, t: Tree, scopes: ScopeStack, generated: seq<Delegate>,
                                          id: nat, env: Env, env': Env, names: set<string>, w: W, fuel: nat)
    requires t.kind.ExprStmt?
    requires Ready(s, t, scopes, generated, id, env, env', names) && Eval(s.m, t, env, w, fuel).Some?
    ensures Matches(s, scopes, names, Eval(s.m, t, env, w, fuel).value,
                    Eval(s.n, Down(s, t, scopes, generated, id).tree, env', w, fuel))
    decreases fuel, 1, t, 2
  {
    hide Good, LowerKids, KidScopes, EnvRelated, AllFound, EvalStrict, Bound, Related;
    ScopesOfFirst(t.kind, scopes);
    KidsOne(s.order, t.kind, t.kids, scopes, generated, id);
    Simulates(s, t.kids[0], scopes, generated, id, env, env', names, w, fuel);
  }

  lemma {:induction false} SimAssignment<W>(s: Setting<W>, t: Tree, scopes: ScopeStack, generated: seq<Delegate>,
                                            id: nat, env: Env, env': Env, names: set<string>, w: W, fuel: nat)
    requires t.kind.Assignment?
    requires Ready(s, t, scopes, generated, id, env, env', names) && Eval(s.m, t, env, w, fuel).Some?
    ensures Matches(s, scopes, names, Eval(s.m, t, env, w, fuel).value,
                    Eval(s.n, Down(s, t, scopes, generated, id).tree, env', w, fuel))
    decreases fuel, 1, t, 2
  {
    hide Good, LowerKids, EvalStrict, Related, AllFound;
    GrowsTwo(s.order, t.kind, t.kids, scopes, generated, id);
    var x := t.kids[0].kind.name;
    var a := Down(s, t.kids[0], scopes, generated, id);
    assert a.tree.kind == t.kids[0].kind;
    var b := Down(s, t.kids[1], scopes, a.generated, a.delegateId);
    assert Down(s, t, scopes, generated, id) == Lowered(Tree(t.kind, [a.tree, b.tree]), b.generated, b.delegateId);
    assert x in Free(t.kids[0]);
    Simulates(s, t.kids[1], scopes, a.generated, a.delegateId, env, env', names, w, fuel);
    var r := Eval(s.m, t.kids[1], env, w, fuel).value;
    var r' := Eval(s.n, b.tree, env', w, fuel).value;
    EnvNarrow(s, names, r.env, r'.env, x);
    EnvPut(s.order, s.n.delegates, names, r.env, r'.env, x, r.value, r'.value);
    assert names + {x} == names;
  }

  // ---------- for-loops ----------

  lemma {:induction false} SimFor<W>(s: Setting<W>, t: Tree, scopes: ScopeStack, generated: seq<Delegate>, id: nat,
                                     env: Env, env': Env, names: set<string>, w: W, fuel: nat)
    requires t.kind.For?
    requires Ready(s, t, scopes, generated, id, env, env', names) && Eval(s.m, t, env, w, fuel).Some?
    ensures Matches(s, scopes, names, Eval(s.m, t, env, w, fuel).value,
                    Eval(s.n, Down(s, t, scopes, generated, id).tree, env', w, fuel))
    decreases fuel, 1, t, 3
  {
    hide Good, LowerKids, KidScopes, EnvRelated, AllFound, Related, Bound, Eval, EvalFor, ForLoop, Rounds;
    var x := t.kind.variable;
    ForEvaluates(s.m, t, env, w, fuel);
    ScopesOfFirst(t.kind, scopes);
    GrowsTwo(s.order, t.kind, t.kids, scopes, generated, id);
    var a := Down(s, t.kids[0], scopes, generated, id);
    var b := Down(s, t.kids[1], KidScopes(t.kind, 1, scopes), a.generated, a.delegateId);
    assert Down(s, t, scopes, generated, id) == Lowered(ForLoop(x, a.tree, b.tree), b.generated, b.delegateId);
    FoundBefore(s.n.delegates, a.generated, b.generated);
    Simulates(s, t.kids[0], scopes, generated, id, env, env', names, w, fuel);
    var i := Eval(s.m, t.kids[0], env, w, fuel).value;
    var i' := Eval(s.n, a.tree, env', w, fuel).value;
    SimLoop(s, t, scopes, a.generated, a.delegateId, i.value, i'.value, i.env, i'.env, names, i.world, fuel);
    LoopIsLet(x, a.tree, b.tree);
    LetRuns(s.n, "iterable", a.tree, Rounds(x, b.tree), env', w, fuel);
  }

  lemma LoopIsLet(x: string, iter: Tree, body: Tree)
    ensures ForLoop(x, iter, body) == Tree(Let("iterable"), [iter, Rounds(x, body)])
  {
  }

  lemma ForEvaluates<W>(m: Machine<W>, t: Tree, env: Env, w: W, fuel: nat)
    requires t.kind.For? && Eval(m, t, env, w, fuel).Some?
    ensures |t.kids| == 2 && Eval(m, t.kids[0], env, w, fuel).Some?
    ensures var i := Eval(m, t.kids[0], env, w, fuel).value;
            Eval(m, t, env, w, fuel) == EvalFor(m, t, t.kind.variable, i.value, i.env, i.world, fuel)
  {
    hide EvalStrict, EvalFor;
  }

  /** The loop over a given object, with the object bound to `iterable`. */
  lemma {:induction false} SimLoop<W>(s: Setting<W>, t: Tree, scopes: ScopeStack, generated: seq<Delegate>, id: nat,
                                      it: Value, it': Value, env: Env, env': Env, names: set<string>, w: W, fuel: nat)
    requires t.kind.For? && |t.kids| == 2 && Good(s) && Supported(t, scopes) && Same(s, it, it')
    requires Free(t) <= names && Envs(s, names, env, env') && Bound(scopes, env')
    requires AllFound(s.n.delegates, Down(s, t.kids[1], KidScopes(t.kind, 1, scopes), generated, id).generated)
    requires EvalFor(s.m, t, t.kind.variable, it, env, w, fuel).Some?
    ensures var x := t.kind.variable;
            var o := EvalFor(s.m, t, x, it, env, w, fuel).value;
            var b := Down(s, t.kids[1], KidScopes(t.kind, 1, scopes), generated, id).tree;
            var r := Eval(s.n, Rounds(x, b), Put(env', "iterable", it'), w, fuel);
            && r.Some? && Same(s, o.value, r.value.value) && r.value.world == o.world
            && Envs(s, names, o.env, Restore(r.value.env, "iterable", Get(env', "iterable")))
            && Bound(scopes, Restore(r.value.env, "iterable", Get(env', "iterable")))
    decreases fuel, 1, t, 2
  {
    hide Good, Lower, KidScopes, EnvRelated, AllFound, Related, Bound, Eval, EvalFor, Rounds;
    var x := t.kind.variable;
    var b := Down(s, t.kids[1], KidScopes(t.kind, 1, scopes), generated, id).tree;
    LoopObject(s, t, x, it, it', env, w, fuel);
    var start := Put(env', "iterable", it');
    BoundPut(scopes, env', "iterable", it');
    EnvHidden(s, names, env, env', "iterable", it');
    SimRounds(s, t, scopes, generated, id, it, env, start, names - {"iterable"}, w, fuel);
    var o' := Eval(s.n, Rounds(x, b), start, w, fuel).value;
    LoopEnds(s, t, x, it, env, w, fuel, names, env', o'.env);
    BoundRestore(scopes, env', o'.env, "iterable");
  }

  /** The while-loop that a for-loop turns into, for a lowered body. */
  function Rounds(x: string, body: Tree): Tree {
    var it := Tree(Variable("iterable"), []);
    Tree(While, [Tree(MethodCall("next"), [it]),
      Tree(Block, [Tree(Let(x), [Tree(MethodCall("current"), [it]), body])])])
  }

  /** The object looped over is not a function value, so it is the same on both sides. */
  lemma LoopObject<W>(s: Setting<W>, t: Tree, x: string, v: Value, v': Value, env: Env, w: W, fuel: nat)
    requires |t.kids| == 2 && Same(s, v, v') && EvalFor(s.m, t, x, v, env, w, fuel).Some?
    ensures FirstOrder(v) && v == v'
  {
    hide Eval, Apply;
    AskedFirstOrder(s.m, v, w, fuel);
    RelatedFirstOrder(s.order, s.n.delegates, v, v');
  }

  /** Only objects answer `next`. */
  lemma AskedFirstOrder<W>(m: Machine<W>, v: Value, w: W, fuel: nat)
    requires Operate(m, MethodCall("next"), [v], w, fuel).Some?
    ensures FirstOrder(v)
  {
    hide Eval, Apply;
    assert [v][0] == v;
    if MethodOf(m, "next", [v], w).None? {
      assert Foreign(m, MethodCall("next"), [v], w).Some?;
    }
  }

  lemma BoundPut(scopes: ScopeStack, env: Env, x: string, v: Value)
    requires Bound(scopes, env)
    ensures Bound(scopes, Put(env, x, v))
  {
  }

  lemma BoundRestore(scopes: ScopeStack, before: Env, env: Env, x: string)
    requires Bound(scopes, before) && Bound(scopes, env)
    ensures Bound(scopes, Restore(env, x, Get(before, x)))
  {
  }

  lemma EnvHidden<W>(s: Setting<W>, names: set<string>, env: Env, env': Env, x: string, v: Value)
    requires Envs(s, names, env, env')
    ensures Envs(s, names - {x}, env, Put(env', x, v))
  {
    hide Related;
  }

  /** After the loop the name `iterable` means what it meant before, on both sides. */
  lemma LoopEnds<W>(s: Setting<W>, t: Tree, x: string, it: Value, env: Env, w: W, fuel: nat, names: set<string>,
                    before': Env, after': Env)
    requires t.kind == For(x) && |t.kids| == 2 && "iterable" !in Free(t.kids[1]) - {x}
    requires EvalFor(s.m, t, x, it, env, w, fuel).Some?
    requires Envs(s, names, env, before')
    requires Envs(s, names - {"iterable"}, EvalFor(s.m, t, x, it, env, w, fuel).value.env, after')
    ensures Envs(s, names, EvalFor(s.m, t, x, it, env, w, fuel).value.env,
                 Restore(after', "iterable", Get(before', "iterable")))
  {
    hide Related, EvalFor;
    AssignedFree(t.kids[1]);
    UntouchedFor(s.m, t, x, it, env, w, fuel, "iterable");
  }

  /** Calling a method of the object looped over. */
  lemma IterableCall<W>(n: Machine<W>, selector: string, it: Value, env: Env, w: W, fuel: nat)
    requires Get(env, "iterable") == Some(it)
    ensures var t := Tree(MethodCall(selector), [Tree(Variable("iterable"), [])]);
            Eval(n, t, env, w, fuel) ==
            match Operate(n, MethodCall(selector), [it], w, fuel)
            case Some(r) => Some(Outcome(r.0, env, r.1))
            case None => None
  {
    hide Operate;
    var v := Tree(Variable("iterable"), []);
    assert Eval(n, v, env, w, fuel) == Some(Outcome(it, env, w));
    OneValue(n, v, env, w, fuel);
    StrictEvaluates(n, Tree(MethodCall(selector), [v]), env, w, fuel);
  }

  /** One round of the while-loop. */
  lemma RoundRuns<W>(n: Machine<W>, x: string, body: Tree, it: Value, env: Env, w: W, fuel: nat)
    requires Get(env, "iterable") == Some(it) && fuel > 0
    requires Operate(n, MethodCall("next"), [it], w, fuel).Some?
    ensures var more := Operate(n, MethodCall("next"), [it], w, fuel).value;
            && (more.0 == Bool(false) ==> Eval(n, Rounds(x, body), env, w, fuel) == Some(Outcome(Unit, env, more.1)))
            && (more.0 == Bool(true) && Operate(n, MethodCall("current"), [it], more.1, fuel).Some? ==>
                  var current := Operate(n, MethodCall("current"), [it], more.1, fuel).value;
                  Eval(n, body, Put(env, x, current.0), current.1, fuel).Some? ==>
                  var o := Eval(n, body, Put(env, x, current.0), current.1, fuel).value;
                  Eval(n, Rounds(x, body), env, w, fuel) ==
                  Eval(n, Rounds(x, body), Restore(o.env, x, Get(env, x)), o.world, fuel - 1))
  {
    hide EvalStrict, Operate, EvalAll;
    var more := Operate(n, MethodCall("next"), [it], w, fuel).value;
    var v := Tree(Variable("iterable"), []);
    var next, current := Tree(MethodCall("next"), [v]), Tree(MethodCall("current"), [v]);
    IterableCall(n, "next", it, env, w, fuel);
    var bind := Tree(Let(x), [current, body]);
    var block := Tree(Block, [bind]);
    assert Rounds(x, body) == Tree(While, [next, block]);
    assert Eval(n, next, env, w, fuel) == Some(Outcome(more.0, env, more.1));
    if more.0 == Bool(true) && Operate(n, MethodCall("current"), [it], more.1, fuel).Some? {
      IterableCall(n, "current", it, env, more.1, fuel);
      SingleBlock(n, bind, env, more.1, fuel);
      LetRuns(n, x, current, body, env, more.1, fuel);
      WhileRuns(n, next, block, env, w, fuel);
    } else if more.0 == Bool(false) {
      WhileRuns(n, next, block, env, w, fuel);
    }
  }

  lemma WhileRuns<W>(n: Machine<W>, c: Tree, b: Tree, env: Env, w: W, fuel: nat)
    requires fuel > 0 && Eval(n, c, env, w, fuel).Some?
    ensures var t, o := Tree(While, [c, b]), Eval(n, c, env, w, fuel).value;
            && (o.value == Bool(false) ==> Eval(n, t, env, w, fuel) == Some(Outcome(Unit, o.env, o.world)))
            && (o.value == Bool(true) && Eval(n, b, o.env, o.world, fuel).Some? ==>
                  var r := Eval(n, b, o.env, o.world, fuel).value;
                  Eval(n, t, env, w, fuel) == Eval(n, t, r.env, r.world, fuel - 1))
  {
    hide EvalStrict, EvalAll;
  }

  lemma LetRuns<W>(n: Machine<W>, x: string, init: Tree, body: Tree, env: Env, w: W, fuel: nat)
    requires Eval(n, init, env, w, fuel).Some?
    ensures var i := Eval(n, init, env, w, fuel).value;
            var r := Eval(n, body, Put(i.env, x, i.value), i.world, fuel);
            Eval(n, Tree(Let(x), [init, body]), env, w, fuel) ==
            match r
            case Some(o) => Some(Outcome(o.value, Restore(o.env, x, Get(i.env, x)), o.world))
            case None => None
  {
    hide EvalStrict, EvalAll;
  }

  lemma SingleBlock<W>(n: Machine<W>, t: Tree, env: Env, w: W, fuel: nat)
    ensures Eval(n, Tree(Block, [t]), env, w, fuel) == Eval(n, t, env, w, fuel)
  {
    hide EvalStrict;
    if Eval(n, t, env, w, fuel).Some? {
      OneValue(n, t, env, w, fuel);
    } else {
      assert EvalAll(n, [t], env, w, fuel).None?;
    }
  }

  lemma {:induction false} SimRounds<W>(s: Setting<W>, t: Tree, scopes: ScopeStack, generated: seq<Delegate>, id: nat,
                                        it: Value, env: Env, env': Env, names: set<string>, w: W, fuel: nat)
    requires t.kind.For? && |t.kids| == 2 && Good(s) && Supported(t, scopes) && FirstOrder(it)
    requires Free(t.kids[1]) <= names + {"iterable", t.kind.variable}
    requires "iterable" !in names && Envs(s, names, env, env') && Bound(scopes, env')
    requires Get(env', "iterable") == Some(it)
    requires AllFound(s.n.delegates, Down(s, t.kids[1], KidScopes(t.kind, 1, scopes), generated, id).generated)
    requires EvalFor(s.m, t, t.kind.variable, it, env, w, fuel).Some?
    ensures Matches(s, scopes, names, EvalFor(s.m, t, t.kind.variable, it, env, w, fuel).value,
                    Eval(s.n, Rounds(t.kind.variable, Down(s, t.kids[1], KidScopes(t.kind, 1, scopes), generated, id).tree),
                         env', w, fuel))
    decreases fuel, 1, t, 1
  {
    hide Good, Supported, EnvRelated, AllFound, Related, Bound, Eval, KidScopes, Lower, Rounds, Free, EvalFor, Operate, Get, Put,
      Restore;
    var x := t.kind.variable;
    var b := Down(s, t.kids[1], KidScopes(t.kind, 1, scopes), generated, id);
    var goes, v, w1, w2 := RoundOf(s.m, t, x, it, env, w, fuel);
    SimAsk(s, "next", it, w, fuel);
    RoundRuns(s.n, x, b.tree, it, env', w, fuel);
    FirstOrderRelated(s.order, s.n.delegates, Unit);
    if goes {
      SimAsk(s, "current", it, w1, fuel);
      var v' := Operate(s.n, MethodCall("current"), [it], w1, fuel).value.0;
      SimRound(s, t, scopes, generated, id, v, v', env, env', names, w2, fuel);
      var o := Eval(s.m, t.kids[1], Put(env, x, v), w2, fuel).value;
      var o' := Eval(s.n, b.tree, Put(env', x, v'), w2, fuel).value;
      KeepsIterable(s, t, scopes, generated, id, v', env', w2, fuel);
      SimRounds(s, t, scopes, generated, id, it, Restore(o.env, x, Get(env, x)), Restore(o'.env, x, Get(env', x)),
                names, o.world, fuel - 1);
    }
  }

  /** Asking the object looped over. */
  lemma {:induction false} SimAsk<W>(s: Setting<W>, selector: string, it: Value, w: W, fuel: nat)
    requires Good(s) && FirstOrder(it) && Operate(s.m, MethodCall(selector), [it], w, fuel).Some?
    ensures var o, r := Operate(s.m, MethodCall(selector), [it], w, fuel).value,
                        Operate(s.n, MethodCall(selector), [it], w, fuel);
            && r.Some? && Same(s, o.0, r.value.0) && r.value.1 == o.1 && (FirstOrder(o.0) ==> r.value.0 == o.0)
    decreases fuel, 0, 2
  {
    hide Operate, Good, Related;
    FirstOrderRelated(s.order, s.n.delegates, it);
    SimOperate(s, MethodCall(selector), [it], [it], w, fuel);
    var o, r := Operate(s.m, MethodCall(selector), [it], w, fuel).value, Operate(s.n, MethodCall(selector), [it], w, fuel);
    RelatedFirstOrder(s.order, s.n.delegates, o.0, r.value.0);
  }

  /** The body of the loop, for one element. */
  lemma {:induction false} SimRound<W>(s: Setting<W>, t: Tree, scopes: ScopeStack, generated: seq<Delegate>, id: nat,
                                       v: Value, v': Value, env: Env, env': Env, names: set<string>, w: W, fuel: nat)
    requires t.kind.For? && |t.kids| == 2 && Good(s) && Supported(t, scopes) && Same(s, v, v')
    requires Free(t.kids[1]) <= names + {"iterable", t.kind.variable}
    requires "iterable" !in names && Envs(s, names, env, env') && Bound(scopes, env')
    requires AllFound(s.n.delegates, Down(s, t.kids[1], KidScopes(t.kind, 1, scopes), generated, id).generated)
    requires Eval(s.m, t.kids[1], Put(env, t.kind.variable, v), w, fuel).Some?
    ensures var x := t.kind.variable;
            var o := Eval(s.m, t.kids[1], Put(env, x, v), w, fuel).value;
            var r := Eval(s.n, Down(s, t.kids[1], KidScopes(t.kind, 1, scopes), generated, id).tree,
                          Put(env', x, v'), w, fuel);
            && r.Some? && r.value.world == o.world
            && Envs(s, names, Restore(o.env, x, Get(env, x)), Restore(r.value.env, x, Get(env', x)))
            && Bound(scopes, Restore(r.value.env, x, Get(env', x)))
    decreases fuel, 1, t, 0
  {
    hide Good, EnvRelated, AllFound, Related, Bound, Eval, KidScopes, Lower, Free;
    var x := t.kind.variable;
    var inner := KidScopes(t.kind, 1, scopes);
    KidTracks(t.kind, 1, scopes);
    EnvNarrow(s, names, env, env', x);
    EnvPut(s.order, s.n.delegates, names, env, env', x, v, v');
    BoundPut(scopes, env', x, v');
    BoundSame(scopes, inner, Put(env', x, v'));
    assert Free(t.kids[1]) <= names + {x};
    Simulates(s, t.kids[1], inner, generated, id, Put(env, x, v), Put(env', x, v'), names + {x}, w, fuel);
    var o := Eval(s.m, t.kids[1], Put(env, x, v), w, fuel).value;
    var o' := Eval(s.n, Down(s, t.kids[1], inner, generated, id).tree, Put(env', x, v'), w, fuel).value;
    EnvRestore(s.order, s.n.delegates, names, env, env', o.env, o'.env, x);
    BoundSame(inner, scopes, o'.env);
    BoundRestore(scopes, env', o'.env, x);
  }

  /** The lowered body leaves the object looped over where it is. */
  lemma KeepsIterable<W>(s: Setting<W>, t: Tree, scopes: ScopeStack, generated: seq<Delegate>, id: nat, v: Value,
                         env': Env, w: W, fuel: nat)
    requires t.kind.For? && |t.kids| == 2 && Supported(t, scopes)
    requires Eval(s.n, Down(s, t.kids[1], KidScopes(t.kind, 1, scopes), generated, id).tree,
                  Put(env', t.kind.variable, v), w, fuel).Some?
    ensures var x := t.kind.variable;
            var o := Eval(s.n, Down(s, t.kids[1], KidScopes(t.kind, 1, scopes), generated, id).tree, Put(env', x, v), w,
                          fuel).value;
            Get(Restore(o.env, x, Get(env', x)), "iterable") == Get(env', "iterable")
  {
    hide Eval, Lower, KidScopes;
    var x := t.kind.variable;
    if x != "iterable" {
      AssignedFree(t.kids[1]);
      LowerAssigns(s.order, t.kids[1], KidScopes(t.kind, 1, scopes), generated, id);
      Untouched(s.n, Down(s, t.kids[1], KidScopes(t.kind, 1, scopes), generated, id).tree, Put(env', x, v), w, fuel,
                "iterable");
    }
  }

  // ---------- operations on values ----------

  lemma {:induction false} SimStrict<W>(s: Setting<W>, t: Tree, scopes: ScopeStack, generated: seq<Delegate>, id: nat,
                                        env: Env, env': Env, names: set<string>, w: W, fuel: nat)
    requires Strict(t.kind) && !t.kind.Binary?
    requires Ready(s, t, scopes, generated, id, env, env', names) && Eval(s.m, t, env, w, fuel).Some?
    ensures Matches(s, scopes, names, Eval(s.m, t, env, w, fuel).value,
                    Eval(s.n, Down(s, t, scopes, generated, id).tree, env', w, fuel))
    decreases fuel, 1, t, 2
  {
    hide Good, LowerKids, KidScopes, EnvRelated, AllFound, Bound, Related, EvalAll, Operate, Eval;
    KidsReady(s, t, scopes, generated, id, env, env', names);
    StrictEvaluates(s.m, t, env, w, fuel);
    SimAll(s, t.kind, t.kids, 0, scopes, generated, id, env, env', names, w, fuel);
    var ks := LowerKids(s.order, t.kind, t.kids, 0, scopes, generated, id);
    var o := EvalAll(s.m, t.kids, env, w, fuel).value;
    var o' := EvalAll(s.n, ks.trees, env', w, fuel).value;
    SimOperate(s, t.kind, o.values, o'.values, o.world, fuel);
    StrictEvaluates(s.n, Tree(t.kind, ks.trees), env', w, fuel);
  }

  lemma StrictEvaluates<W>(m: Machine<W>, t: Tree, env: Env, w: W, fuel: nat)
    requires Strict(t.kind)
    ensures Eval(m, t, env, w, fuel) == EvalStrict(m, t, env, w, fuel)
  {
    hide EvalStrict;
  }

  /** Related values give related results. */
  lemma {:induction false} SimOperate<W>(s: Setting<W>, kind: Kind, vs: seq<Value>, vs': seq<Value>, w: W, fuel: nat)
    requires Good(s) && SameAll(s, vs, vs') && Operate(s.m, kind, vs, w, fuel).Some?
    requires kind.New? ==> !("Delegate_" <= kind.typeName)
    ensures var o, r := Operate(s.m, kind, vs, w, fuel).value, Operate(s.n, kind, vs', w, fuel);
            r.Some? && Same(s, o.0, r.value.0) && r.value.1 == o.1
    decreases fuel, 0, 1
  {
    hide Related, Good, Eval, Apply;
    match kind
    case Binary(op) => OperateBinary(s, op, vs, vs', w, fuel);
    case Unary(op) => OperateForeign(s, kind, vs, vs', w, fuel);
    case Call(f, _) =>
      if f in s.m.functions {
        SimCall(s, kind, vs, vs', w, fuel);
      } else {
        OperateLibrary(s, kind, vs, vs', w, fuel);
      }
    case MethodCall(selector) =>
      if selector == "invoke" && vs != [] && !FirstOrder(vs[0]) {
        RelatedFirstOrder(s.order, s.n.delegates, vs[0], vs'[0]);
        SimApply(s, vs[0], vs'[0], vs[1..], vs'[1..], w, fuel);
      } else if MethodOf(s.m, selector, vs, w).Some? {
        SimMethod(s, selector, vs, vs', w, fuel);
      } else {
        OperateForeign(s, kind, vs, vs', w, fuel);
      }
    case _ => OperateForeign(s, kind, vs, vs', w, fuel);
  }

  lemma OperateBinary<W>(s: Setting<W>, op: string, vs: seq<Value>, vs': seq<Value>, w: W, fuel: nat)
    requires Good(s) && SameAll(s, vs, vs') && Operate(s.m, Binary(op), vs, w, fuel).Some?
    ensures vs' == vs && FirstOrder(Operate(s.m, Binary(op), vs, w, fuel).value.0)
    ensures Operate(s.n, Binary(op), vs', w, fuel) == Operate(s.m, Binary(op), vs, w, fuel)
    ensures var v := Operate(s.m, Binary(op), vs, w, fuel).value.0; Same(s, v, v)
  {
    hide Related;
    AllRelatedFirstOrder(s.order, s.n.delegates, vs, vs');
    assert BinaryValue(s.n, op, vs[0], vs[1]) == BinaryValue(s.m, op, vs[0], vs[1]);
    FirstOrderRelated(s.order, s.n.delegates, Operate(s.m, Binary(op), vs, w, fuel).value.0);
  }

  lemma NoInstances<W>(s: Setting<W>, vs: seq<Value>, vs': seq<Value>)
    requires SameAll(s, vs, vs')
    ensures forall i | 0 <= i < |vs| :: !vs[i].Instance?
  {
    forall i | 0 <= i < |vs| ensures !vs[i].Instance? {
      assert Related(s.order, s.n.delegates, vs[i], vs'[i]);
    }
  }

  lemma SameLibrary<W>(s: Setting<W>)
    requires Good(s)
    ensures s.m.delegates == [] && Numbered(s.n.delegates) && s.m.functions.Keys == s.n.functions.Keys
    ensures s.m.methods.Keys == s.n.methods.Keys && s.n.dispatch == s.m.dispatch
    ensures s.n.operation == s.m.operation && s.n.power == s.m.power && s.n.remainder == s.m.remainder
  {
  }

  lemma OperateForeign<W>(s: Setting<W>, kind: Kind, vs: seq<Value>, vs': seq<Value>, w: W, fuel: nat)
    requires Good(s) && SameAll(s, vs, vs') && Operate(s.m, kind, vs, w, fuel).Some?
    requires !kind.Binary? && !kind.Call?
    requires kind.MethodCall? ==> !(kind.selector == "invoke" && vs != [] && !FirstOrder(vs[0]))
    requires kind.MethodCall? ==> MethodOf(s.m, kind.selector, vs, w).None?
    requires kind.New? ==> !("Delegate_" <= kind.typeName)
    ensures var o, r := Operate(s.m, kind, vs, w, fuel).value, Operate(s.n, kind, vs', w, fuel);
            r == Some(o) && Same(s, o.0, o.0)
  {
    hide Eval, Apply, Good, Related;
    SameLibrary(s);
    NoInstances(s, vs, vs');
    assert AllFirstOrder(vs);
    AllRelatedFirstOrder(s.order, s.n.delegates, vs, vs');
    if kind.New? {
      NumberedFinds(s.n.delegates, kind.typeName);
    }
    if kind.MethodCall? {
      SameMethods(s, kind.selector, vs, w);
    }
    FirstOrderRelated(s.order, s.n.delegates, Operate(s.m, kind, vs, w, fuel).value.0);
  }

  lemma OperateLibrary<W>(s: Setting<W>, kind: Kind, vs: seq<Value>, vs': seq<Value>, w: W, fuel: nat)
    requires Good(s) && SameAll(s, vs, vs') && Operate(s.m, kind, vs, w, fuel).Some?
    requires kind.Call? && kind.callee !in s.m.functions
    ensures var o, r := Operate(s.m, kind, vs, w, fuel).value, Operate(s.n, kind, vs', w, fuel);
            r == Some(o) && Same(s, o.0, o.0)
  {
    hide Eval, Apply, Good, Related;
    SameLibrary(s);
    NoInstances(s, vs, vs');
    assert AllFirstOrder(vs);
    AllRelatedFirstOrder(s.order, s.n.delegates, vs, vs');
    FirstOrderRelated(s.order, s.n.delegates, Operate(s.m, kind, vs, w, fuel).value.0);
  }

  /** Calling a function of the program. */
  lemma {:induction false} SimCall<W>(s: Setting<W>, kind: Kind, vs: seq<Value>, vs': seq<Value>, w: W, fuel: nat)
    requires Good(s) && SameAll(s, vs, vs') && Operate(s.m, kind, vs, w, fuel).Some?
    requires kind.Call? && kind.callee in s.m.functions
    ensures var o, r := Operate(s.m, kind, vs, w, fuel).value, Operate(s.n, kind, vs', w, fuel);
            r.Some? && Same(s, o.0, r.value.0) && r.value.1 == o.1
    decreases fuel, 0, 0
  {
    hide Eval, Apply, Related, Free, AllRelated, Good, SomeLowering;
    SameFunctions(s, kind.callee);
    SameLength(s, vs, vs');
    BodyRuns(s, s.m.functions[kind.callee], s.n.functions[kind.callee], [], vs, vs', w, fuel);
  }

  lemma SameFunctions<W>(s: Setting<W>, f: string)
    requires Good(s) && f in s.m.functions
    ensures f in s.n.functions && SomeLowering(s.order, s.n.delegates, s.m.functions[f], s.n.functions[f])
  {
    hide SomeLowering;
  }

  /** Both programs find the same methods. */
  lemma SameMethods<W>(s: Setting<W>, selector: string, vs: seq<Value>, w: W)
    requires Good(s)
    ensures MethodOf(s.m, selector, vs, w).Some? == MethodOf(s.n, selector, vs, w).Some?
    ensures MethodOf(s.m, selector, vs, w).Some? ==>
              SomeLowering(s.order, s.n.delegates, MethodOf(s.m, selector, vs, w).value, MethodOf(s.n, selector, vs, w).value)
  {
    hide SomeLowering;
    SameLibrary(s);
    if MethodOf(s.m, selector, vs, w).Some? {
      var k := (s.m.dispatch(vs[0], selector, w).value, selector);
      assert k in s.m.methods && k in s.n.methods;
    }
  }

  /** Calling a method of one of the program's types: `self` is the object. */
  lemma {:induction false} SimMethod<W>(s: Setting<W>, selector: string, vs: seq<Value>, vs': seq<Value>, w: W, fuel: nat)
    requires Good(s) && SameAll(s, vs, vs') && Operate(s.m, MethodCall(selector), vs, w, fuel).Some?
    requires MethodOf(s.m, selector, vs, w).Some?
    ensures var o, r := Operate(s.m, MethodCall(selector), vs, w, fuel).value, Operate(s.n, MethodCall(selector), vs', w, fuel);
            r.Some? && Same(s, o.0, r.value.0) && r.value.1 == o.1
    decreases fuel, 0, 0
  {
    hide Eval, Apply, Related, Free, Good, SomeLowering;
    var self := vs[0];
    RelatedFirstOrder(s.order, s.n.delegates, self, vs'[0]);
    assert MethodOf(s.m, selector, vs, w) == MethodOf(s.m, selector, vs', w);
    SameMethods(s, selector, vs', w);
    SameLength(s, vs, vs');
    var f, f' := MethodOf(s.m, selector, vs, w).value, MethodOf(s.n, selector, vs', w).value;
    var env := [Entry("self", self)];
    forall x | Get(env, x).Some? ensures Same(s, Get(env, x).value, Get(env, x).value) {
      FirstOrderRelated(s.order, s.n.delegates, self);
    }
    BodyRuns(s, f, f', env, vs[1..], vs'[1..], w, fuel);
  }

  /** Running the body of a function or method. */
  lemma {:induction false} BodyRuns<W>(s: Setting<W>, f: Function, f': Function, env: Env, vs: seq<Value>,
                                       vs': seq<Value>, w: W, fuel: nat)
    requires Good(s) && SomeLowering(s.order, s.n.delegates, f, f') && SameAll(s, vs, vs')
    requires forall x | Get(env, x).Some? :: Same(s, Get(env, x).value, Get(env, x).value)
    requires fuel > 0 && |vs| == |f.params|
    requires Eval(s.m, f.body, PutAll(env, f.params, vs), w, fuel - 1).Some?
    ensures var o := Eval(s.m, f.body, PutAll(env, f.params, vs), w, fuel - 1).value;
            var r := Eval(s.n, f'.body, PutAll(env, f'.params, vs'), w, fuel - 1);
            f'.params == f.params && r.Some? && Same(s, o.value, r.value.value) && r.value.world == o.world
    decreases fuel - 1, 3
  {
    hide Eval, Related, Good, Lower, Free, AllFound, Supported, AllRelated;
    var scopes: ScopeStack, generated: seq<Delegate>, id: nat :|
      FunctionLowered(s.order, s.n.delegates, f, f', scopes, generated, id);
    SimBody(s, f.body, scopes, generated, id, env, env, f.params, vs, vs', w, fuel - 1);
  }

  lemma SameLength<W>(s: Setting<W>, vs: seq<Value>, vs': seq<Value>)
    requires SameAll(s, vs, vs')
    ensures |vs| == |vs'|
  {
  }

  /** The body of a function, its parameters bound to related arguments. */
  lemma {:induction false} SimBody<W>(s: Setting<W>, body: Tree, scopes: ScopeStack, generated: seq<Delegate>, id: nat,
                                      env: Env, env': Env, params: seq<string>, vs: seq<Value>, vs': seq<Value>, w: W,
                                      fuel: nat)
    requires Good(s) && SameAll(s, vs, vs') && |vs| == |params|
    requires Supported(body, scopes) && AllFound(s.n.delegates, Down(s, body, scopes, generated, id).generated)
    requires Tracked(scopes) == set x | x in params
    requires forall x | Get(env, x).Some? :: Get(env', x).Some? && Same(s, Get(env, x).value, Get(env', x).value)
    requires Eval(s.m, body, PutAll(env, params, vs), w, fuel).Some?
    ensures var o := Eval(s.m, body, PutAll(env, params, vs), w, fuel).value;
            var r := Eval(s.n, Down(s, body, scopes, generated, id).tree, PutAll(env', params, vs'), w, fuel);
            r.Some? && Same(s, o.value, r.value.value) && r.value.world == o.world
    decreases fuel, 2
  {
    hide Eval, Related, Good, Lower, Free, AllFound, Supported;
    var start, start' := PutAll(env, params, vs), PutAll(env', params, vs');
    forall x | x in Free(body) && Get(start, x).Some?
      ensures Get(start', x).Some? && Related(s.order, s.n.delegates, Get(start, x).value, Get(start', x).value)
    {
      PutAllRelated(s.order, s.n.delegates, env, env', params, vs, vs', x);
    }
    forall x | x in Tracked(scopes) ensures Get(start', x).Some? {
      PutAllBinds(env', params, vs', x);
    }
    Simulates(s, body, scopes, generated, id, start, start', Free(body), w, fuel);
  }

  // ---------- operators ----------

  lemma {:induction false} SimBinary<W>(s: Setting<W>, t: Tree, scopes: ScopeStack, generated: seq<Delegate>, id: nat,
                                        env: Env, env': Env, names: set<string>, w: W, fuel: nat)
    requires t.kind.Binary?
    requires Ready(s, t, scopes, generated, id, env, env', names) && Eval(s.m, t, env, w, fuel).Some?
    ensures Matches(s, scopes, names, Eval(s.m, t, env, w, fuel).value,
                    Eval(s.n, Down(s, t, scopes, generated, id).tree, env', w, fuel))
    decreases fuel, 1, t, 2
  {
    hide LowerKids, KidScopes, EnvRelated, AllFound, Bound, Related, EvalAll, Eval, RewriteBinary, SomeLowering,
      BinaryValue;
    KidsReady(s, t, scopes, generated, id, env, env', names);
    StrictEvaluates(s.m, t, env, w, fuel);
    SimAll(s, t.kind, t.kids, 0, scopes, generated, id, env, env', names, w, fuel);
    var ks := LowerKids(s.order, t.kind, t.kids, 0, scopes, generated, id).trees;
    var o := EvalAll(s.m, t.kids, env, w, fuel).value;
    OperateBinary(s, t.kind.op, o.values, EvalAll(s.n, ks, env', w, fuel).value.values, o.world, fuel);
    assert ks == [ks[0], ks[1]];
    BinaryRuns(s.n, t.kind.op, ks[0], ks[1], env', w, fuel);
  }

  /** The lowered form of an operator computes the operator's value. */
  lemma BinaryRuns<W>(n: Machine<W>, op: string, a: Tree, b: Tree, env: Env, w: W, fuel: nat)
    requires "pow" !in n.functions && "mod" !in n.functions
    requires EvalAll(n, [a, b], env, w, fuel).Some?
    requires var o := EvalAll(n, [a, b], env, w, fuel).value;
             Operate(n, Binary(op), o.values, o.world, fuel).Some?
    ensures var o := EvalAll(n, [a, b], env, w, fuel).value;
            var r := Operate(n, Binary(op), o.values, o.world, fuel).value;
            Eval(n, RewriteBinary(op, a, b), env, w, fuel) == Some(Outcome(r.0, o.env, r.1))
  {
    hide EvalAll, Eval, BinaryValue;
    var o := EvalAll(n, [a, b], env, w, fuel).value;
    if op == "^" || op == "%" {
      LibraryRuns(n, op, a, b, env, w, fuel);
    } else if op == "!=" {
      UnequalRuns(n, a, b, env, w, fuel);
    } else if op == "@@" {
      SpacedRuns(n, a, b, env, w, fuel);
    } else {
      StrictEvaluates(n, Tree(Binary(op), [a, b]), env, w, fuel);
    }
  }

  lemma LibraryRuns<W>(n: Machine<W>, op: string, a: Tree, b: Tree, env: Env, w: W, fuel: nat)
    requires op == "^" || op == "%"
    requires "pow" !in n.functions && "mod" !in n.functions && EvalAll(n, [a, b], env, w, fuel).Some?
    requires var o := EvalAll(n, [a, b], env, w, fuel).value;
             Operate(n, Binary(op), o.values, o.world, fuel).Some?
    ensures var o := EvalAll(n, [a, b], env, w, fuel).value;
            var r := Operate(n, Binary(op), o.values, o.world, fuel).value;
            Eval(n, RewriteBinary(op, a, b), env, w, fuel) == Some(Outcome(r.0, o.env, r.1))
  {
    hide EvalAll, Eval;
    StrictEvaluates(n, RewriteBinary(op, a, b), env, w, fuel);
  }

  lemma UnequalRuns<W>(n: Machine<W>, a: Tree, b: Tree, env: Env, w: W, fuel: nat)
    requires EvalAll(n, [a, b], env, w, fuel).Some?
    requires var o := EvalAll(n, [a, b], env, w, fuel).value;
             Operate(n, Binary("!="), o.values, o.world, fuel).Some?
    ensures var o := EvalAll(n, [a, b], env, w, fuel).value;
            var r := Operate(n, Binary("!="), o.values, o.world, fuel).value;
            Eval(n, RewriteBinary("!=", a, b), env, w, fuel) == Some(Outcome(r.0, o.env, r.1))
  {
    hide Eval, Apply;
    var o := EvalAll(n, [a, b], env, w, fuel).value;
    var equals := Tree(Binary("=="), [a, b]);
    StrictEvaluates(n, equals, env, w, fuel);
    var e := Eval(n, equals, env, w, fuel);
    assert e == Some(Outcome(Bool(o.values[0] == o.values[1]), o.env, o.world));
    OneValue(n, equals, env, w, fuel);
    StrictEvaluates(n, Tree(Unary("!"), [equals]), env, w, fuel);
  }

  lemma OneValue<W>(n: Machine<W>, t: Tree, env: Env, w: W, fuel: nat)
    requires Eval(n, t, env, w, fuel).Some?
    ensures var o := Eval(n, t, env, w, fuel).value;
            EvalAll(n, [t], env, w, fuel) == Some(Outcomes([o.value], o.env, o.world))
  {
    hide Eval;
    var o := Eval(n, t, env, w, fuel).value;
    var ts := [t];
    assert ts[1..] == [];
    assert EvalAll(n, ts[1..], o.env, o.world, fuel) == Some(Outcomes([], o.env, o.world));
    assert Eval(n, ts[0], env, w, fuel) == Some(o);
    assert [o.value] + [] == [o.value];
  }

  lemma TwoValues<W>(n: Machine<W>, a: Tree, b: Tree, env: Env, w: W, fuel: nat)
    ensures EvalAll(n, [a, b], env, w, fuel) ==
            match Eval(n, a, env, w, fuel)
            case None => None
            case Some(x) =>
              match Eval(n, b, x.env, x.world, fuel)
              case None => None
              case Some(y) => Some(Outcomes([x.value, y.value], y.env, y.world))
  {
    hide Eval;
    var ts := [a, b];
    assert ts[1..] == [b];
    var x := Eval(n, ts[0], env, w, fuel);
    if x.Some? {
      var e, w1 := x.value.env, x.value.world;
      if Eval(n, b, e, w1, fuel).Some? {
        OneValue(n, b, e, w1, fuel);
        var y := Eval(n, b, e, w1, fuel).value;
        assert EvalAll(n, ts[1..], e, w1, fuel) == Some(Outcomes([y.value], y.env, y.world));
        assert [x.value.value] + [y.value] == [x.value.value, y.value];
      } else {
        assert EvalAll(n, ts[1..], e, w1, fuel).None?;
      }
    }
  }

  lemma SpacedRuns<W>(n: Machine<W>, a: Tree, b: Tree, env: Env, w: W, fuel: nat)
    requires EvalAll(n, [a, b], env, w, fuel).Some?
    requires var o := EvalAll(n, [a, b], env, w, fuel).value;
             Operate(n, Binary("@@"), o.values, o.world, fuel).Some?
    ensures var o := EvalAll(n, [a, b], env, w, fuel).value;
            var r := Operate(n, Binary("@@"), o.values, o.world, fuel).value;
            Eval(n, RewriteBinary("@@", a, b), env, w, fuel) == Some(Outcome(r.0, o.env, r.1))
  {
    hide Eval, Apply, EvalAll;
    TwoValues(n, a, b, env, w, fuel);
    var x := Eval(n, a, env, w, fuel).value;
    var y := Eval(n, b, x.env, x.world, fuel).value;
    var blank := Tree(Text(" "), []);
    BlankRuns(n, x.env, x.world, fuel);
    var inner := Tree(Binary("@"), [a, blank]);
    TwoValues(n, a, blank, env, w, fuel);
    StrictEvaluates(n, inner, env, w, fuel);
    var start := TextOf(n, x.value) + " ";
    assert Eval(n, inner, env, w, fuel) == Some(Outcome(Str(start), x.env, x.world));
    TwoValues(n, inner, b, env, w, fuel);
    StrictEvaluates(n, Tree(Binary("@"), [inner, b]), env, w, fuel);
    assert start + TextOf(n, y.value) == TextOf(n, x.value) + " " + TextOf(n, y.value);
  }

  lemma BlankRuns<W>(n: Machine<W>, env: Env, w: W, fuel: nat)
    ensures Eval(n, Tree(Text(" "), []), env, w, fuel) == Some(Outcome(Str(" "), env, w))
  {
  }

  // ---------- function values ----------

  /** A lambda evaluates to a closure; the lowered form builds a delegate that represents it. */
  lemma SimLambda<W>(s: Setting<W>, t: Tree, scopes: ScopeStack, generated: seq<Delegate>, id: nat, env: Env,
                     env': Env, names: set<string>, w: W, fuel: nat)
    requires t.kind.Lambda?
    requires Ready(s, t, scopes, generated, id, env, env', names) && Eval(s.m, t, env, w, fuel).Some?
    ensures Matches(s, scopes, names, Eval(s.m, t, env, w, fuel).value,
                    Eval(s.n, Down(s, t, scopes, generated, id).tree, env', w, fuel))
  {
    hide LowerKids, KidScopes, EnvRelated, Related, EvalStrict, SomeLowering, Wrapped, Visible, Supported, Free,
      EvalAll, DelegateName, Enumerates;
    var body := t.kids[0];
    ScopesOfFirst(t.kind, scopes);
    KidsOne(s.order, t.kind, t.kids, scopes, generated, id);
    var a := Down(s, body, scopes, generated, id);
    var captured := Visible(s.order, scopes, {});
    var name := DelegateName(a.delegateId + 1);
    var d := Delegate(name, captured, t.kind.params, Wrapped(captured, a.tree));
    var args := seq(|captured|, i requires 0 <= i < |captured| => Tree(Variable(captured[i]), []));
    assert Down(s, t, scopes, generated, id) ==
           Lowered(Tree(New(name), args), a.generated + [d], a.delegateId + 1);
    assert FindDelegate(s.n.delegates, name) == Some(d) by {
      assert (a.generated + [d])[|a.generated|] == d;
    }
    FoundBefore(s.n.delegates, a.generated, a.generated + [d]);
    VisibleAre(s.order, scopes, {});
    CaptureAll(s.n, captured, env', w, fuel);
    var fields := PutAll([], captured, Values(captured, env'));
    DelegateBuilt(s.n, name, d, args, Values(captured, env'), env', w, fuel);
    SupportedLambda(t, scopes);
    assert CompiledIn(s.order, s.n.delegates, t.kind.params, body, name, scopes, generated, id);
    ClosureRelated(s, t, scopes, env, env', names, Instance(name, fields));
  }

  lemma SupportedLambda(t: Tree, scopes: ScopeStack)
    requires t.kind.Lambda? && |t.kids| == 1 && Supported(t, scopes)
    ensures Closable(t.kind.params, t.kids[0], scopes) && Supported(t.kids[0], scopes)
  {
  }

  lemma DelegateBuilt<W>(n: Machine<W>, name: string, d: Delegate, args: seq<Tree>, vs: seq<Value>, env: Env, w: W,
                         fuel: nat)
    requires FindDelegate(n.delegates, name) == Some(d) && |vs| == |d.captured|
    requires EvalAll(n, args, env, w, fuel) == Some(Outcomes(vs, env, w))
    ensures Eval(n, Tree(New(name), args), env, w, fuel) ==
            Some(Outcome(Instance(name, PutAll([], d.captured, vs)), env, w))
  {
    hide Eval, EvalAll;
    StrictEvaluates(n, Tree(New(name), args), env, w, fuel);
  }

  lemma FreeLambda(t: Tree)
    requires t.kind.Lambda? && |t.kids| == 1
    ensures Free(t.kids[0]) - (set x | x in t.kind.params) <= Free(t)
  {
    assert Free(t.kids[0]) <= FreeAll(t.kids);
  }

  /** The delegate's fields are the values that the known variables have. */
  lemma ClosureRelated<W>(s: Setting<W>, t: Tree, scopes: ScopeStack, env: Env, env': Env, names: set<string>,
                          v': Value)
    requires t.kind.Lambda? && |t.kids| == 1 && Closable(t.kind.params, t.kids[0], scopes)
    requires Enumerates(s.order) && Free(t) <= names && Envs(s, names, env, env') && Bound(scopes, env')
    requires v'.Instance? && Compiled(s.order, s.n.delegates, t.kind.params, t.kids[0], v'.typeName)
    requires var captured := Visible(s.order, scopes, {});
             && (forall x | x in captured :: Get(env', x).Some?)
             && FindDelegate(s.n.delegates, v'.typeName).Some?
             && FindDelegate(s.n.delegates, v'.typeName).value.captured == captured
             && v'.fields == PutAll([], captured, Values(captured, env'))
    ensures Same(s, Closure(t.kind.params, t.kids[0], env), v')
  {
    hide Compiled, Enumerates, Visible, Free, PutAll, Values;
    var captured := Visible(s.order, scopes, {});
    VisibleAre(s.order, scopes, {});
    forall x | x in captured ensures Get(v'.fields, x) == Get(env', x) {
      FieldsOf([], captured, env', x);
    }
    FreeLambda(t);
    forall i | 0 <= i < |env| && env[i].name in Free(t.kids[0]) - (set x | x in t.kind.params) &&
               Get(env, env[i].name) == Some(env[i].value)
      ensures Get(v'.fields, env[i].name).Some?
      ensures Related(s.order, s.n.delegates, env[i].value, Get(v'.fields, env[i].name).value)
    {
      assert env[i].name in captured && env[i].name in names;
    }
  }

  lemma {:induction false} SimFunctorCall<W>(s: Setting<W>, t: Tree, scopes: ScopeStack, generated: seq<Delegate>,
                                             id: nat, env: Env, env': Env, names: set<string>, w: W, fuel: nat)
    requires t.kind.Call? && t.kind.functorValue
    requires Ready(s, t, scopes, generated, id, env, env', names) && Eval(s.m, t, env, w, fuel).Some?
    ensures Matches(s, scopes, names, Eval(s.m, t, env, w, fuel).value,
                    Eval(s.n, Down(s, t, scopes, generated, id).tree, env', w, fuel))
    decreases fuel, 1, t, 2
  {
    hide Good, LowerKids, KidScopes, AllFound, Bound, Related, EvalAll, Operate, EvalStrict, Apply;
    var f := t.kind.callee;
    KidsReady(s, t, scopes, generated, id, env, env', names);
    SimAll(s, t.kind, t.kids, 0, scopes, generated, id, env, env', names, w, fuel);
    var ks := LowerKids(s.order, t.kind, t.kids, 0, scopes, generated, id).trees;
    assert f in names;
    var callee, callee' := Get(env, f).value, Get(env', f).value;
    var o, o' := EvalAll(s.m, t.kids, env, w, fuel).value, EvalAll(s.n, ks, env', w, fuel).value;
    SimApply(s, callee, callee', o.values, o'.values, o.world, fuel);
    OnlyFunctionsApply(s, callee, callee', o.values, o.world, fuel);
    InvokeRuns(s.n, f, ks, env', w, fuel);
  }

  lemma OnlyFunctionsApply<W>(s: Setting<W>, v: Value, v': Value, vs: seq<Value>, w: W, fuel: nat)
    requires Same(s, v, v') && Apply(s.m, v, vs, w, fuel).Some?
    ensures !FirstOrder(v')
  {
    RelatedFirstOrder(s.order, s.n.delegates, v, v');
  }

  lemma InvokeRuns<W>(n: Machine<W>, f: string, args: seq<Tree>, env: Env, w: W, fuel: nat)
    requires Get(env, f).Some? && !FirstOrder(Get(env, f).value) && EvalAll(n, args, env, w, fuel).Some?
    ensures var o := EvalAll(n, args, env, w, fuel).value;
            Eval(n, Tree(MethodCall("invoke"), [Tree(Variable(f), [])] + args), env, w, fuel) ==
            match Apply(n, Get(env, f).value, o.values, o.world, fuel)
            case Some(r) => Some(Outcome(r.0, o.env, r.1))
            case None => None
  {
    hide Apply, EvalStrict;
    var v := Tree(Variable(f), []);
    var t := Tree(MethodCall("invoke"), [v] + args);
    var o := EvalAll(n, args, env, w, fuel).value;
    assert Eval(n, v, env, w, fuel) == Some(Outcome(Get(env, f).value, env, w));
    assert ([v] + args)[1..] == args;
    assert EvalAll(n, [v] + args, env, w, fuel) == Some(Outcomes([Get(env, f).value] + o.values, o.env, o.world));
    StrictEvaluates(n, t, env, w, fuel);
    InvokeOperates(n, t, Get(env, f).value, o.values, env, w, fuel);
  }

  lemma InvokeOperates<W>(n: Machine<W>, t: Tree, v: Value, vs: seq<Value>, env: Env, w: W, fuel: nat)
    requires t.kind == MethodCall("invoke") && !FirstOrder(v)
    requires EvalAll(n, t.kids, env, w, fuel).Some? && EvalAll(n, t.kids, env, w, fuel).value.values == [v] + vs
    ensures var o := EvalAll(n, t.kids, env, w, fuel).value;
            EvalStrict(n, t, env, w, fuel) ==
            match Apply(n, v, vs, o.world, fuel)
            case Some(r) => Some(Outcome(r.0, o.env, r.1))
            case None => None
  {
    hide Apply, EvalAll, Eval;
    assert ([v] + vs)[1..] == vs;
  }

  /** The captured values put back into variables. */
  function BindFields(env: Env, names: seq<string>, fields: Env): Env
    requires forall x | x in names :: Get(fields, x).Some?
    decreases names
  {
    if names == [] then env else BindFields(Put(env, names[0], Get(fields, names[0]).value), names[1..], fields)
  }

  lemma {:induction false} BindFieldsGet(env: Env, names: seq<string>, fields: Env, x: string)
    requires forall y | y in names :: Get(fields, y).Some?
    ensures Get(BindFields(env, names, fields), x) == if x in names then Get(fields, x) else Get(env, x)
    decreases names
  {
    if names != [] {
      BindFieldsGet(Put(env, names[0], Get(fields, names[0]).value), names[1..], fields, x);
    }
  }

  lemma SelfMember<W>(n: Machine<W>, x: string, self: Value, env: Env, w: W, fuel: nat)
    requires Get(env, "self") == Some(self) && self.Instance? && Get(self.fields, x).Some?
    ensures Eval(n, Tree(Member(x), [Tree(Variable("self"), [])]), env, w, fuel) ==
            Some(Outcome(Get(self.fields, x).value, env, w))
  {
    var v := Tree(Variable("self"), []);
    assert Eval(n, v, env, w, fuel) == Some(Outcome(self, env, w));
    OneValue(n, v, env, w, fuel);
    StrictEvaluates(n, Tree(Member(x), [v]), env, w, fuel);
  }

  /** What a call makes of the run of the body: its variables are gone. */
  function Answer<W>(o: Option<Outcome<W>>): Option<(Value, W)> {
    match o
    case Some(r) => Some((r.value, r.world))
    case None => None
  }

  /** The wrapped body runs as the body does with the captured variables in place. */
  lemma {:induction false} WrappedRuns<W>(n: Machine<W>, captured: seq<string>, body: Tree, self: Value, env: Env,
                                          w: W, fuel: nat)
    requires Get(env, "self") == Some(self) && self.Instance? && "self" !in captured
    requires forall x | x in captured :: Get(self.fields, x).Some?
    ensures Answer(Eval(n, Wrapped(captured, body), env, w, fuel)) ==
            Answer(Eval(n, body, BindFields(env, captured, self.fields), w, fuel))
    decreases captured
  {
    hide Eval;
    if captured != [] {
      var x := captured[0];
      SelfMember(n, x, self, env, w, fuel);
      WrappedRuns(n, captured[1..], body, self, Put(env, x, Get(self.fields, x).value), w, fuel);
      LetRuns(n, x, Tree(Member(x), [Tree(Variable("self"), [])]), Wrapped(captured[1..], body), env, w, fuel);
    }
  }

  /** Closure conversion: invoking a delegate gives what applying the lambda gives. */
  lemma {:induction false} SimApply<W>(s: Setting<W>, v: Value, v': Value, vs: seq<Value>, vs': seq<Value>, w: W,
                                       fuel: nat)
    requires Good(s) && Same(s, v, v') && SameAll(s, vs, vs') && Apply(s.m, v, vs, w, fuel).Some?
    ensures var o, r := Apply(s.m, v, vs, w, fuel).value, Apply(s.n, v', vs', w, fuel);
            r.Some? && Same(s, o.0, r.value.0) && r.value.1 == o.1
    decreases fuel, 0, 0
  {
    hide Good, Eval, Related, AllRelated, Visible, Free, Lower, Supported, AllFound;
    OnlyClosuresApply(s, v, v', vs, w, fuel);
    var scopes: ScopeStack, generated: seq<Delegate>, id: nat :|
      CompiledIn(s.order, s.n.delegates, v.params, v.body, v'.typeName, scopes, generated, id);
    var captured := Visible(s.order, scopes, {});
    var r := Down(s, v.body, scopes, generated, id);
    SameLength(s, vs, vs');
    var start := PutAll(v.captured, v.params, vs);
    var self' := PutAll([Entry("self", v')], v.params, vs');
    var start' := BindFields(self', captured, v'.fields);
    DelegateEnv(s, v, v', vs, vs', scopes, captured);
    Simulates(s, v.body, scopes, generated, id, start, start', Free(v.body), w, fuel - 1);
    PutAllBinds([Entry("self", v')], v.params, vs', "self");
    WrappedRuns(s.n, captured, r.tree, v', self', w, fuel - 1);
  }

  lemma OnlyClosuresApply<W>(s: Setting<W>, v: Value, v': Value, vs: seq<Value>, w: W, fuel: nat)
    requires Good(s) && Same(s, v, v') && Apply(s.m, v, vs, w, fuel).Some?
    ensures Enumerates(s.order) && v.Closure? && v'.Instance? && fuel > 0 && |vs| == |v.params|
    ensures Compiled(s.order, s.n.delegates, v.params, v.body, v'.typeName)
    ensures HasFields(s.n.delegates, v'.typeName, v'.fields)
  {
    hide Eval, Compiled, SomeLowering;
  }

  /** Inside `invoke`, after the captured variables have been put back, every variable that the body
      uses has the value it has when the lambda is applied. */
  lemma DelegateEnv<W>(s: Setting<W>, v: Value, v': Value, vs: seq<Value>, vs': seq<Value>, scopes: ScopeStack,
                       captured: seq<string>)
    requires Enumerates(s.order) && v.Closure? && v'.Instance? && Same(s, v, v') && SameAll(s, vs, vs') && |vs| == |v.params|
    requires Closable(v.params, v.body, scopes) && captured == Visible(s.order, scopes, {})
    requires forall x | x in captured :: Get(v'.fields, x).Some?
    ensures "self" !in captured
    ensures var start' := BindFields(PutAll([Entry("self", v')], v.params, vs'), captured, v'.fields);
            Envs(s, Free(v.body), PutAll(v.captured, v.params, vs), start') && Bound(scopes, start')
  {
    hide Related, Enumerates, Visible;
    VisibleAre(s.order, scopes, {});
    SameLength(s, vs, vs');
    var start := PutAll(v.captured, v.params, vs);
    var self' := PutAll([Entry("self", v')], v.params, vs');
    var start' := BindFields(self', captured, v'.fields);
    forall x | x in Free(v.body) && Get(start, x).Some?
      ensures Get(start', x).Some? && Related(s.order, s.n.delegates, Get(start, x).value, Get(start', x).value)
    {
      BindFieldsGet(self', captured, v'.fields, x);
      if x in v.params {
        PutAllRelated(s.order, s.n.delegates, v.captured, [Entry("self", v')], v.params, vs, vs', x);
      } else {
        PutAllBinds(v.captured, v.params, vs, x);
        RelatedCapture(s.order, s.n.delegates, v, v', x);
      }
    }
    forall x | x in Tracked(scopes) ensures Get(start', x).Some? {
      BindFieldsGet(self', captured, v'.fields, x);
    }
  }
}
