/** Lowering preserves meaning: a lowered program computes the same value, with the same effects, as
    the program as written, function values being represented by delegates. */
module LoweringCorrectness {
  import opened Wrappers
  import opened Decimal
  import opened Scoping
  import opened LoweringTree
  import opened LoweringSemantics
  import opened LoweringRelation

  // ---------- what is supported ----------

  /** What lowering needs of a program: the body of a for-loop does not use an outer variable called
      `iterable`; a lambda uses only its parameters and variables the scope table knows, uses no
      parameter with the name of such a variable, and `self` is neither; and no type is named like a
      generated one. */
  ghost predicate Supported(t: Tree, scopes: ScopeStack)
    decreases t
  {
    && (match t.kind
        case For(x) => |t.kids| == 2 ==> "iterable" !in Free(t.kids[1]) - {x}
        case Lambda(params) => |t.kids| == 1 ==> Closable(params, t.kids[0], scopes)
        case New(name) => !("Delegate_" <= name)
        case _ => true)
    && forall i | 0 <= i < |t.kids| :: Supported(t.kids[i], KidScopes(t.kind, i, scopes))
  }

  ghost predicate Closable(params: seq<string>, body: Tree, scopes: ScopeStack) {
    && Free(body) <= (set x | x in params) + Tracked(scopes)
    && (forall x | x in params && x in Free(body) :: x !in Tracked(scopes))
    && "self" !in Tracked(scopes) && "self" !in params
  }

  // ---------- related values ----------

  /** The generated types are found under their names. */
  ghost predicate AllFound(ds: seq<Delegate>, generated: seq<Delegate>) {
    forall i | 0 <= i < |generated| :: FindDelegate(ds, generated[i].name) == Some(generated[i])
  }

  /** `name` is the generated type of a lambda visited in `scopes`. */
  ghost predicate CompiledIn(order: set<string> -> seq<string>, ds: seq<Delegate>, params: seq<string>, body: Tree,
                             name: string, scopes: ScopeStack, generated: seq<Delegate>, id: nat)
  {
    var r := Lower(order, body, scopes, generated, id);
    && Closable(params, body, scopes) && Supported(body, scopes) && AllFound(ds, r.generated)
    && FindDelegate(ds, name) ==
       Some(Delegate(name, Visible(order, scopes, {}), params, Wrapped(Visible(order, scopes, {}), r.tree)))
  }

  ghost predicate Compiled(order: set<string> -> seq<string>, ds: seq<Delegate>, params: seq<string>, body: Tree,
                           name: string)
  {
    exists scopes: ScopeStack, generated: seq<Delegate>, id: nat ::
      CompiledIn(order, ds, params, body, name, scopes, generated, id)
  }

  ghost predicate HasFields(ds: seq<Delegate>, name: string, fields: Env) {
    FindDelegate(ds, name).Some? &&
    forall x | x in FindDelegate(ds, name).value.captured :: Get(fields, x).Some?
  }

  /** A value of the program as written and its counterpart after lowering: a closure becomes an
      instance of its generated type that holds the counterparts of all variables its body uses. */
  ghost predicate Related(order: set<string> -> seq<string>, ds: seq<Delegate>, v: Value, v': Value)
    decreases v
  {
    match v
    case Closure(params, body, captured) =>
      && v'.Instance? && Compiled(order, ds, params, body, v'.typeName) && HasFields(ds, v'.typeName, v'.fields)
      && forall i | 0 <= i < |captured| && captured[i].name in Free(body) - (set x | x in params) &&
                    Get(captured, captured[i].name) == Some(captured[i].value) ::
           && Get(v'.fields, captured[i].name).Some?
           && Related(order, ds, captured[i].value, Get(v'.fields, captured[i].name).value)
    case Instance(_, _) => false
    case _ => v == v'
  }

  ghost predicate AllRelated(order: set<string> -> seq<string>, ds: seq<Delegate>, vs: seq<Value>, vs': seq<Value>) {
    |vs| == |vs'| && forall i | 0 <= i < |vs| :: Related(order, ds, vs[i], vs'[i])
  }

  ghost predicate EnvRelated(order: set<string> -> seq<string>, ds: seq<Delegate>, names: set<string>, env: Env,
                             env': Env)
  {
    forall x | x in names && Get(env, x).Some? ::
      Get(env', x).Some? && Related(order, ds, Get(env, x).value, Get(env', x).value)
  }

  ghost predicate Bound(scopes: ScopeStack, env: Env) {
    forall x | x in Tracked(scopes) :: Get(env, x).Some?
  }

  // ---------- related machines ----------

  /** The names of generated types: each once, and numbered. */
  ghost predicate Numbered(ds: seq<Delegate>) {
    forall i | 0 <= i < |ds| :: "Delegate_" <= ds[i].name
  }

  /** A function and its lowered form. */
  ghost predicate FunctionLowered(order: set<string> -> seq<string>, ds: seq<Delegate>, f: Function, f': Function,
                                  scopes: ScopeStack, generated: seq<Delegate>, id: nat)
  {
    var r := Lower(order, f.body, scopes, generated, id);
    && f'.params == f.params && f'.body == r.tree
    && Supported(f.body, scopes) && AllFound(ds, r.generated)
    && Tracked(scopes) == set x | x in f.params
  }

  ghost predicate SomeLowering(order: set<string> -> seq<string>, ds: seq<Delegate>, f: Function, f': Function) {
    exists scopes: ScopeStack, generated: seq<Delegate>, id: nat ::
      FunctionLowered(order, ds, f, f', scopes, generated, id)
  }

  /** Both machines have the same operations; the second has the lowered functions and methods and the
      generated types. Functions called `pow` and `mod` are the library's. */
  ghost predicate MachinesRelated<W>(order: set<string> -> seq<string>, m: Machine<W>, n: Machine<W>) {
    && Enumerates(order)
    && m.delegates == [] && Numbered(n.delegates)
    && n == n.(arithmetic := m.arithmetic, power := m.power, remainder := m.remainder, textOf := m.textOf,
               dispatch := m.dispatch, operation := m.operation)
    && m.functions.Keys == n.functions.Keys && m.methods.Keys == n.methods.Keys
    && "pow" !in m.functions && "mod" !in m.functions
    && (forall f | f in m.functions :: SomeLowering(order, n.delegates, m.functions[f], n.functions[f]))
    && forall k | k in m.methods :: SomeLowering(order, n.delegates, m.methods[k], n.methods[k])
  }

  // ---------- small facts ----------

  lemma RelatedFirstOrder(order: set<string> -> seq<string>, ds: seq<Delegate>, v: Value, v': Value)
    requires Related(order, ds, v, v')
    ensures FirstOrder(v) <==> FirstOrder(v')
    ensures FirstOrder(v) ==> v == v'
  {
  }

  lemma AllRelatedFirstOrder(order: set<string> -> seq<string>, ds: seq<Delegate>, vs: seq<Value>, vs': seq<Value>)
    requires AllRelated(order, ds, vs, vs') && AllFirstOrder(vs)
    ensures vs == vs'
  {
    forall i | 0 <= i < |vs| ensures vs[i] == vs'[i] {
      RelatedFirstOrder(order, ds, vs[i], vs'[i]);
    }
  }

  lemma FirstOrderRelated(order: set<string> -> seq<string>, ds: seq<Delegate>, v: Value)
    requires FirstOrder(v)
    ensures Related(order, ds, v, v)
  {
  }

  lemma {:induction false} PutAllRelated(order: set<string> -> seq<string>, ds: seq<Delegate>, env: Env, env': Env,
                                         xs: seq<string>, vs: seq<Value>, vs': seq<Value>, x: string)
    requires AllRelated(order, ds, vs, vs') && |xs| == |vs|
    requires x !in xs ==> Get(env, x).Some? ==> Get(env', x).Some? && Related(order, ds, Get(env, x).value, Get(env', x).value)
    ensures Get(PutAll(env, xs, vs), x).Some? ==>
              Get(PutAll(env', xs, vs'), x).Some? &&
              Related(order, ds, Get(PutAll(env, xs, vs), x).value, Get(PutAll(env', xs, vs'), x).value)
    decreases xs
  {
    hide Related;
    if xs != [] {
      PutAllRelated(order, ds, Put(env, xs[0], vs[0]), Put(env', xs[0], vs'[0]), xs[1..], vs[1..], vs'[1..], x);
    }
  }

  lemma {:induction false} PutAllBinds(env: Env, xs: seq<string>, vs: seq<Value>, x: string)
    requires |xs| == |vs|
    ensures x in xs ==> Get(PutAll(env, xs, vs), x).Some?
    ensures x !in xs ==> Get(PutAll(env, xs, vs), x) == Get(env, x)
    ensures Get(env, x).Some? ==> Get(PutAll(env, xs, vs), x).Some?
    decreases xs
  {
    if xs != [] {
      PutAllBinds(Put(env, xs[0], vs[0]), xs[1..], vs[1..], x);
    }
  }

  lemma EnvPut(order: set<string> -> seq<string>, ds: seq<Delegate>, names: set<string>, env: Env, env': Env, x: string,
               v: Value, v': Value)
    requires EnvRelated(order, ds, names - {x}, env, env') && Related(order, ds, v, v')
    ensures EnvRelated(order, ds, names + {x}, Put(env, x, v), Put(env', x, v'))
  {
    hide Related;
  }

  lemma EnvRestore(order: set<string> -> seq<string>, ds: seq<Delegate>, names: set<string>, before: Env, before': Env,
                   env: Env, env': Env, x: string)
    requires EnvRelated(order, ds, names, before, before') && EnvRelated(order, ds, names + {x}, env, env')
    ensures EnvRelated(order, ds, names, Restore(env, x, Get(before, x)), Restore(env', x, Get(before', x)))
  {
    hide Related;
  }

  lemma {:induction false} DeclareTracks(scopes: ScopeStack, names: seq<string>)
    requires scopes != []
    ensures Declare(scopes, names) != []
    ensures Tracked(Declare(scopes, names)) == Tracked(scopes) + (set x | x in names)
    decreases names
  {
    if names != [] {
      SavedTracks(scopes, names[0]);
      DeclareTracks(Saved(scopes, names[0], None), names[1..]);
    }
  }

  lemma SavedTracks(scopes: ScopeStack, x: string)
    requires scopes != []
    ensures Saved<string>(scopes, x, None) != [] && Tracked(Saved<string>(scopes, x, None)) == Tracked(scopes) + {x}
  {
    var n := |scopes| - 1;
    var after: ScopeStack := Saved(scopes, x, None);
    assert after[..n] == scopes[..n];
  }

  /** Only `let` and function parameters make variables known to the scope table. */
  lemma KidTracks(kind: Kind, i: nat, scopes: ScopeStack)
    ensures Tracked(KidScopes(kind, i, scopes)) ==
            match kind
            case Let(x) => Tracked(scopes) + (if i == 1 then {x} else {})
            case FunctionDecl(_, params, _) => Tracked(scopes) + (set x | x in params)
            case _ => Tracked(scopes)
  {
    var inner: ScopeStack := scopes + [map[]];
    assert inner[..|scopes|] == scopes;
    assert Tracked(inner) == Tracked(scopes);
    match kind
    case Let(x) => DeclareTracks(inner, [x]);
    case FunctionDecl(_, params, _) => DeclareTracks(inner, params);
    case _ =>
  }

  // ---------- generated types ----------

  lemma RewriteGrows(order: set<string> -> seq<string>, kind: Kind, kids: seq<Tree>, scopes: ScopeStack,
                     generated: seq<Delegate>, id: nat)
    ensures generated <= Rewrite(order, kind, kids, scopes, generated, id).generated
  {
  }

  lemma {:induction false} LowerGrows(order: set<string> -> seq<string>, t: Tree, scopes: ScopeStack,
                                      generated: seq<Delegate>, id: nat)
    ensures generated <= Lower(order, t, scopes, generated, id).generated
    decreases t, 1
  {
    hide Rewrite;
    LowerKidsGrow(order, t.kind, t.kids, 0, scopes, generated, id);
    var ks := LowerKids(order, t.kind, t.kids, 0, scopes, generated, id);
    RewriteGrows(order, t.kind, ks.trees, scopes, ks.generated, ks.delegateId);
  }

  lemma {:induction false} LowerKidsGrow(order: set<string> -> seq<string>, kind: Kind, kids: seq<Tree>, i: nat,
                                         scopes: ScopeStack, generated: seq<Delegate>, id: nat)
    ensures generated <= LowerKids(order, kind, kids, i, scopes, generated, id).generated
    decreases kids, 0
  {
    if kids != [] {
      LowerGrows(order, kids[0], KidScopes(kind, i, scopes), generated, id);
      var first := Lower(order, kids[0], KidScopes(kind, i, scopes), generated, id);
      LowerKidsGrow(order, kind, kids[1..], i + 1, scopes, first.generated, first.delegateId);
    }
  }

  lemma FoundBefore(ds: seq<Delegate>, a: seq<Delegate>, b: seq<Delegate>)
    requires a <= b && AllFound(ds, b)
    ensures AllFound(ds, a)
  {
  }

  lemma {:induction false} NumberedFinds(ds: seq<Delegate>, name: string)
    requires Numbered(ds) && !("Delegate_" <= name)
    ensures FindDelegate(ds, name) == None
  {
    if ds != [] {
      NumberedFinds(ds[1..], name);
    }
  }

  // ---------- reading environments ----------

  /** What a closure's body can reach, in the closure and in its delegate. */
  lemma RelatedCapture(order: set<string> -> seq<string>, ds: seq<Delegate>, v: Value, v': Value, x: string)
    requires v.Closure? && Related(order, ds, v, v') && x in Free(v.body) && x !in v.params
    requires Get(v.captured, x).Some?
    ensures Get(v'.fields, x).Some? && Related(order, ds, Get(v.captured, x).value, Get(v'.fields, x).value)
  {
    var i :| 0 <= i < |v.captured| && v.captured[i] == Entry(x, Get(v.captured, x).value);
  }

  /** Building the delegate of a lambda captures every known variable. */
  lemma {:induction false} CaptureAll<W>(n: Machine<W>, names: seq<string>, env: Env, w: W, fuel: nat)
    requires forall x | x in names :: Get(env, x).Some?
    ensures EvalAll(n, seq(|names|, i requires 0 <= i < |names| => Tree(Variable(names[i]), [])), env, w, fuel) ==
            Some(Outcomes(Values(names, env), env, w))
    decreases names
  {
    hide EvalStrict;
    var ts := seq(|names|, i requires 0 <= i < |names| => Tree(Variable(names[i]), []));
    if names != [] {
      CaptureAll(n, names[1..], env, w, fuel);
      assert ts[1..] == seq(|names[1..]|, i requires 0 <= i < |names[1..]| => Tree(Variable(names[1..][i]), []));
      assert Eval(n, ts[0], env, w, fuel) == Some(Outcome(Get(env, names[0]).value, env, w));
    }
  }

  function Values(names: seq<string>, env: Env): (vs: seq<Value>)
    requires forall x | x in names :: Get(env, x).Some?
    ensures |vs| == |names|
  {
    if names == [] then [] else [Get(env, names[0]).value] + Values(names[1..], env)
  }

  lemma {:induction false} FieldsOf(fields: Env, names: seq<string>, env: Env, x: string)
    requires forall y | y in names :: Get(env, y).Some?
    ensures Get(PutAll(fields, names, Values(names, env)), x) == if x in names then Get(env, x) else Get(fields, x)
    decreases names
  {
    if names != [] {
      FieldsOf(Put(fields, names[0], Get(env, names[0]).value), names[1..], env, x);
    }
  }
}
