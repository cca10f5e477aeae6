/** When lowering preserves meaning: what the delegate of any lambda and the loop that any for-loop
    turns into compute, and so exactly when they compute what was written. */
module LoweringExactly {
  import opened Wrappers
  import opened Scoping
  import opened LoweringTree
  import opened LoweringSemantics
  import opened LoweringRelation
  import opened LoweringCorrectness
  import opened LoweringSimulation

  // ---------- lambdas ----------

  /** A lambda and where lowering meets it. */
  datatype Site = Site(order: set<string> -> seq<string>, params: seq<string>, body: Tree, scopes: ScopeStack,
                       generated: seq<Delegate>, id: nat)

  function Source(s: Site): Tree {
    Tree(Lambda(s.params), [s.body])
  }

  function Result(s: Site): Lowered {
    Lower(s.order, Source(s), s.scopes, s.generated, s.id)
  }

  function Inner(s: Site): Lowered {
    Lower(s.order, s.body, s.scopes, s.generated, s.id)
  }

  function Captured(s: Site): seq<string> {
    Visible(s.order, s.scopes, {})
  }

  function TypeName(s: Site): string {
    DelegateName(Inner(s).delegateId + 1)
  }

  /** The type that lowering generates last for the lambda is among the program's. */
  ghost predicate Declared(s: Site, ds: seq<Delegate>) {
    var g := Result(s).generated;
    g != [] && FindDelegate(ds, g[|g| - 1].name) == Some(g[|g| - 1])
  }

  /** `self` is left for the delegate. */
  ghost predicate SelfFree(s: Site) {
    "self" !in Tracked(s.scopes) && "self" !in s.params
  }

  lemma LambdaLowers(s: Site)
    ensures Result(s) ==
            Lowered(Tree(New(TypeName(s)), seq(|Captured(s)|, i requires 0 <= i < |Captured(s)| => Tree(Variable(Captured(s)[i]), []))),
                    Inner(s).generated + [Delegate(TypeName(s), Captured(s), s.params, Wrapped(Captured(s), Inner(s).tree))],
                    Inner(s).delegateId + 1)
  {
    hide LowerKids, Wrapped, Visible, DelegateName;
    KidsOne(s.order, Lambda(s.params), [s.body], s.scopes, s.generated, s.id);
  }

  /** The delegate that the lowered lambda builds. */
  function Built(s: Site, env: Env): Value
    requires forall x | x in Captured(s) :: Get(env, x).Some?
  {
    Instance(TypeName(s), PutAll([], Captured(s), Values(Captured(s), env)))
  }

  /** The variables inside `invoke`, once the captured ones have been put back. */
  function Inside(s: Site, env: Env, vs: seq<Value>): Env
    requires forall x | x in Captured(s) :: Get(env, x).Some?
  {
    BindFields(PutAll([Entry("self", Built(s, env))], s.params, vs), Captured(s), env)
  }

  lemma CapturedBound(s: Site, env: Env)
    requires Enumerates(s.order)
    ensures Bound(s.scopes, env) <==> forall x | x in Captured(s) :: Get(env, x).Some?
    ensures forall x :: x in Captured(s) <==> x in Tracked(s.scopes)
  {
    VisibleAre(s.order, s.scopes, {});
  }

  /** The lowered lambda builds a delegate exactly when all variables of the scope table have values. */
  lemma Builds<W>(s: Site, n: Machine<W>, env: Env, w: W, fuel: nat)
    requires Enumerates(s.order) && Declared(s, n.delegates)
    ensures Bound(s.scopes, env) <==> forall x | x in Captured(s) :: Get(env, x).Some?
    ensures Eval(n, Result(s).tree, env, w, fuel) ==
            if Bound(s.scopes, env) then Some(Outcome(Built(s, env), env, w)) else None
  {
    hide Eval, EvalAll, Enumerates, Visible, Wrapped, Lower, DelegateName, Get;
    LambdaLowers(s);
    CapturedBound(s, env);
    var captured := Captured(s);
    var args := seq(|captured|, i requires 0 <= i < |captured| => Tree(Variable(captured[i]), []));
    assert Result(s).tree == Tree(New(TypeName(s)), args) && |args| == |captured|;
    var d := Delegate(TypeName(s), captured, s.params, Wrapped(captured, Inner(s).tree));
    if Bound(s.scopes, env) {
      CaptureAll(n, captured, env, w, fuel);
      DelegateBuilt(n, TypeName(s), d, args, Values(captured, env), env, w, fuel);
    } else {
      CaptureFails(n, captured, env, w, fuel);
      StrictFails(n, Tree(New(TypeName(s)), args), env, w, fuel);
    }
  }

  lemma StrictFails<W>(n: Machine<W>, t: Tree, env: Env, w: W, fuel: nat)
    requires Strict(t.kind) && EvalAll(n, t.kids, env, w, fuel) == None
    ensures Eval(n, t, env, w, fuel) == None
  {
    hide Eval, EvalAll;
    StrictEvaluates(n, t, env, w, fuel);
  }

  lemma {:induction false} CaptureFails<W>(n: Machine<W>, names: seq<string>, env: Env, w: W, fuel: nat)
    requires exists x | x in names :: Get(env, x).None?
    ensures EvalAll(n, seq(|names|, i requires 0 <= i < |names| => Tree(Variable(names[i]), [])), env, w, fuel) == None
    decreases names
  {
    hide EvalStrict;
    var ts := seq(|names|, i requires 0 <= i < |names| => Tree(Variable(names[i]), []));
    assert ts[1..] == seq(|names[1..]|, i requires 0 <= i < |names[1..]| => Tree(Variable(names[1..][i]), []));
    if Get(env, names[0]).Some? {
      CaptureFails(n, names[1..], env, w, fuel);
      assert Eval(n, ts[0], env, w, fuel) == Some(Outcome(Get(env, names[0]).value, env, w));
    } else {
      assert Eval(n, ts[0], env, w, fuel) == None;
    }
  }

  /** Putting back the fields is putting back the variables they were filled from. */
  lemma {:induction false} FieldsBack(start: Env, names: seq<string>, fields: Env, env: Env)
    requires forall x | x in names :: Get(fields, x).Some? && Get(fields, x) == Get(env, x)
    ensures BindFields(start, names, fields) == BindFields(start, names, env)
    decreases names
  {
    if names != [] {
      FieldsBack(Put(start, names[0], Get(env, names[0]).value), names[1..], fields, env);
    }
  }

  /** The variables after the captured ones have been read from whatever `self` then is. */
  function Opened<W>(n: Machine<W>, captured: seq<string>, env: Env, w: W, fuel: nat): Option<(Env, W)>
    decreases captured
  {
    if captured == [] then Some((env, w))
    else
      var self :- Get(env, "self");
      var v :- Operate(n, Member(captured[0]), [self], w, fuel);
      Opened(n, captured[1..], Put(env, captured[0], v.0), v.1, fuel)
  }

  lemma {:induction false} WrappedOpens<W>(n: Machine<W>, captured: seq<string>, body: Tree, env: Env, w: W, fuel: nat)
    ensures Answer(Eval(n, Wrapped(captured, body), env, w, fuel)) ==
            match Opened(n, captured, env, w, fuel)
            case None => None
            case Some(e) => Answer(Eval(n, body, e.0, e.1, fuel))
    decreases captured
  {
    hide Eval, Operate, Get, Put;
    if captured != [] {
      var x := captured[0];
      MemberRuns(n, x, env, w, fuel);
      LetExactly(n, x, Tree(Member(x), [Tree(Variable("self"), [])]), Wrapped(captured[1..], body), env, w, fuel);
      var v := Eval(n, Tree(Member(x), [Tree(Variable("self"), [])]), env, w, fuel);
      if v.Some? {
        WrappedOpens(n, captured[1..], body, Put(env, x, v.value.value), v.value.world, fuel);
      }
    }
  }

  lemma MemberRuns<W>(n: Machine<W>, x: string, env: Env, w: W, fuel: nat)
    ensures Eval(n, Tree(Member(x), [Tree(Variable("self"), [])]), env, w, fuel) ==
            match Get(env, "self")
            case None => None
            case Some(self) =>
              match Operate(n, Member(x), [self], w, fuel)
              case Some(r) => Some(Outcome(r.0, env, r.1))
              case None => None
  {
    hide Eval, EvalAll, Operate, Get;
    var v := Tree(Variable("self"), []);
    VariableRuns(n, "self", env, w, fuel);
    if Get(env, "self").Some? {
      OneValue(n, v, env, w, fuel);
      StrictEvaluates(n, Tree(Member(x), [v]), env, w, fuel);
    } else {
      NoValue(n, v, env, w, fuel);
      StrictFails(n, Tree(Member(x), [v]), env, w, fuel);
    }
  }

  /** For any lambda in any scopes, even one that calls a variable or a parameter `self`: the delegate
      runs the lowered body after reading the captured variables from whatever `self` then is. */
  lemma DelegateOpens<W>(s: Site, n: Machine<W>, env: Env, vs: seq<Value>, w: W, fuel: nat)
    requires Declared(s, n.delegates) && fuel > 0 && |vs| == |s.params|
    requires forall x | x in Captured(s) :: Get(env, x).Some?
    ensures Apply(n, Built(s, env), vs, w, fuel) ==
            match Opened(n, Captured(s), PutAll([Entry("self", Built(s, env))], s.params, vs), w, fuel - 1)
            case None => None
            case Some(e) => Answer(Eval(n, Inner(s).tree, e.0, e.1, fuel - 1))
  {
    hide Eval, Visible, Lower, DelegateName, Get, Wrapped, PutAll, Values, Opened;
    LambdaLowers(s);
    WrappedOpens(n, Captured(s), Inner(s).tree, PutAll([Entry("self", Built(s, env))], s.params, vs), w, fuel - 1);
  }

  /** Where `self` is left to the delegate, for any lambda in any scopes: invoking the delegate runs the
      lowered body with the captured variables laid over the parameters. */
  lemma DelegateRuns<W>(s: Site, n: Machine<W>, env: Env, vs: seq<Value>, w: W, fuel: nat)
    requires Enumerates(s.order) && Declared(s, n.delegates) && SelfFree(s)
    requires forall x | x in Captured(s) :: Get(env, x).Some?
    requires fuel > 0 && |vs| == |s.params|
    ensures Apply(n, Built(s, env), vs, w, fuel) ==
            Answer(Eval(n, Inner(s).tree, Inside(s, env, vs), w, fuel - 1))
  {
    hide Eval, Enumerates, Visible, Lower, DelegateName, Get, Wrapped, BindFields, PutAll, Values;
    LambdaLowers(s);
    CapturedBound(s, env);
    var self := Built(s, env);
    var start := PutAll([Entry("self", self)], s.params, vs);
    forall x | x in Captured(s) ensures Get(self.fields, x).Some? && Get(self.fields, x) == Get(env, x) {
      FieldsOf([], Captured(s), env, x);
    }
    SelfBound(s, self, vs);
    FieldsBack(start, Captured(s), self.fields, env);
    WrappedRuns(n, Captured(s), Inner(s).tree, self, start, w, fuel - 1);
  }

  lemma SelfBound(s: Site, self: Value, vs: seq<Value>)
    requires SelfFree(s) && |vs| == |s.params|
    ensures Get(PutAll([Entry("self", self)], s.params, vs), "self") == Some(self)
  {
    PutAllBinds([Entry("self", self)], s.params, vs, "self");
  }

  /** The variables of the lambda's body as its delegate sees them: first the captured ones, then the
      parameters, and no others. */
  function Seen(s: Site, env: Env, vs: seq<Value>): Env
    requires forall x | x in Captured(s) :: Get(env, x).Some?
  {
    BindFields(PutAll([], s.params, vs), Captured(s), env)
  }

  /** Each name in the body means in the delegate what it means in the lambda. */
  ghost predicate NamesKept(s: Site, env: Env, vs: seq<Value>)
    requires forall x | x in Captured(s) :: Get(env, x).Some?
  {
    forall x | x in Free(s.body) :: Get(Seen(s, env, vs), x) == Get(PutAll(env, s.params, vs), x)
  }

  ghost predicate AlwaysKept(s: Site) {
    forall env: Env, vs: seq<Value> | (forall x | x in Captured(s) :: Get(env, x).Some?) && |vs| == |s.params| ::
      NamesKept(s, env, vs)
  }

  /** The condition on lambdas is exact: names keep their meaning, whatever the variables and arguments,
      if and only if each is a parameter or a known variable and no used parameter hides behind one. */
  lemma ClosableExactly(s: Site)
    requires Enumerates(s.order) && SelfFree(s)
    ensures AlwaysKept(s) <==> Closable(s.params, s.body, s.scopes)
  {
    hide Enumerates, Visible, Get, BindFields, PutAll, Free;
    CapturedBound(s, []);
    if Closable(s.params, s.body, s.scopes) {
      forall env: Env, vs: seq<Value> | (forall x | x in Captured(s) :: Get(env, x).Some?) && |vs| == |s.params|
        ensures NamesKept(s, env, vs)
      {
        forall x | x in Free(s.body) ensures Get(Seen(s, env, vs), x) == Get(PutAll(env, s.params, vs), x) {
          SeenGet(s, env, vs, x);
        }
      }
    } else {
      var x :| x in Free(s.body) && (x in s.params <==> x in Captured(s));
      var env := Flat(Captured(s) + [x], Num(0.0));
      var vs := seq(|s.params|, _ => Num(1.0));
      FlatGet(Captured(s) + [x], Num(0.0));
      assert forall y | y in Captured(s) :: y in Captured(s) + [x];
      assert x in Captured(s) + [x];
      SeenGet(s, env, vs, x);
      PutAllSame(env, s.params, vs, Num(1.0), x);
      assert !NamesKept(s, env, vs);
    }
  }

  /** What a name means in the delegate. */
  lemma SeenGet(s: Site, env: Env, vs: seq<Value>, x: string)
    requires |vs| == |s.params| && forall y | y in Captured(s) :: Get(env, y).Some?
    ensures Get(Seen(s, env, vs), x) ==
            if x in Captured(s) then Get(env, x)
            else if x in s.params then Get(PutAll(env, s.params, vs), x) else None
    ensures x !in s.params ==> Get(PutAll(env, s.params, vs), x) == Get(env, x)
  {
    hide Visible;
    BindFieldsGet(PutAll([], s.params, vs), Captured(s), env, x);
    PutAllBinds([], s.params, vs, x);
    PutAllBinds(env, s.params, vs, x);
    if x in s.params {
      PutAllHides([], env, s.params, vs, x);
    }
  }

  lemma {:induction false} PutAllHides(a: Env, b: Env, xs: seq<string>, vs: seq<Value>, x: string)
    requires |vs| == |xs| && (x in xs || Get(a, x) == Get(b, x))
    ensures Get(PutAll(a, xs, vs), x) == Get(PutAll(b, xs, vs), x)
    decreases xs
  {
    if xs != [] {
      PutAllHides(Put(a, xs[0], vs[0]), Put(b, xs[0], vs[0]), xs[1..], vs[1..], x);
    }
  }

  lemma {:induction false} PutAllSame(env: Env, xs: seq<string>, vs: seq<Value>, v: Value, x: string)
    requires |vs| == |xs| && forall i | 0 <= i < |vs| :: vs[i] == v
    ensures Get(PutAll(env, xs, vs), x) == if x in xs then Some(v) else Get(env, x)
    decreases xs
  {
    if xs != [] {
      PutAllSame(Put(env, xs[0], vs[0]), xs[1..], vs[1..], v, x);
    }
  }

  function Flat(names: seq<string>, v: Value): Env {
    seq(|names|, i requires 0 <= i < |names| => Entry(names[i], v))
  }

  lemma {:induction false} FlatGet(names: seq<string>, v: Value)
    ensures forall x :: Get(Flat(names, v), x) == if x in names then Some(v) else None
    decreases names
  {
    if names != [] {
      var k := |names| - 1;
      FlatGet(names[..k], v);
      assert Flat(names, v)[..k] == Flat(names[..k], v);
      assert names == names[..k] + [names[k]];
    }
  }

  /** A lambda whose body is supported, whatever its variables and parameters are called: where the
      body as written runs on the names as the delegate sees them, the delegate does the same. */
  lemma DelegateMeans<W>(c: Setting<W>, s: Site, env: Env, env': Env, vs: seq<Value>, vs': seq<Value>, w: W, fuel: nat)
    requires Good(c) && s.order == c.order && Supported(s.body, s.scopes) && SelfFree(s)
    requires AllFound(c.n.delegates, Result(s).generated)
    requires Bound(s.scopes, env) && Bound(s.scopes, env') && Envs(c, Tracked(s.scopes), env, env')
    requires forall x | x in Captured(s) :: Get(env, x).Some? && Get(env', x).Some?
    requires SameAll(c, vs, vs') && |vs| == |s.params| && fuel > 0
    requires Eval(c.m, s.body, Seen(s, env, vs), w, fuel - 1).Some?
    ensures var o := Eval(c.m, s.body, Seen(s, env, vs), w, fuel - 1).value;
            var r := Apply(c.n, Built(s, env'), vs', w, fuel);
            r.Some? && Same(c, o.value, r.value.0) && r.value.1 == o.world
  {
    hide Good, Eval, Lower, Related, Visible, Supported, Apply, Wrapped, Get, BindFields, PutAll, Free, DelegateName, Values;
    GoodEnumerates(c);
    LambdaLowers(s);
    CapturedBound(s, env');
    SameLength(c, vs, vs');
    var g := Result(s).generated;
    assert g[|g| - 1] == (Inner(s).generated + [g[|g| - 1]])[|Inner(s).generated|];
    FoundBefore(c.n.delegates, Inner(s).generated, g);
    DelegateRuns(s, c.n, env', vs', w, fuel);
    SeenRelated(c, s, env, env', vs, vs');
    Simulates(c, s.body, s.scopes, s.generated, s.id, Seen(s, env, vs), Inside(s, env', vs'), Free(s.body), w, fuel - 1);
  }

  lemma GoodEnumerates<W>(c: Setting<W>)
    requires Good(c)
    ensures Enumerates(c.order)
  {
  }

  lemma SeenRelated<W>(c: Setting<W>, s: Site, env: Env, env': Env, vs: seq<Value>, vs': seq<Value>)
    requires Enumerates(s.order) && Envs(c, Tracked(s.scopes), env, env') && SelfFree(s)
    requires forall x | x in Captured(s) :: Get(env, x).Some? && Get(env', x).Some?
    requires SameAll(c, vs, vs') && |vs| == |s.params| == |vs'|
    ensures Envs(c, Free(s.body), Seen(s, env, vs), Inside(s, env', vs')) && Bound(s.scopes, Inside(s, env', vs'))
  {
    hide Related, Visible, Enumerates, Free, BindFields, PutAll, Get;
    CapturedBound(s, env');
    var start, start' := PutAll([], s.params, vs), PutAll([Entry("self", Built(s, env'))], s.params, vs');
    forall x | Get(Seen(s, env, vs), x).Some?
      ensures Get(Inside(s, env', vs'), x).Some?
      ensures Same(c, Get(Seen(s, env, vs), x).value, Get(Inside(s, env', vs'), x).value)
    {
      BindFieldsGet(start, Captured(s), env, x);
      BindFieldsGet(start', Captured(s), env', x);
      NothingYet(x);
      PutAllRelated(c.order, c.n.delegates, [], [Entry("self", Built(s, env'))], s.params, vs, vs', x);
    }
    forall x | x in Tracked(s.scopes) ensures Get(Inside(s, env', vs'), x).Some? {
      BindFieldsGet(start', Captured(s), env', x);
    }
  }

  lemma NothingYet(x: string)
    ensures Get([], x) == None
  {
  }

  /** So the delegate gives a lambda's plain value and effect exactly when the body as written gives
      them on the names as the delegate sees them. */
  lemma DelegateExactly<W>(c: Setting<W>, s: Site, env: Env, env': Env, vs: seq<Value>, vs': seq<Value>, w: W,
                           fuel: nat)
    requires Good(c) && s.order == c.order && Supported(s.body, s.scopes) && SelfFree(s)
    requires AllFound(c.n.delegates, Result(s).generated)
    requires Bound(s.scopes, env) && Bound(s.scopes, env') && Envs(c, Tracked(s.scopes), env, env')
    requires forall x | x in Captured(s) :: Get(env, x).Some? && Get(env', x).Some?
    requires SameAll(c, vs, vs') && |vs| == |s.params| && fuel > 0
    requires Eval(c.m, s.body, Seen(s, env, vs), w, fuel - 1).Some?
    requires var p := Apply(c.m, Closure(s.params, s.body, env), vs, w, fuel); p.Some? && FirstOrder(p.value.0)
    ensures Apply(c.n, Built(s, env'), vs', w, fuel) == Apply(c.m, Closure(s.params, s.body, env), vs, w, fuel) <==>
            Answer(Eval(c.m, s.body, Seen(s, env, vs), w, fuel - 1)) ==
            Answer(Eval(c.m, s.body, PutAll(env, s.params, vs), w, fuel - 1))
  {
    hide Good, Eval, Lower, Related, Visible, Supported, Get, BindFields, PutAll, Free, Values, AllFound;
    DelegateMeans(c, s, env, env', vs, vs', w, fuel);
    var o := Eval(c.m, s.body, Seen(s, env, vs), w, fuel - 1).value;
    var r := Apply(c.n, Built(s, env'), vs', w, fuel).value;
    RelatedFirstOrder(c.order, c.n.delegates, o.value, r.0);
  }

  // ---------- loops ----------

  /** The rounds of a loop that asks whatever `iterable` is bound to, before each round. */
  function AskingRounds<W>(m: Machine<W>, x: string, body: Tree, env: Env, w: W, fuel: nat): Option<Outcome<W>>
    decreases fuel
  {
    if fuel == 0 then None
    else
      var it :- Get(env, "iterable");
      var more :- Operate(m, MethodCall("next"), [it], w, fuel);
      if more.0 == Bool(true) then
        var current :- Operate(m, MethodCall("current"), [it], more.1, fuel);
        var b :- Eval(m, body, Put(env, x, current.0), current.1, fuel);
        AskingRounds(m, x, body, Restore(b.env, x, Get(env, x)), b.world, fuel - 1)
      else if more.0 == Bool(false) then Some(Outcome(Unit, env, more.1))
      else None
  }

  /** A for-loop whose object is called `iterable` while the loop runs. */
  function AskingLoop<W>(m: Machine<W>, x: string, iter: Tree, body: Tree, env: Env, w: W, fuel: nat)
    : Option<Outcome<W>>
  {
    var i :- Eval(m, iter, env, w, fuel);
    var r :- AskingRounds(m, x, body, Put(i.env, "iterable", i.value), i.world, fuel);
    Some(Outcome(r.value, Restore(r.env, "iterable", Get(i.env, "iterable")), r.world))
  }

  lemma AskRuns<W>(n: Machine<W>, selector: string, env: Env, w: W, fuel: nat)
    ensures Eval(n, Tree(MethodCall(selector), [Tree(Variable("iterable"), [])]), env, w, fuel) ==
            match Get(env, "iterable")
            case None => None
            case Some(it) =>
              match Operate(n, MethodCall(selector), [it], w, fuel)
              case Some(r) => Some(Outcome(r.0, env, r.1))
              case None => None
  {
    hide Eval, EvalAll, Operate, Get;
    var v := Tree(Variable("iterable"), []);
    VariableRuns(n, "iterable", env, w, fuel);
    StrictEvaluates(n, Tree(MethodCall(selector), [v]), env, w, fuel);
    if Get(env, "iterable").Some? {
      OneValue(n, v, env, w, fuel);
    } else {
      NoValue(n, v, env, w, fuel);
    }
  }

  lemma NoValue<W>(n: Machine<W>, t: Tree, env: Env, w: W, fuel: nat)
    requires Eval(n, t, env, w, fuel) == None
    ensures EvalAll(n, [t], env, w, fuel) == None
  {
    hide Eval;
    assert [t][0] == t;
  }

  lemma VariableRuns<W>(m: Machine<W>, x: string, env: Env, w: W, fuel: nat)
    ensures Eval(m, Tree(Variable(x), []), env, w, fuel) ==
            match Get(env, x)
            case Some(v) => Some(Outcome(v, env, w))
            case None => None
  {
    hide EvalStrict, EvalAll;
  }

  lemma WhileExactly<W>(n: Machine<W>, c: Tree, b: Tree, env: Env, w: W, fuel: nat)
    requires fuel > 0
    ensures Eval(n, Tree(While, [c, b]), env, w, fuel) ==
            match Eval(n, c, env, w, fuel)
            case None => None
            case Some(o) =>
              if o.value == Bool(true) then
                match Eval(n, b, o.env, o.world, fuel)
                case None => None
                case Some(r) => Eval(n, Tree(While, [c, b]), r.env, r.world, fuel - 1)
              else if o.value == Bool(false) then Some(Outcome(Unit, o.env, o.world))
              else None
  {
    hide EvalStrict, EvalAll;
  }

  lemma LetExactly<W>(n: Machine<W>, x: string, init: Tree, body: Tree, env: Env, w: W, fuel: nat)
    ensures Eval(n, Tree(Let(x), [init, body]), env, w, fuel) ==
            match Eval(n, init, env, w, fuel)
            case None => None
            case Some(i) =>
              match Eval(n, body, Put(i.env, x, i.value), i.world, fuel)
              case None => None
              case Some(o) => Some(Outcome(o.value, Restore(o.env, x, Get(i.env, x)), o.world))
  {
    hide EvalStrict, EvalAll;
  }

  /** The while-loop that a for-loop turns into, for any body. */
  lemma {:induction false} RoundsAsk<W>(n: Machine<W>, x: string, body: Tree, env: Env, w: W, fuel: nat)
    ensures Eval(n, Rounds(x, body), env, w, fuel) == AskingRounds(n, x, body, env, w, fuel)
    decreases fuel
  {
    hide Eval, Operate, Get, Put, Restore;
    if fuel == 0 {
      NoFuel(n, x, body, env, w);
    } else {
      var v := Tree(Variable("iterable"), []);
      var next, current := Tree(MethodCall("next"), [v]), Tree(MethodCall("current"), [v]);
      var bind := Tree(Let(x), [current, body]);
      assert Rounds(x, body) == Tree(While, [next, Tree(Block, [bind])]);
      AskRuns(n, "next", env, w, fuel);
      WhileExactly(n, next, Tree(Block, [bind]), env, w, fuel);
      var c := Eval(n, next, env, w, fuel);
      if c.Some? && c.value.value == Bool(true) {
        AskRuns(n, "current", env, c.value.world, fuel);
        SingleBlock(n, bind, env, c.value.world, fuel);
        LetExactly(n, x, current, body, env, c.value.world, fuel);
        var b := Eval(n, bind, env, c.value.world, fuel);
        if b.Some? {
          RoundsAsk(n, x, body, b.value.env, b.value.world, fuel - 1);
        }
      }
    }
  }

  lemma NoFuel<W>(n: Machine<W>, x: string, body: Tree, env: Env, w: W)
    ensures Eval(n, Rounds(x, body), env, w, 0) == None
  {
    hide EvalStrict, EvalAll;
  }

  lemma ForLowers(order: set<string> -> seq<string>, t: Tree, scopes: ScopeStack, generated: seq<Delegate>, id: nat)
    requires t.kind.For? && |t.kids| == 2
    ensures var a := Lower(order, t.kids[0], scopes, generated, id);
            var b := Lower(order, t.kids[1], KidScopes(t.kind, 1, scopes), a.generated, a.delegateId);
            && Lower(order, t, scopes, generated, id) ==
               Lowered(ForLoop(t.kind.variable, a.tree, b.tree), b.generated, b.delegateId)
            && a.generated <= b.generated
  {
    hide LowerKids, ForLoop;
    ScopesOfFirst(t.kind, scopes);
    GrowsTwo(order, t.kind, t.kids, scopes, generated, id);
  }

  /** For any for-loop in any scopes: the lowered loop asks the variable `iterable` before each round. */
  lemma LoopRuns<W>(order: set<string> -> seq<string>, n: Machine<W>, t: Tree, scopes: ScopeStack,
                    generated: seq<Delegate>, id: nat, env: Env, w: W, fuel: nat)
    requires t.kind.For? && |t.kids| == 2
    ensures var a := Lower(order, t.kids[0], scopes, generated, id);
            var b := Lower(order, t.kids[1], KidScopes(t.kind, 1, scopes), a.generated, a.delegateId);
            Eval(n, Lower(order, t, scopes, generated, id).tree, env, w, fuel) ==
            AskingLoop(n, t.kind.variable, a.tree, b.tree, env, w, fuel)
  {
    hide Eval, Lower, KidScopes, AskingLoop, ForLoop;
    ForLowers(order, t, scopes, generated, id);
    var a := Lower(order, t.kids[0], scopes, generated, id);
    var b := Lower(order, t.kids[1], KidScopes(t.kind, 1, scopes), a.generated, a.delegateId);
    LoopAsks(n, t.kind.variable, a.tree, b.tree, env, w, fuel);
  }

  lemma LoopAsks<W>(n: Machine<W>, x: string, iter: Tree, body: Tree, env: Env, w: W, fuel: nat)
    ensures Eval(n, ForLoop(x, iter, body), env, w, fuel) == AskingLoop(n, x, iter, body, env, w, fuel)
  {
    hide Eval, AskingRounds, Put, Get, Restore, Rounds, ForLoop;
    LoopIsLet(x, iter, body);
    LetExactly(n, "iterable", iter, Rounds(x, body), env, w, fuel);
    var i := Eval(n, iter, env, w, fuel);
    if i.Some? {
      RoundsAsk(n, x, body, Put(i.value.env, "iterable", i.value.value), i.value.world, fuel);
    }
  }

  /** A for-loop whose parts are supported, whatever its body calls its variables. */
  ghost predicate LoopReady<W>(c: Setting<W>, t: Tree, scopes: ScopeStack, generated: seq<Delegate>, id: nat, env: Env,
                               env': Env, names: set<string>)
  {
    && t.kind.For? && |t.kids| == 2 && Good(c)
    && Supported(t.kids[0], scopes) && Supported(t.kids[1], KidScopes(t.kind, 1, scopes))
    && Free(t) <= names && Envs(c, names, env, env') && Bound(scopes, env')
    && AllFound(c.n.delegates, Down(c, t, scopes, generated, id).generated)
  }

  /** Where the loop as written, asking the variable `iterable`, runs to the end, the lowered loop does
      the same. */
  lemma LoopMeans<W>(c: Setting<W>, t: Tree, scopes: ScopeStack, generated: seq<Delegate>, id: nat, env: Env,
                     env': Env, names: set<string>, w: W, fuel: nat)
    requires LoopReady(c, t, scopes, generated, id, env, env', names)
    requires AskingLoop(c.m, t.kind.variable, t.kids[0], t.kids[1], env, w, fuel).Some?
    ensures Matches(c, scopes, names, AskingLoop(c.m, t.kind.variable, t.kids[0], t.kids[1], env, w, fuel).value,
                    Eval(c.n, Down(c, t, scopes, generated, id).tree, env', w, fuel))
  {
    hide Good, Lower, KidScopes, EnvRelated, AllFound, Related, Bound, Eval, AskingRounds, ForLoop, Supported, Free, Get, Put,
      Restore;
    var x := t.kind.variable;
    ForLowers(c.order, t, scopes, generated, id);
    var a := Down(c, t.kids[0], scopes, generated, id);
    var b := Down(c, t.kids[1], KidScopes(t.kind, 1, scopes), a.generated, a.delegateId);
    FoundBefore(c.n.delegates, a.generated, b.generated);
    LoopFree(t);
    LoopAsks(c.n, x, a.tree, b.tree, env', w, fuel);
    Simulates(c, t.kids[0], scopes, generated, id, env, env', names, w, fuel);
    var i := Eval(c.m, t.kids[0], env, w, fuel).value;
    var i' := Eval(c.n, a.tree, env', w, fuel).value;
    var start, start' := Put(i.env, "iterable", i.value), Put(i'.env, "iterable", i'.value);
    EnvNarrow(c, names, i.env, i'.env, "iterable");
    EnvPut(c.order, c.n.delegates, names, i.env, i'.env, "iterable", i.value, i'.value);
    BoundPut(scopes, i'.env, "iterable", i'.value);
    RoundsMean(c, t, scopes, a.generated, a.delegateId, start, start', names + {"iterable"}, i.world, fuel);
    var o := AskingRounds(c.m, x, t.kids[1], start, i.world, fuel).value;
    var o' := AskingRounds(c.n, x, b.tree, start', i.world, fuel).value;
    EnvRestore(c.order, c.n.delegates, names, i.env, i'.env, o.env, o'.env, "iterable");
    BoundRestore(scopes, i'.env, o'.env, "iterable");
  }

  lemma LoopFree(t: Tree)
    requires t.kind.For? && |t.kids| == 2
    ensures Free(t.kids[0]) <= Free(t) && Free(t.kids[1]) - {t.kind.variable} <= Free(t)
  {
  }

  lemma {:induction false} RoundsMean<W>(c: Setting<W>, t: Tree, scopes: ScopeStack, generated: seq<Delegate>, id: nat,
                                         env: Env, env': Env, names: set<string>, w: W, fuel: nat)
    requires t.kind.For? && |t.kids| == 2 && Good(c) && Supported(t.kids[1], KidScopes(t.kind, 1, scopes))
    requires Free(t.kids[1]) - {t.kind.variable} <= names && "iterable" in names
    requires Envs(c, names, env, env') && Bound(scopes, env')
    requires AllFound(c.n.delegates, Down(c, t.kids[1], KidScopes(t.kind, 1, scopes), generated, id).generated)
    requires AskingRounds(c.m, t.kind.variable, t.kids[1], env, w, fuel).Some?
    ensures Matches(c, scopes, names, AskingRounds(c.m, t.kind.variable, t.kids[1], env, w, fuel).value,
                    AskingRounds(c.n, t.kind.variable, Down(c, t.kids[1], KidScopes(t.kind, 1, scopes), generated, id).tree,
                                 env', w, fuel))
    decreases fuel
  {
    hide Good, Lower, KidScopes, AllFound, Related, Bound, Eval, Supported, Free, Operate, Put, Restore;
    var x := t.kind.variable;
    var it, it' := Get(env, "iterable").value, Get(env', "iterable").value;
    AskedObject(c, it, it', w, fuel);
    SimAsk(c, "next", it, w, fuel);
    var more := Operate(c.m, MethodCall("next"), [it], w, fuel).value;
    FirstOrderRelated(c.order, c.n.delegates, Unit);
    if more.0 == Bool(true) {
      SimAsk(c, "current", it, more.1, fuel);
      var v := Operate(c.m, MethodCall("current"), [it], more.1, fuel).value;
      var v' := Operate(c.n, MethodCall("current"), [it], more.1, fuel).value.0;
      AskedRound(c, t, scopes, generated, id, v.0, v', env, env', names, v.1, fuel);
      var b := Eval(c.m, t.kids[1], Put(env, x, v.0), v.1, fuel).value;
      var b' := Eval(c.n, Down(c, t.kids[1], KidScopes(t.kind, 1, scopes), generated, id).tree, Put(env', x, v'), v.1,
                     fuel).value;
      RoundsMean(c, t, scopes, generated, id, Restore(b.env, x, Get(env, x)), Restore(b'.env, x, Get(env', x)), names,
                 b.world, fuel - 1);
    }
  }

  lemma AskedObject<W>(c: Setting<W>, v: Value, v': Value, w: W, fuel: nat)
    requires Same(c, v, v') && Operate(c.m, MethodCall("next"), [v], w, fuel).Some?
    ensures v == v' && FirstOrder(v)
  {
    hide Operate;
    AskedFirstOrder(c.m, v, w, fuel);
    RelatedFirstOrder(c.order, c.n.delegates, v, v');
  }

  lemma AskedRound<W>(c: Setting<W>, t: Tree, scopes: ScopeStack, generated: seq<Delegate>, id: nat, v: Value,
                      v': Value, env: Env, env': Env, names: set<string>, w: W, fuel: nat)
    requires t.kind.For? && |t.kids| == 2 && Good(c) && Supported(t.kids[1], KidScopes(t.kind, 1, scopes))
    requires Free(t.kids[1]) - {t.kind.variable} <= names && Same(c, v, v')
    requires Envs(c, names, env, env') && Bound(scopes, env')
    requires AllFound(c.n.delegates, Down(c, t.kids[1], KidScopes(t.kind, 1, scopes), generated, id).generated)
    requires Eval(c.m, t.kids[1], Put(env, t.kind.variable, v), w, fuel).Some?
    ensures var x := t.kind.variable;
            var o := Eval(c.m, t.kids[1], Put(env, x, v), w, fuel).value;
            var r := Eval(c.n, Down(c, t.kids[1], KidScopes(t.kind, 1, scopes), generated, id).tree, Put(env', x, v'), w,
                          fuel);
            && r.Some? && r.value.world == o.world
            && Envs(c, names, Restore(o.env, x, Get(env, x)), Restore(r.value.env, x, Get(env', x)))
            && Bound(scopes, Restore(r.value.env, x, Get(env', x)))
  {
    hide Good, EnvRelated, AllFound, Related, Bound, Eval, KidScopes, Lower, Free, Supported;
    var x := t.kind.variable;
    var inner := KidScopes(t.kind, 1, scopes);
    KidTracks(t.kind, 1, scopes);
    EnvNarrow(c, names, env, env', x);
    EnvPut(c.order, c.n.delegates, names, env, env', x, v, v');
    BoundPut(scopes, env', x, v');
    BoundSame(scopes, inner, Put(env', x, v'));
    Simulates(c, t.kids[1], inner, generated, id, Put(env, x, v), Put(env', x, v'), names + {x}, w, fuel);
    var o := Eval(c.m, t.kids[1], Put(env, x, v), w, fuel).value;
    var o' := Eval(c.n, Down(c, t.kids[1], inner, generated, id).tree, Put(env', x, v'), w, fuel).value;
    EnvRestore(c.order, c.n.delegates, names, env, env', o.env, o'.env, x);
    BoundSame(inner, scopes, o'.env);
    BoundRestore(scopes, env', o'.env, x);
  }

  /** So the lowered loop has the effect of the loop, and leaves a plain variable as the loop does,
      exactly when the loop as written does so while asking the variable `iterable`. */
  lemma LoopExactly<W>(c: Setting<W>, t: Tree, scopes: ScopeStack, generated: seq<Delegate>, id: nat, env: Env,
                       env': Env, names: set<string>, w: W, fuel: nat)
    requires LoopReady(c, t, scopes, generated, id, env, env', names)
    requires AskingLoop(c.m, t.kind.variable, t.kids[0], t.kids[1], env, w, fuel).Some?
    requires Eval(c.m, t, env, w, fuel).Some?
    ensures var o := Eval(c.m, t, env, w, fuel).value;
            var asked := AskingLoop(c.m, t.kind.variable, t.kids[0], t.kids[1], env, w, fuel).value;
            var r := Eval(c.n, Down(c, t, scopes, generated, id).tree, env', w, fuel);
            && r.Some? && (r.value.world == o.world <==> asked.world == o.world)
            && forall y | y in names && Get(asked.env, y).Some? && Get(o.env, y).Some? && FirstOrder(Get(o.env, y).value) ::
                 (Get(r.value.env, y) == Get(o.env, y) <==> Get(asked.env, y) == Get(o.env, y))
  {
    hide Eval, Lower, AskingLoop, Good, Supported, AllFound, KidScopes, Related, Get, Free, Bound;
    LoopMeans(c, t, scopes, generated, id, env, env', names, w, fuel);
    var o := Eval(c.m, t, env, w, fuel).value;
    var asked := AskingLoop(c.m, t.kind.variable, t.kids[0], t.kids[1], env, w, fuel).value;
    var r := Eval(c.n, Down(c, t, scopes, generated, id).tree, env', w, fuel).value;
    forall y | y in names && Get(asked.env, y).Some? && Get(o.env, y).Some? && FirstOrder(Get(o.env, y).value)
      ensures Get(r.env, y) == Get(o.env, y) <==> Get(asked.env, y) == Get(o.env, y)
    {
      RelatedFirstOrder(c.order, c.n.delegates, Get(asked.env, y).value, Get(r.env, y).value);
    }
  }

  /** Each name in the body means in the lowered loop what it means in the loop. */
  ghost predicate LoopNamesKept(x: string, body: Tree, env: Env, it: Value, v: Value) {
    forall y | y in Free(body) :: Get(Put(Put(env, "iterable", it), x, v), y) == Get(Put(env, x, v), y)
  }

  ghost predicate LoopAlwaysKept(x: string, body: Tree) {
    forall env: Env, it: Value, v: Value :: LoopNamesKept(x, body, env, it, v)
  }

  /** The condition on for-loops is exact: names keep their meaning, whatever the variables, the object
      and the element, if and only if the body uses no outer `iterable`. */
  lemma IterableExactly(x: string, body: Tree)
    ensures LoopAlwaysKept(x, body) <==> "iterable" !in Free(body) - {x}
  {
    hide Free, Get;
    if "iterable" in Free(body) - {x} {
      NothingYet("iterable");
      assert !LoopNamesKept(x, body, [], Unit, Unit);
    }
  }

  // ---------- programs that change their meaning ----------

  lemma PutAllOne(env: Env, x: string, v: Value)
    ensures PutAll(env, [x], [v]) == Put(env, x, v)
  {
    assert [x][1..] == [] && [v][1..] == [];
    assert PutAll(Put(env, x, v), [], []) == Put(env, x, v);
  }

  /** `(x) => x` where a variable `x` is known: the delegate returns that variable, the lambda its
      argument. So the two agree only on that one argument. */
  lemma ParameterHidden<W>(s: Site, m: Machine<W>, n: Machine<W>, x: string, env: Env, v: Value, w: W, fuel: nat)
    requires Enumerates(s.order) && Declared(s, n.delegates) && SelfFree(s)
    requires s.params == [x] && s.body == Tree(Variable(x), []) && x in Tracked(s.scopes)
    requires fuel > 0 && Bound(s.scopes, env)
    ensures var c, d := Eval(m, Source(s), env, w, fuel), Eval(n, Result(s).tree, env, w, fuel);
            && c.Some? && d.Some?
            && Apply(m, c.value.value, [v], w, fuel) == Some((v, w))
            && Apply(n, d.value.value, [v], w, fuel) == Some((Get(env, x).value, w))
  {
    hide Eval, Lower, Enumerates, Visible, Get, Built, BindFields, Put, Declared;
    CapturedBound(s, env);
    LambdaRuns(s, m, env, w, fuel);
    Builds(s, n, env, w, fuel);
    DelegateRuns(s, n, env, [v], w, fuel);
    VariableLowers(s, x);
    PutAllOne(env, x, v);
    var self := [Entry("self", Built(s, env))];
    PutAllOne(self, x, v);
    assert Get(Put(env, x, v), x) == Some(v);
    VariableRuns(m, x, PutAll(env, s.params, [v]), w, fuel - 1);
    BindFieldsGet(PutAll(self, s.params, [v]), Captured(s), env, x);
    VariableRuns(n, x, Inside(s, env, [v]), w, fuel - 1);
  }

  lemma LambdaRuns<W>(s: Site, m: Machine<W>, env: Env, w: W, fuel: nat)
    ensures Eval(m, Source(s), env, w, fuel) == Some(Outcome(Closure(s.params, s.body, env), env, w))
  {
    hide EvalStrict, EvalAll;
  }

  lemma VariableLowers(s: Site, x: string)
    requires s.body == Tree(Variable(x), [])
    ensures Inner(s).tree == s.body
  {
  }

  /** `() => x` in the body of a for-loop over `x`: the scope table does not know `x`, so the delegate
      cannot reach the variable, and invoking it fails where the lambda returns the element. */
  lemma UntrackedVariable<W>(s: Site, outer: ScopeStack, m: Machine<W>, n: Machine<W>, x: string, env: Env, w: W,
                             fuel: nat)
    requires Enumerates(s.order) && Declared(s, n.delegates) && SelfFree(s)
    requires s.params == [] && s.body == Tree(Variable(x), []) && s.scopes == KidScopes(For(x), 1, outer)
    requires x !in Tracked(outer) && x != "self" && Get(env, x).Some?
    requires fuel > 0 && Bound(s.scopes, env)
    ensures var c, d := Eval(m, Source(s), env, w, fuel), Eval(n, Result(s).tree, env, w, fuel);
            && c.Some? && d.Some?
            && Apply(m, c.value.value, [], w, fuel) == Some((Get(env, x).value, w))
            && Apply(n, d.value.value, [], w, fuel) == None
  {
    hide Eval, Lower, Enumerates, Visible, Built, BindFields, Declared, KidScopes;
    KidTracks(For(x), 1, outer);
    CapturedBound(s, env);
    LambdaRuns(s, m, env, w, fuel);
    Builds(s, n, env, w, fuel);
    DelegateRuns(s, n, env, [], w, fuel);
    VariableLowers(s, x);
    VariableRuns(m, x, PutAll(env, s.params, []), w, fuel - 1);
    var self := [Entry("self", Built(s, env))];
    assert self[..0] == [] && Get([], x) == None && Get(self, x) == None;
    BindFieldsGet(PutAll(self, s.params, []), Captured(s), env, x);
    VariableRuns(n, x, Inside(s, env, []), w, fuel - 1);
  }

  /** `for (x in c) y := iterable` with one element: the loop leaves the outer variable's value in `y`,
      the lowered loop the object looped over. */
  lemma IterableHidden<W>(order: set<string> -> seq<string>, m: Machine<W>, scopes: ScopeStack, generated: seq<Delegate>,
                          id: nat, x: string, y: string, c: string, env: Env, w: W, w1: W, v: Value, w2: W, w3: W,
                          fuel: nat)
    requires fuel > 1 && x != y && x != "iterable" && y != "iterable"
    requires Get(env, c).Some? && Get(env, "iterable").Some? && Get(env, y).Some?
    requires Operate(m, MethodCall("next"), [Get(env, c).value], w, fuel) == Some((Bool(true), w1))
    requires Operate(m, MethodCall("current"), [Get(env, c).value], w1, fuel) == Some((v, w2))
    requires Operate(m, MethodCall("next"), [Get(env, c).value], w2, fuel - 1) == Some((Bool(false), w3))
    ensures var store := Tree(Assignment, [Tree(Variable(y), []), Tree(Variable("iterable"), [])]);
            var t := Tree(For(x), [Tree(Variable(c), []), store]);
            var o, r := Eval(m, t, env, w, fuel), Eval(m, Lower(order, t, scopes, generated, id).tree, env, w, fuel);
            && o.Some? && Get(o.value.env, y) == Get(env, "iterable")
            && r.Some? && Get(r.value.env, y) == Get(env, c)
  {
    hide Eval, EvalFor, Operate, Lower, AskingRounds, Put, Restore, Get, ForLoop;
    var store := Tree(Assignment, [Tree(Variable(y), []), Tree(Variable("iterable"), [])]);
    var t := Tree(For(x), [Tree(Variable(c), []), store]);
    var it := Get(env, c).value;
    VariableRuns(m, c, env, w, fuel);
    ForRunsFrom(m, t, env, w, fuel);
    SourceStores(m, t, x, y, it, v, env, w, w1, w2, w3, fuel);
    StoreLowers(order, x, y, c, scopes, generated, id);
    LoopAsks(m, x, Tree(Variable(c), []), store, env, w, fuel);
    LoweredStores(m, x, y, it, v, Put(env, "iterable", it), w, w1, w2, w3, fuel);
  }

  lemma ForRunsFrom<W>(m: Machine<W>, t: Tree, env: Env, w: W, fuel: nat)
    requires t.kind.For? && |t.kids| == 2 && Eval(m, t.kids[0], env, w, fuel).Some?
    ensures var i := Eval(m, t.kids[0], env, w, fuel).value;
            Eval(m, t, env, w, fuel) == EvalFor(m, t, t.kind.variable, i.value, i.env, i.world, fuel)
  {
    hide EvalStrict, EvalFor, EvalAll;
  }

  lemma StoreLowers(order: set<string> -> seq<string>, x: string, y: string, c: string, scopes: ScopeStack,
                    generated: seq<Delegate>, id: nat)
    ensures var store := Tree(Assignment, [Tree(Variable(y), []), Tree(Variable("iterable"), [])]);
            Lower(order, Tree(For(x), [Tree(Variable(c), []), store]), scopes, generated, id).tree ==
            ForLoop(x, Tree(Variable(c), []), store)
  {
    hide ForLoop, KidScopes;
    var store := Tree(Assignment, [Tree(Variable(y), []), Tree(Variable("iterable"), [])]);
    ForLowers(order, Tree(For(x), [Tree(Variable(c), []), store]), scopes, generated, id);
    var inner := KidScopes(For(x), 1, scopes);
    LeafLowers(order, c, scopes, generated, id);
    KidsTwo(order, Assignment, store.kids, inner, generated, id);
    LeafLowers(order, y, KidScopes(Assignment, 0, inner), generated, id);
    LeafLowers(order, "iterable", KidScopes(Assignment, 1, inner), generated, id);
  }

  lemma LeafLowers(order: set<string> -> seq<string>, x: string, scopes: ScopeStack, generated: seq<Delegate>, id: nat)
    ensures Lower(order, Tree(Variable(x), []), scopes, generated, id) == Lowered(Tree(Variable(x), []), generated, id)
  {
  }

  /** One round of the loop stores the outer `iterable` into `y`. */
  lemma SourceStores<W>(m: Machine<W>, t: Tree, x: string, y: string, it: Value, v: Value, env: Env, w: W, w1: W,
                        w2: W, w3: W, fuel: nat)
    requires fuel > 1 && Get(env, "iterable").Some? && Get(env, y).Some? && x != y && x != "iterable" && y != "iterable"
    requires |t.kids| == 2 && t.kids[1] == Tree(Assignment, [Tree(Variable(y), []), Tree(Variable("iterable"), [])])
    requires Operate(m, MethodCall("next"), [it], w, fuel) == Some((Bool(true), w1))
    requires Operate(m, MethodCall("current"), [it], w1, fuel) == Some((v, w2))
    requires Operate(m, MethodCall("next"), [it], w2, fuel - 1) == Some((Bool(false), w3))
    ensures var o := EvalFor(m, t, x, it, env, w, fuel);
            o.Some? && Get(o.value.env, y) == Get(env, "iterable")
  {
    hide Eval, EvalFor, Operate, Put, Restore, Get;
    var outer := Get(env, "iterable").value;
    StoreRuns(m, y, outer, Put(env, x, v), w2, fuel);
    ForRuns(m, t, x, it, env, w, fuel);
    ForRuns(m, t, x, it, Restore(Put(Put(env, x, v), y, outer), x, Get(env, x)), w2, fuel - 1);
  }

  /** One round of the lowered loop stores what its own `iterable` is. */
  lemma LoweredStores<W>(m: Machine<W>, x: string, y: string, it: Value, v: Value, start: Env, w: W, w1: W, w2: W,
                         w3: W, fuel: nat)
    requires fuel > 1 && Get(start, "iterable") == Some(it) && Get(start, y).Some?
    requires x != y && x != "iterable" && y != "iterable"
    requires Operate(m, MethodCall("next"), [it], w, fuel) == Some((Bool(true), w1))
    requires Operate(m, MethodCall("current"), [it], w1, fuel) == Some((v, w2))
    requires Operate(m, MethodCall("next"), [it], w2, fuel - 1) == Some((Bool(false), w3))
    ensures var store := Tree(Assignment, [Tree(Variable(y), []), Tree(Variable("iterable"), [])]);
            var r := AskingRounds(m, x, store, start, w, fuel);
            r.Some? && Get(r.value.env, y) == Some(it)
  {
    hide Eval, Operate, Put, Restore, Get;
    var store := Tree(Assignment, [Tree(Variable(y), []), Tree(Variable("iterable"), [])]);
    StoreRuns(m, y, it, Put(start, x, v), w2, fuel);
    var next := Restore(Put(Put(start, x, v), y, it), x, Get(start, x));
    assert AskingRounds(m, x, store, next, w2, fuel - 1) == Some(Outcome(Unit, next, w3));
  }

  lemma ForRuns<W>(m: Machine<W>, t: Tree, x: string, it: Value, env: Env, w: W, fuel: nat)
    requires |t.kids| == 2 && fuel > 0 && Operate(m, MethodCall("next"), [it], w, fuel).Some?
    ensures var more := Operate(m, MethodCall("next"), [it], w, fuel).value;
            && (more.0 == Bool(false) ==> EvalFor(m, t, x, it, env, w, fuel) == Some(Outcome(Unit, env, more.1)))
            && (more.0 == Bool(true) && Operate(m, MethodCall("current"), [it], more.1, fuel).Some? ==>
                  var current := Operate(m, MethodCall("current"), [it], more.1, fuel).value;
                  Eval(m, t.kids[1], Put(env, x, current.0), current.1, fuel).Some? ==>
                  var o := Eval(m, t.kids[1], Put(env, x, current.0), current.1, fuel).value;
                  EvalFor(m, t, x, it, env, w, fuel) ==
                  EvalFor(m, t, x, it, Restore(o.env, x, Get(env, x)), o.world, fuel - 1))
  {
    hide Eval, Operate;
  }

  lemma StoreRuns<W>(m: Machine<W>, y: string, v: Value, env: Env, w: W, fuel: nat)
    requires Get(env, "iterable") == Some(v) && Get(env, y).Some?
    ensures Eval(m, Tree(Assignment, [Tree(Variable(y), []), Tree(Variable("iterable"), [])]), env, w, fuel) ==
            Some(Outcome(v, Put(env, y, v), w))
  {
    hide EvalStrict, EvalAll;
    var b := Tree(Variable("iterable"), []);
    assert Eval(m, b, env, w, fuel) == Some(Outcome(v, env, w));
  }
}
