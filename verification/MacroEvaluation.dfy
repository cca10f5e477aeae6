/** Trees with the same resolved form evaluate alike, so an expansion evaluates to what is meant. */
module MacroEvaluation {
  import opened Wrappers
  import opened MacroSyntax
  import opened MacroExpansion
  import opened MacroHygiene
  import opened MacroTheorems

  /** Any compositional semantics: the meaning of each construct as a function of the meanings of its
      parts, a body being a function of what its binders are bound to. Values may themselves be
      computations, so side effects are covered. */
  datatype Semantics<!V> = Semantics(
    literal: Literal -> V,
    node: (Label, seq<V>) -> V,
    bind: (Binding, V, V -> V) -> V,
    lambda: (nat, seq<V> -> V) -> V,
    call: (V, seq<V>) -> V,
    error: V)

  /** The semantics sees a body only through its values. */
  ghost predicate Extensional<V(!new)>(sem: Semantics<V>) {
    && (forall k, i, f: V -> V, g: V -> V ::
          (forall v :: f(v) == g(v)) ==> sem.bind(k, i, f) == sem.bind(k, i, g))
    && (forall n, f: seq<V> -> V, g: seq<V> -> V ::
          (forall vs | |vs| == n :: f(vs) == g(vs)) ==> sem.lambda(n, f) == sem.lambda(n, g))
  }

  function Extend<V>(env: string -> V, x: string, v: V): string -> V {
    y => if y == x then v else env(y)
  }

  function ExtendAll<V>(env: string -> V, xs: seq<string>, vs: seq<V>): string -> V
    decreases xs
  {
    if xs == [] || vs == [] then env else ExtendAll(Extend(env, xs[0], vs[0]), xs[1..], vs[1..])
  }

  /** Evaluation by names. */
  function Eval<V>(sem: Semantics<V>, e: Expr, env: string -> V): V
    decreases e, 1
  {
    match e
    case Lit(l) => sem.literal(l)
    case Var(x) => env(x)
    case Node(kind, kids) => sem.node(kind, EvalAll(sem, kids, env))
    case Bind(k, x, init, body) => sem.bind(k, Eval(sem, init, env), v => Eval(sem, body, Extend(env, x, v)))
    case Lambda(ps, body) => sem.lambda(|ps|, vs => Eval(sem, body, ExtendAll(env, ps, vs)))
    case Call(f, args) => sem.call(env(f), EvalAll(sem, args, env))
    case Match(_, _, _) => sem.error
  }

  function EvalAll<V>(sem: Semantics<V>, es: seq<Expr>, env: string -> V): (vs: seq<V>)
    decreases es, 0
  {
    if es == [] then [] else [Eval(sem, es[0], env)] + EvalAll(sem, es[1..], env)
  }

  function ValueOf<V>(sem: Semantics<V>, r: Referent, levels: seq<V>, globals: string -> V): V {
    match r
    case Binder(level) => if level < |levels| then levels[level] else sem.error
    case Global(x) => globals(x)
  }

  /** Evaluation of a resolved tree, in which binders have no names. */
  function EvalResolved<V>(sem: Semantics<V>, r: Resolved, levels: seq<V>, globals: string -> V): V
    decreases r, 1
  {
    match r
    case RLit(l) => sem.literal(l)
    case RVar(x) => ValueOf(sem, x, levels, globals)
    case RNode(kind, kids) => sem.node(kind, EvalResolvedAll(sem, kids, levels, globals))
    case RBind(k, init, body) =>
      sem.bind(k, EvalResolved(sem, init, levels, globals), v => EvalResolved(sem, body, levels + [v], globals))
    case RLambda(n, body) => sem.lambda(n, vs => EvalResolved(sem, body, levels + vs, globals))
    case RCall(f, args) => sem.call(ValueOf(sem, f, levels, globals), EvalResolvedAll(sem, args, levels, globals))
    case RError => sem.error
  }

  function EvalResolvedAll<V>(sem: Semantics<V>, rs: seq<Resolved>, levels: seq<V>, globals: string -> V): seq<V>
    decreases rs, 0
  {
    if rs == [] then []
    else [EvalResolved(sem, rs[0], levels, globals)] + EvalResolvedAll(sem, rs[1..], levels, globals)
  }

  /** The environment gives each name the value of what it refers to. */
  ghost predicate Tracks<V>(sem: Semantics<V>, env: string -> V, scope: Scope, levels: seq<V>, globals: string -> V) {
    && (forall x | x in scope :: scope[x] < |levels|)
    && (forall x :: env(x) == ValueOf(sem, Refer(scope, x), levels, globals))
  }

  lemma TracksOne<V>(sem: Semantics<V>, env: string -> V, scope: Scope, levels: seq<V>, globals: string -> V,
                     x: string, v: V)
    requires Tracks(sem, env, scope, levels, globals)
    ensures Tracks(sem, Extend(env, x, v), scope[x := |levels|], levels + [v], globals)
  {
  }

  lemma {:induction false} TracksMany<V>(sem: Semantics<V>, env: string -> V, scope: Scope, levels: seq<V>,
                                         globals: string -> V, xs: seq<string>, vs: seq<V>)
    requires Tracks(sem, env, scope, levels, globals) && |xs| == |vs|
    ensures Tracks(sem, ExtendAll(env, xs, vs), BindAll(scope, xs, |levels|), levels + vs, globals)
    decreases xs
  {
    if xs == [] {
      assert levels + vs == levels;
    } else {
      TracksOne(sem, env, scope, levels, globals, xs[0], vs[0]);
      TracksMany(sem, Extend(env, xs[0], vs[0]), scope[xs[0] := |levels|], levels + [vs[0]], globals, xs[1..], vs[1..]);
      assert levels + vs == levels + [vs[0]] + vs[1..];
    }
  }

  lemma {:induction false} EvalIsResolved<V(!new)>(sem: Semantics<V>, e: Expr, env: string -> V, scope: Scope,
                                                   levels: seq<V>, globals: string -> V)
    requires Extensional(sem) && Tracks(sem, env, scope, levels, globals)
    ensures Eval(sem, e, env) == EvalResolved(sem, Resolve(e, scope, |levels|), levels, globals)
    decreases e, 1
  {
    hide Tracks, Extensional, ExtendAll, BindAll;
    match e
    case Lit(_) =>
    case Var(_) => NameTracks(sem, env, scope, levels, globals, e.name);
    case Node(_, kids) => EvalAllIsResolved(sem, kids, env, scope, levels, globals);
    case Bind(k, x, init, body) => BindIsResolved(sem, e, env, scope, levels, globals);
    case Lambda(ps, body) => LambdaIsResolved(sem, e, env, scope, levels, globals);
    case Call(f, args) =>
      NameTracks(sem, env, scope, levels, globals, f);
      EvalAllIsResolved(sem, args, env, scope, levels, globals);
    case Match(_, _, _) =>
  }

  lemma NameTracks<V>(sem: Semantics<V>, env: string -> V, scope: Scope, levels: seq<V>, globals: string -> V, x: string)
    requires Tracks(sem, env, scope, levels, globals)
    ensures env(x) == ValueOf(sem, Refer(scope, x), levels, globals)
  {
  }

  lemma {:induction false} BindIsResolved<V(!new)>(sem: Semantics<V>, e: Expr, env: string -> V, scope: Scope,
                                                   levels: seq<V>, globals: string -> V)
    requires e.Bind? && Extensional(sem) && Tracks(sem, env, scope, levels, globals)
    ensures Eval(sem, e, env) == EvalResolved(sem, Resolve(e, scope, |levels|), levels, globals)
    decreases e, 0
  {
    hide Tracks, Extensional;
    var inner := scope[e.name := |levels|];
    var r := Resolve(e.body, inner, |levels| + 1);
    var f := (v: V) => Eval(sem, e.body, Extend(env, e.name, v));
    var g := (v: V) => EvalResolved(sem, r, levels + [v], globals);
    forall v: V ensures f(v) == g(v) {
      TracksOne(sem, env, scope, levels, globals, e.name, v);
      assert |levels + [v]| == |levels| + 1;
      EvalIsResolved(sem, e.body, Extend(env, e.name, v), inner, levels + [v], globals);
    }
    EvalIsResolved(sem, e.init, env, scope, levels, globals);
    BindSame(sem, e.binder, Eval(sem, e.init, env), f, v => Eval(sem, e.body, Extend(env, e.name, v)));
    BindSame(sem, e.binder, Eval(sem, e.init, env), f, v => EvalResolved(sem, r, levels + [v], globals));
    assert Eval(sem, e, env) == sem.bind(e.binder, Eval(sem, e.init, env), f);
    assert Resolve(e, scope, |levels|) == RBind(e.binder, Resolve(e.init, scope, |levels|), r);
  }

  lemma BindSame<V(!new)>(sem: Semantics<V>, k: Binding, i: V, f: V -> V, g: V -> V)
    requires Extensional(sem) && forall v :: f(v) == g(v)
    ensures sem.bind(k, i, f) == sem.bind(k, i, g)
  {
  }

  lemma LambdaSame<V(!new)>(sem: Semantics<V>, n: nat, f: seq<V> -> V, g: seq<V> -> V)
    requires Extensional(sem) && forall vs | |vs| == n :: f(vs) == g(vs)
    ensures sem.lambda(n, f) == sem.lambda(n, g)
  {
  }

  lemma {:induction false} LambdaIsResolved<V(!new)>(sem: Semantics<V>, e: Expr, env: string -> V, scope: Scope,
                                                     levels: seq<V>, globals: string -> V)
    requires e.Lambda? && Extensional(sem) && Tracks(sem, env, scope, levels, globals)
    ensures Eval(sem, e, env) == EvalResolved(sem, Resolve(e, scope, |levels|), levels, globals)
    decreases e, 0
  {
    hide Tracks, Extensional, ExtendAll, BindAll, EvalResolved;
    var n := |e.params|;
    var inner := BindAll(scope, e.params, |levels|);
    var r := Resolve(e.body, inner, |levels| + n);
    var f := (vs: seq<V>) => Eval(sem, e.body, ExtendAll(env, e.params, vs));
    forall vs: seq<V> | |vs| == n ensures f(vs) == EvalResolved(sem, r, levels + vs, globals) {
      TracksMany(sem, env, scope, levels, globals, e.params, vs);
      assert |levels + vs| == |levels| + n;
      EvalIsResolved(sem, e.body, ExtendAll(env, e.params, vs), inner, levels + vs, globals);
    }
    LambdaEvaluates(sem, e, env, f);
    LambdaResolvedEvaluates(sem, n, r, levels, globals, f);
    assert Resolve(e, scope, |levels|) == RLambda(n, r);
  }

  lemma LambdaEvaluates<V(!new)>(sem: Semantics<V>, e: Expr, env: string -> V, f: seq<V> -> V)
    requires e.Lambda? && Extensional(sem)
    requires forall vs | |vs| == |e.params| :: f(vs) == Eval(sem, e.body, ExtendAll(env, e.params, vs))
    ensures Eval(sem, e, env) == sem.lambda(|e.params|, f)
  {
    hide Extensional, ExtendAll;
    LambdaSame(sem, |e.params|, f, vs => Eval(sem, e.body, ExtendAll(env, e.params, vs)));
  }

  lemma LambdaResolvedEvaluates<V(!new)>(sem: Semantics<V>, n: nat, r: Resolved, levels: seq<V>,
                                         globals: string -> V, f: seq<V> -> V)
    requires Extensional(sem)
    requires forall vs | |vs| == n :: f(vs) == EvalResolved(sem, r, levels + vs, globals)
    ensures EvalResolved(sem, RLambda(n, r), levels, globals) == sem.lambda(n, f)
  {
    hide Extensional;
    LambdaSame(sem, n, f, vs => EvalResolved(sem, r, levels + vs, globals));
  }

  lemma {:induction false} EvalAllIsResolved<V(!new)>(sem: Semantics<V>, es: seq<Expr>, env: string -> V,
                                                      scope: Scope, levels: seq<V>, globals: string -> V)
    requires Extensional(sem) && Tracks(sem, env, scope, levels, globals)
    ensures EvalAll(sem, es, env) == EvalResolvedAll(sem, ResolveAll(es, scope, |levels|), levels, globals)
    decreases es, 0
  {
    hide Tracks, Extensional;
    if es != [] {
      EvalIsResolved(sem, es[0], env, scope, levels, globals);
      EvalAllIsResolved(sem, es[1..], env, scope, levels, globals);
      var rs := ResolveAll(es, scope, |levels|);
      assert rs[0] == Resolve(es[0], scope, |levels|) && rs[1..] == ResolveAll(es[1..], scope, |levels|);
    }
  }

  /** An expanded program evaluates, in every environment and under every semantics, to what the
      program with its macro calls means there. */
  lemma ExpansionEvaluates<V(!new)>(sem: Semantics<V>, macros: Macros, e: Expr, counter: nat, env: string -> V,
                                    scope: Scope, levels: seq<V>, globals: string -> V)
    requires MacrosOk(macros) && Unclashing(macros, e, counter) && Expand(macros, e, counter).Some?
    requires Extensional(sem) && Tracks(sem, env, scope, levels, globals)
    ensures Eval(sem, Expand(macros, e, counter).value.expr, env) ==
            EvalResolved(sem, Meant(macros, e, scope, |levels|), levels, globals)
  {
    ExpansionIsHygienic(macros, e, counter, scope, |levels|);
    EvalIsResolved(sem, Expand(macros, e, counter).value.expr, env, scope, levels, globals);
  }
}
