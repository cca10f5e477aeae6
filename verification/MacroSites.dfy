/** What becomes of the free names of macro bodies: the expander leaves them to the site of the call, so
    binders of the program may capture them. */
module MacroSites {
  import opened Wrappers
  import opened MacroSyntax
  import opened MacroExpansion
  import opened MacroHygiene
  import opened MacroTheorems
  import opened MacroResults
  import opened MacroClashes

  // ---------- names in resolved trees ----------

  /** Names that no binder introduces. */
  function Globals(r: Resolved): set<string>
    decreases r
  {
    match r
    case RLit(_) => {}
    case RVar(t) => GlobalOf(t)
    case RNode(_, kids) => GlobalsAll(kids)
    case RBind(_, init, body) => Globals(init) + Globals(body)
    case RLambda(_, body) => Globals(body)
    case RCall(t, args) => GlobalOf(t) + GlobalsAll(args)
    case RError => {}
  }

  function GlobalsAll(rs: seq<Resolved>): set<string>
    decreases rs
  {
    if rs == [] then {} else Globals(rs[0]) + GlobalsAll(rs[1..])
  }

  function GlobalOf(t: Referent): set<string> {
    if t.Global? then {t.globalName} else {}
  }

  /** The tree with every name hidden; its shape, on which matches depend, stays. */
  function Close(r: Resolved): Resolved
    decreases r
  {
    match r
    case RLit(_) => r
    case RVar(_) => RVar(Binder(0))
    case RNode(kind, kids) => RNode(kind, CloseAll(kids))
    case RBind(b, init, body) => RBind(b, Close(init), Close(body))
    case RLambda(n, body) => RLambda(n, Close(body))
    case RCall(_, args) => RCall(Binder(0), CloseAll(args))
    case RError => RError
  }

  function CloseAll(rs: seq<Resolved>): (cs: seq<Resolved>)
    ensures |cs| == |rs| && forall i | 0 <= i < |rs| :: cs[i] == Close(rs[i])
    decreases rs
  {
    if rs == [] then [] else [Close(rs[0])] + CloseAll(rs[1..])
  }

  /** One meaning of a macro body at a site, one where it was defined, and one that shows only the names
      of macro bodies. */
  ghost predicate Triple(site: Scope, r: Resolved, r0: Resolved, c: Resolved)
    decreases c
  {
    match c
    case RLit(_) => r == c && r0 == c
    case RVar(t) => r.RVar? && r0.RVar? && Referents(site, r.referent, r0.referent, t)
    case RNode(kind, kids) =>
      && r.RNode? && r0.RNode? && r.kind == kind && r0.kind == kind && TripleAll(site, r.kids, r0.kids, kids)
    case RBind(b, init, body) =>
      && r.RBind? && r0.RBind? && r.binder == b && r0.binder == b
      && Triple(site, r.init, r0.init, init) && Triple(site, r.body, r0.body, body)
    case RLambda(n, body) =>
      r.RLambda? && r0.RLambda? && r.arity == n && r0.arity == n && Triple(site, r.body, r0.body, body)
    case RCall(t, args) =>
      && r.RCall? && r0.RCall? && Referents(site, r.callee, r0.callee, t) && TripleAll(site, r.args, r0.args, args)
    case RError => r == c && r0 == c
  }

  ghost predicate TripleAll(site: Scope, rs: seq<Resolved>, rs0: seq<Resolved>, cs: seq<Resolved>)
    decreases cs
  {
    && |rs| == |rs0| == |cs|
    && forall i | 0 <= i < |cs| :: Triple(site, rs[i], rs0[i], cs[i])
  }

  ghost predicate Referents(site: Scope, t: Referent, t0: Referent, c: Referent) {
    if c.Global? then t0 == c && t == Refer(site, c.globalName) else t == t0
  }

  /** The two meanings agree exactly when the site binds none of the names shown. */
  lemma {:induction false} TripleExactly(site: Scope, r: Resolved, r0: Resolved, c: Resolved)
    requires Triple(site, r, r0, c)
    ensures r == r0 <==> Globals(c) !! site.Keys
    decreases c
  {
    match c
    case RLit(_) =>
    case RVar(_) =>
    case RNode(_, kids) => TripleAllExactly(site, r.kids, r0.kids, kids);
    case RBind(_, init, body) =>
      TripleExactly(site, r.init, r0.init, init);
      TripleExactly(site, r.body, r0.body, body);
    case RLambda(_, body) => TripleExactly(site, r.body, r0.body, body);
    case RCall(_, args) => TripleAllExactly(site, r.args, r0.args, args);
    case RError =>
  }

  lemma {:induction false} TripleAllExactly(site: Scope, rs: seq<Resolved>, rs0: seq<Resolved>, cs: seq<Resolved>)
    requires TripleAll(site, rs, rs0, cs)
    ensures rs == rs0 <==> GlobalsAll(cs) !! site.Keys
    decreases cs
  {
    if cs != [] {
      TripleExactly(site, rs[0], rs0[0], cs[0]);
      TripleAllExactly(site, rs[1..], rs0[1..], cs[1..]);
      assert rs == [rs[0]] + rs[1..] && rs0 == [rs0[0]] + rs0[1..];
    }
  }

  /** An argument means the same either way, and shows nothing. */
  lemma {:induction false} CloseTriple(site: Scope, r: Resolved)
    ensures Triple(site, r, r, Close(r))
    decreases r
  {
    match r
    case RLit(_) =>
    case RVar(_) =>
    case RNode(_, kids) => CloseAllTriple(site, kids);
    case RBind(_, init, body) =>
      CloseTriple(site, init);
      CloseTriple(site, body);
    case RLambda(_, body) => CloseTriple(site, body);
    case RCall(_, args) => CloseAllTriple(site, args);
    case RError =>
  }

  lemma {:induction false} CloseAllTriple(site: Scope, rs: seq<Resolved>)
    ensures TripleAll(site, rs, rs, CloseAll(rs))
    decreases rs
  {
    forall i | 0 <= i < |rs| ensures Triple(site, rs[i], rs[i], Close(rs[i])) {
      CloseTriple(site, rs[i]);
    }
  }

  // ---------- matches ----------

  type Captures = map<string, Resolved>

  ghost predicate CapturesTriple(site: Scope, a: Captures, b: Captures, c: Captures) {
    a.Keys == b.Keys == c.Keys && forall x | x in c :: Triple(site, a[x], b[x], c[x])
  }

  ghost predicate MatchesTriple(site: Scope, a: Option<Captures>, b: Option<Captures>, c: Option<Captures>) {
    a.Some? == b.Some? == c.Some? && (c.Some? ==> CapturesTriple(site, a.value, b.value, c.value))
  }

  lemma {:induction false} MatchTriple(p: Pattern, site: Scope, r: Resolved, r0: Resolved, c: Resolved, a: Captures,
                                       a0: Captures, ac: Captures)
    requires Triple(site, r, r0, c) && CapturesTriple(site, a, a0, ac)
    ensures MatchesTriple(site, BindResolved(p, r, a), BindResolved(p, r0, a0), BindResolved(p, c, ac))
    decreases p
  {
    match p
    case Capture(_) =>
    case LitPattern(_) =>
    case BinaryPattern(op, left, right) =>
      if c.RNode? && c.kind == BinaryOp(op) && |c.kids| == 2 {
        MatchTriple(left, site, r.kids[0], r0.kids[0], c.kids[0], a, a0, ac);
        if BindResolved(left, c.kids[0], ac).Some? {
          MatchTriple(right, site, r.kids[1], r0.kids[1], c.kids[1], BindResolved(left, r.kids[0], a).value,
                      BindResolved(left, r0.kids[0], a0).value, BindResolved(left, c.kids[0], ac).value);
        }
      }
    case UnaryPattern(op, operand) =>
      if c.RNode? && c.kind == UnaryOp(op) && |c.kids| == 1 {
        MatchTriple(operand, site, r.kids[0], r0.kids[0], c.kids[0], a, a0, ac);
      }
    case Other =>
  }

  // ---------- macro bodies ----------

  type Params = map<string, Meaning>

  ghost predicate MeaningTriple(site: Scope, m: Meaning, m0: Meaning, c: Meaning) {
    forall d: nat :: Triple(site, m(d), m0(d), c(d))
  }

  ghost predicate ParamsTriple(site: Scope, a: Params, b: Params, c: Params) {
    a.Keys == b.Keys == c.Keys && forall x | x in c :: MeaningTriple(site, a[x], b[x], c[x])
  }

  ghost predicate MeaningsTriple(site: Scope, a: seq<Meaning>, b: seq<Meaning>, c: seq<Meaning>) {
    |a| == |b| == |c| && forall i | 0 <= i < |c| :: MeaningTriple(site, a[i], b[i], c[i])
  }

  lemma AtTriple(site: Scope, a: seq<Meaning>, b: seq<Meaning>, c: seq<Meaning>, depth: nat)
    requires MeaningsTriple(site, a, b, c)
    ensures TripleAll(site, At(a, depth), At(b, depth), At(c, depth))
  {
    forall i | 0 <= i < |c| ensures Triple(site, At(a, depth)[i], At(b, depth)[i], At(c, depth)[i]) {
      assert MeaningTriple(site, a[i], b[i], c[i]);
    }
  }

  /** The meaning of a body at a site, where it was defined, and with nothing shown but names of bodies. */
  lemma {:induction false} IdealTriple(macros: Macros, e: Expr, locals: Scope, a: Params, b: Params, c: Params,
                                       site: Scope, depth: nat, nesting: nat)
    requires nesting <= MAX_EXPANSION_DEPTH && ParamsTriple(site, a, b, c)
    ensures Triple(site, Ideal(macros, e, locals, a, site, depth, nesting),
                   Ideal(macros, e, locals, b, map[], depth, nesting),
                   Ideal(macros, e, locals, c, map[], depth, nesting))
    decreases MAX_EXPANSION_DEPTH - nesting, 1, e, 2
  {
    hide IdealApply, IdealMatch;
    match e
    case Lit(_) =>
    case Var(x) => NameTriple(x, locals, a, b, c, site, depth);
    case Node(_, kids) => IdealAllTriple(macros, kids, locals, a, b, c, site, depth, nesting);
    case Bind(_, x, init, body) =>
      IdealTriple(macros, init, locals, a, b, c, site, depth, nesting);
      IdealTriple(macros, body, locals[x := depth], a, b, c, site, depth + 1, nesting);
    case Lambda(ps, body) =>
      IdealTriple(macros, body, BindAll(locals, ps, depth), a, b, c, site, depth + |ps|, nesting);
    case Call(_, _) => IdealCallTriple(macros, e, locals, a, b, c, site, depth, nesting);
    case Match(_, _, _) => SubjectTriple(macros, e, locals, a, b, c, site, depth, nesting);
  }

  lemma NameTriple(x: string, locals: Scope, a: Params, b: Params, c: Params, site: Scope, depth: nat)
    requires ParamsTriple(site, a, b, c)
    ensures x in c && x !in locals ==> Triple(site, a[x](depth), b[x](depth), c[x](depth))
  {
    if x in c {
      assert MeaningTriple(site, a[x], b[x], c[x]);
    }
  }

  lemma {:induction false} IdealAllTriple(macros: Macros, es: seq<Expr>, locals: Scope, a: Params, b: Params, c: Params,
                                          site: Scope, depth: nat, nesting: nat)
    requires nesting <= MAX_EXPANSION_DEPTH && ParamsTriple(site, a, b, c)
    ensures TripleAll(site, IdealAll(macros, es, locals, a, site, depth, nesting),
                      IdealAll(macros, es, locals, b, map[], depth, nesting),
                      IdealAll(macros, es, locals, c, map[], depth, nesting))
    decreases MAX_EXPANSION_DEPTH - nesting, 1, es, 0
  {
    if es != [] {
      IdealTriple(macros, es[0], locals, a, b, c, site, depth, nesting);
      IdealAllTriple(macros, es[1..], locals, a, b, c, site, depth, nesting);
    }
  }

  lemma {:induction false} IdealCallTriple(macros: Macros, e: Expr, locals: Scope, a: Params, b: Params, c: Params,
                                           site: Scope, depth: nat, nesting: nat)
    requires e.Call? && nesting <= MAX_EXPANSION_DEPTH && ParamsTriple(site, a, b, c)
    ensures Triple(site, Ideal(macros, e, locals, a, site, depth, nesting),
                   Ideal(macros, e, locals, b, map[], depth, nesting),
                   Ideal(macros, e, locals, c, map[], depth, nesting))
    decreases MAX_EXPANSION_DEPTH - nesting, 1, e, 1
  {
    hide IdealApply, ParamsTriple, Triple, BindAll, Refer, At;
    var args := e.args;
    var ma: seq<Meaning> := seq(|args|, i requires 0 <= i < |args| =>
                                (d: nat) => Ideal(macros, args[i], locals, a, site, d, nesting));
    var mb: seq<Meaning> := seq(|args|, i requires 0 <= i < |args| =>
                                (d: nat) => Ideal(macros, args[i], locals, b, map[], d, nesting));
    var mc: seq<Meaning> := seq(|args|, i requires 0 <= i < |args| =>
                                (d: nat) => Ideal(macros, args[i], locals, c, map[], d, nesting));
    forall i | 0 <= i < |args| ensures MeaningTriple(site, ma[i], mb[i], mc[i]) {
      forall d: nat ensures Triple(site, ma[i](d), mb[i](d), mc[i](d)) {
        IdealTriple(macros, args[i], locals, a, b, c, site, d, nesting);
      }
    }
    ApplyTriple(macros, e.callee, ma, mb, mc, locals, a, b, c, site, depth, nesting);
  }

  /** A call of a parameter. */
  function Invoked(v: Resolved, args: seq<Resolved>): Resolved {
    if v.RVar? then RCall(v.referent, args) else RNode(MethodCall("invoke"), [v] + args)
  }

  lemma InvokedTriple(site: Scope, va: Resolved, vb: Resolved, vc: Resolved, aa: seq<Resolved>, ab: seq<Resolved>,
                      ac: seq<Resolved>)
    requires Triple(site, va, vb, vc) && TripleAll(site, aa, ab, ac)
    ensures Triple(site, Invoked(va, aa), Invoked(vb, ab), Invoked(vc, ac))
  {
    assert va.RVar? == vc.RVar? && vb.RVar? == vc.RVar?;
  }

  lemma BoundTriple(site: Scope, t: Referent, aa: seq<Resolved>, ab: seq<Resolved>, ac: seq<Resolved>)
    requires t.Binder? && TripleAll(site, aa, ab, ac)
    ensures Triple(site, RCall(t, aa), RCall(t, ab), RCall(t, ac))
  {
  }

  lemma FreeTriple(site: Scope, f: string, aa: seq<Resolved>, ab: seq<Resolved>, ac: seq<Resolved>)
    requires TripleAll(site, aa, ab, ac)
    ensures Triple(site, RCall(Refer(site, f), aa), RCall(Refer(map[], f), ab), RCall(Refer(map[], f), ac))
  {
  }

  lemma {:induction false} ApplyTriple(macros: Macros, f: string, ma: seq<Meaning>, mb: seq<Meaning>, mc: seq<Meaning>,
                                       locals: Scope, a: Params, b: Params, c: Params, site: Scope, depth: nat,
                                       nesting: nat)
    requires nesting <= MAX_EXPANSION_DEPTH && ParamsTriple(site, a, b, c) && MeaningsTriple(site, ma, mb, mc)
    ensures Triple(site, IdealApply(macros, f, ma, locals, a, site, depth, nesting),
                   IdealApply(macros, f, mb, locals, b, map[], depth, nesting),
                   IdealApply(macros, f, mc, locals, c, map[], depth, nesting))
    decreases MAX_EXPANSION_DEPTH - nesting, 0, 1
  {
    hide IdealCall, At, MeaningTriple, Triple, TripleAll, Refer;
    AtTriple(site, ma, mb, mc, depth);
    var aa, ab, ac := At(ma, depth), At(mb, depth), At(mc, depth);
    if f in locals {
      BoundTriple(site, Binder(locals[f]), aa, ab, ac);
    } else if f in c {
      NameTriple(f, locals, a, b, c, site, depth);
      InvokedTriple(site, a[f](depth), b[f](depth), c[f](depth), aa, ab, ac);
    } else if f in macros {
      MacroTriple(macros, f, ma, mb, mc, site, depth, nesting);
    } else {
      FreeTriple(site, f, aa, ab, ac);
    }
  }

  lemma {:induction false} MacroTriple(macros: Macros, name: string, ma: seq<Meaning>, mb: seq<Meaning>,
                                       mc: seq<Meaning>, site: Scope, depth: nat, nesting: nat)
    requires nesting <= MAX_EXPANSION_DEPTH && MeaningsTriple(site, ma, mb, mc)
    ensures Triple(site, IdealCall(macros, name, ma, site, depth, nesting),
                   IdealCall(macros, name, mb, map[], depth, nesting),
                   IdealCall(macros, name, mc, map[], depth, nesting))
    decreases MAX_EXPANSION_DEPTH - nesting, 0, 0
  {
    hide Ideal, Triple;
    if name in macros && nesting < MAX_EXPANSION_DEPTH && |mc| == |macros[name].params| {
      var ps := macros[name].params;
      ZipTriple(site, ps, ma, mb, mc);
      IdealTriple(macros, macros[name].body, map[], Zip(ps, ma), Zip(ps, mb), Zip(ps, mc), site, depth, nesting + 1);
    } else {
      ErrorTriple(site);
    }
  }

  lemma ErrorTriple(site: Scope)
    ensures Triple(site, RError, RError, RError)
  {
  }

  lemma {:induction false} ZipTriple(site: Scope, names: seq<string>, ma: seq<Meaning>, mb: seq<Meaning>,
                                     mc: seq<Meaning>)
    requires |names| == |mc| && MeaningsTriple(site, ma, mb, mc)
    ensures ParamsTriple(site, Zip(names, ma), Zip(names, mb), Zip(names, mc))
    decreases names
  {
    hide MeaningTriple;
    if names != [] {
      var n := |names| - 1;
      ZipTriple(site, names[..n], ma[..n], mb[..n], mc[..n]);
    }
  }

  lemma {:induction false} SubjectTriple(macros: Macros, e: Expr, locals: Scope, a: Params, b: Params, c: Params,
                                         site: Scope, depth: nat, nesting: nat)
    requires e.Match? && nesting <= MAX_EXPANSION_DEPTH && ParamsTriple(site, a, b, c)
    ensures Triple(site, Ideal(macros, e, locals, a, site, depth, nesting),
                   Ideal(macros, e, locals, b, map[], depth, nesting),
                   Ideal(macros, e, locals, c, map[], depth, nesting))
    decreases MAX_EXPANSION_DEPTH - nesting, 1, e, 1
  {
    hide IdealMatch, ParamsTriple, Triple;
    var sa: Meaning := (d: nat) => Ideal(macros, e.subject, locals, a, site, d, nesting);
    var sb: Meaning := (d: nat) => Ideal(macros, e.subject, locals, b, map[], d, nesting);
    var sc: Meaning := (d: nat) => Ideal(macros, e.subject, locals, c, map[], d, nesting);
    forall d: nat ensures Triple(site, sa(d), sb(d), sc(d)) {
      IdealTriple(macros, e.subject, locals, a, b, c, site, d, nesting);
    }
    CasesTriple(macros, e, e.cases, sa, sb, sc, locals, a, b, c, site, depth, nesting);
  }

  function Captured(p: Pattern, subject: Meaning): Params {
    map x | x in CaptureNames(p) :: ((d: nat) => CaptureMeaning(p, subject, x, d))
  }

  lemma CapturedTriple(p: Pattern, sa: Meaning, sb: Meaning, sc: Meaning, a: Params, b: Params, c: Params, site: Scope)
    requires MeaningTriple(site, sa, sb, sc) && ParamsTriple(site, a, b, c)
    ensures ParamsTriple(site, a + Captured(p, sa), b + Captured(p, sb), c + Captured(p, sc))
  {
    hide Triple;
    forall x | x in CaptureNames(p)
      ensures MeaningTriple(site, Captured(p, sa)[x], Captured(p, sb)[x], Captured(p, sc)[x])
    {
      forall d: nat
        ensures Triple(site, CaptureMeaning(p, sa, x, d), CaptureMeaning(p, sb, x, d), CaptureMeaning(p, sc, x, d))
      {
        MatchTriple(p, site, sa(d), sb(d), sc(d), map[], map[], map[]);
        ErrorTriple(site);
      }
    }
  }

  lemma {:induction false} CasesTriple(macros: Macros, e: Expr, cases: seq<Case>, sa: Meaning, sb: Meaning, sc: Meaning,
                                       locals: Scope, a: Params, b: Params, c: Params, site: Scope, depth: nat,
                                       nesting: nat)
    requires nesting <= MAX_EXPANSION_DEPTH && ParamsTriple(site, a, b, c) && MeaningTriple(site, sa, sb, sc)
    requires e.Match? && |cases| <= |e.cases| && cases == e.cases[|e.cases| - |cases|..]
    ensures Triple(site, IdealMatch(macros, e, cases, sa, locals, a, site, depth, nesting),
                   IdealMatch(macros, e, cases, sb, locals, b, map[], depth, nesting),
                   IdealMatch(macros, e, cases, sc, locals, c, map[], depth, nesting))
    decreases MAX_EXPANSION_DEPTH - nesting, 1, e, 0, |cases|
  {
    hide Ideal, ParamsTriple, Triple, CaptureMeaning;
    if cases == [] {
      IdealTriple(macros, e.fallback, locals, a, b, c, site, depth, nesting);
    } else {
      var p := cases[0].pattern;
      MatchTriple(p, site, sa(depth), sb(depth), sc(depth), map[], map[], map[]);
      if BindResolved(p, sc(depth), map[]).Some? {
        CapturedTriple(p, sa, sb, sc, a, b, c, site);
        assert cases[0] == e.cases[|e.cases| - |cases|];
        IdealTriple(macros, cases[0].result, locals, a + Captured(p, sa), b + Captured(p, sb), c + Captured(p, sc), site,
                    depth, nesting);
      } else {
        CasesTriple(macros, e, cases[1..], sa, sb, sc, locals, a, b, c, site, depth, nesting);
      }
    }
  }

  // ---------- calls ----------

  function Closed(args: seq<Meaning>): (closed: seq<Meaning>)
    ensures |closed| == |args|
  {
    seq(|args|, i requires 0 <= i < |args| => ((d: nat) => Close(args[i](d))))
  }

  /** The free names of macro bodies that a call leaves in its expansion: those of the macro called and
      of the macros it calls in turn, as far as they are reached, but none of the arguments'. */
  ghost function LeftToSite(macros: Macros, name: string, args: seq<Meaning>, depth: nat, nesting: nat): set<string>
    requires nesting <= MAX_EXPANSION_DEPTH
  {
    Globals(IdealCall(macros, name, Closed(args), map[], depth, nesting))
  }

  /** A call means what it would mean where the macros are defined, its arguments apart, exactly when
      no binder around it has one of these names. */
  lemma DefinitionKeptExactly(macros: Macros, name: string, args: seq<Meaning>, site: Scope, depth: nat, nesting: nat)
    requires nesting <= MAX_EXPANSION_DEPTH
    ensures IdealCall(macros, name, args, site, depth, nesting) == IdealCall(macros, name, args, map[], depth, nesting) <==>
            LeftToSite(macros, name, args, depth, nesting) !! site.Keys
  {
    hide IdealCall, Triple, Globals;
    forall i | 0 <= i < |args| ensures MeaningTriple(site, args[i], args[i], Closed(args)[i]) {
      forall d: nat ensures Triple(site, args[i](d), args[i](d), Closed(args)[i](d)) {
        CloseTriple(site, args[i](d));
      }
    }
    MacroTriple(macros, name, args, args, Closed(args), site, depth, nesting);
    TripleExactly(site, IdealCall(macros, name, args, site, depth, nesting),
                  IdealCall(macros, name, args, map[], depth, nesting),
                  IdealCall(macros, name, Closed(args), map[], depth, nesting));
  }

  /** So it is with the expansion of a call in a program. */
  lemma ExpansionKeptExactly(macros: Macros, name: string, args: seq<Expr>, meanings: seq<Meaning>, scope: Scope,
                             counter: nat, depth: nat)
    requires MacrosOk(macros) && CleanAll(macros, args, counter) && ArgsMean(args, meanings, scope)
    requires ExpandMacroCall(macros, name, args, counter, 0).Some?
    ensures Resolve(ExpandMacroCall(macros, name, args, counter, 0).value.expr, scope, depth) ==
            IdealCall(macros, name, meanings, map[], depth, 0) <==>
            LeftToSite(macros, name, meanings, depth, 0) !! scope.Keys
  {
    hide ExpandMacroCall, IdealCall, MacrosOk, LeftToSite, CleanAll, ArgsMean;
    ExpansionMeans(macros, name, args, meanings, scope, scope, counter, depth, 0);
    DefinitionKeptExactly(macros, name, meanings, scope, depth, 0);
  }

  // ---------- which names those can be ----------

  /** Names in a body that are neither bound there nor in `bound`, nor called as macros. */
  function Loose(macros: Macros, e: Expr, bound: set<string>): set<string>
    decreases e, 1
  {
    match e
    case Lit(_) => {}
    case Var(x) => {x} - bound
    case Node(_, kids) => LooseAll(macros, kids, bound)
    case Bind(_, x, init, body) => Loose(macros, init, bound) + Loose(macros, body, bound + {x})
    case Lambda(ps, body) => Loose(macros, body, bound + (set p | p in ps))
    case Call(f, args) => ({f} - bound - macros.Keys) + LooseAll(macros, args, bound)
    case Match(subject, cases, fallback) =>
      Loose(macros, subject, bound) + Loose(macros, fallback, bound) +
      (set i, x | 0 <= i < |cases| && x in Loose(macros, cases[i].result, bound + CaptureNames(cases[i].pattern)) :: x)
  }

  function LooseAll(macros: Macros, es: seq<Expr>, bound: set<string>): set<string>
    decreases es, 0
  {
    if es == [] then {} else Loose(macros, es[0], bound) + LooseAll(macros, es[1..], bound)
  }

  function ParamNames(m: Macro): set<string> {
    set p | p in m.params
  }

  /** The free names of all macro bodies. */
  function MacroLoose(macros: Macros): set<string> {
    set f, x | f in macros && x in Loose(macros, macros[f].body, ParamNames(macros[f])) :: x
  }

  /** Names of the macros and free names of their bodies: what a program had better not bind. */
  function Exposed(macros: Macros): set<string> {
    MacroLoose(macros) + macros.Keys
  }

  ghost predicate Within(m: Meaning, names: set<string>) {
    forall d: nat :: Globals(m(d)) <= names
  }

  ghost predicate ParamsWithin(params: Params, names: set<string>) {
    forall p | p in params :: Within(params[p], names)
  }

  ghost predicate AllWithin(ms: seq<Meaning>, names: set<string>) {
    forall i | 0 <= i < |ms| :: Within(ms[i], names)
  }

  lemma {:induction false} BindAllKeys(locals: Scope, names: seq<string>, level: nat)
    ensures BindAll(locals, names, level).Keys == locals.Keys + (set p | p in names)
    decreases names
  {
    if names != [] {
      BindAllKeys(locals[names[0] := level], names[1..], level + 1);
    }
  }

  /** What the meaning of a body shows: names that the body leaves free, those of other macro bodies,
      and what its parameters show. */
  lemma {:induction false} IdealLoose(macros: Macros, e: Expr, locals: Scope, params: Params, names: set<string>,
                                      depth: nat, nesting: nat)
    requires nesting <= MAX_EXPANSION_DEPTH && ParamsWithin(params, names)
    ensures Globals(Ideal(macros, e, locals, params, map[], depth, nesting)) <=
            Loose(macros, e, locals.Keys + params.Keys) + MacroLoose(macros) + names
    decreases MAX_EXPANSION_DEPTH - nesting, 1, e, 2
  {
    hide IdealApply, IdealMatch, MacroLoose;
    match e
    case Lit(_) =>
    case Var(x) =>
      if x in params {
        assert Within(params[x], names);
      }
    case Node(_, kids) => IdealAllLoose(macros, kids, locals, params, names, depth, nesting);
    case Bind(_, x, init, body) =>
      IdealLoose(macros, init, locals, params, names, depth, nesting);
      IdealLoose(macros, body, locals[x := depth], params, names, depth + 1, nesting);
      assert locals[x := depth].Keys + params.Keys == locals.Keys + params.Keys + {x};
    case Lambda(ps, body) =>
      BindAllKeys(locals, ps, depth);
      IdealLoose(macros, body, BindAll(locals, ps, depth), params, names, depth + |ps|, nesting);
      assert BindAll(locals, ps, depth).Keys + params.Keys == locals.Keys + params.Keys + (set p | p in ps);
    case Call(_, _) => IdealCallLoose(macros, e, locals, params, names, depth, nesting);
    case Match(_, _, _) => IdealMatchLoose(macros, e, locals, params, names, depth, nesting);
  }

  lemma {:induction false} IdealAllLoose(macros: Macros, es: seq<Expr>, locals: Scope, params: Params,
                                         names: set<string>, depth: nat, nesting: nat)
    requires nesting <= MAX_EXPANSION_DEPTH && ParamsWithin(params, names)
    ensures GlobalsAll(IdealAll(macros, es, locals, params, map[], depth, nesting)) <=
            LooseAll(macros, es, locals.Keys + params.Keys) + MacroLoose(macros) + names
    decreases MAX_EXPANSION_DEPTH - nesting, 1, es, 0
  {
    hide MacroLoose, Loose, Ideal;
    if es != [] {
      IdealLoose(macros, es[0], locals, params, names, depth, nesting);
      IdealAllLoose(macros, es[1..], locals, params, names, depth, nesting);
      var rest := IdealAll(macros, es[1..], locals, params, map[], depth, nesting);
      assert ([Ideal(macros, es[0], locals, params, map[], depth, nesting)] + rest)[1..] == rest;
    }
  }

  lemma {:induction false} LooseAllHas(macros: Macros, es: seq<Expr>, bound: set<string>, i: nat)
    requires i < |es|
    ensures Loose(macros, es[i], bound) <= LooseAll(macros, es, bound)
    decreases es
  {
    if i > 0 {
      LooseAllHas(macros, es[1..], bound, i - 1);
    }
  }

  lemma {:induction false} IdealCallLoose(macros: Macros, e: Expr, locals: Scope, params: Params, names: set<string>,
                                          depth: nat, nesting: nat)
    requires e.Call? && nesting <= MAX_EXPANSION_DEPTH && ParamsWithin(params, names)
    ensures Globals(Ideal(macros, e, locals, params, map[], depth, nesting)) <=
            Loose(macros, e, locals.Keys + params.Keys) + MacroLoose(macros) + names
    decreases MAX_EXPANSION_DEPTH - nesting, 1, e, 1
  {
    hide IdealApply, MacroLoose, ParamsWithin, Globals;
    var args, bound := e.args, locals.Keys + params.Keys;
    var ms: seq<Meaning> := seq(|args|, i requires 0 <= i < |args| =>
                                (d: nat) => Ideal(macros, args[i], locals, params, map[], d, nesting));
    var shown := LooseAll(macros, args, bound) + MacroLoose(macros) + names;
    forall i | 0 <= i < |args| ensures Within(ms[i], shown) {
      LooseAllHas(macros, args, bound, i);
      forall d: nat ensures Globals(ms[i](d)) <= shown {
        IdealLoose(macros, args[i], locals, params, names, d, nesting);
      }
    }
    ApplyLoose(macros, e.callee, ms, locals, params, names, shown, depth, nesting);
  }

  lemma {:induction false} AtWithin(ms: seq<Meaning>, names: set<string>, depth: nat)
    requires AllWithin(ms, names)
    ensures GlobalsAll(At(ms, depth)) <= names
    decreases ms
  {
    if ms != [] {
      assert Within(ms[0], names);
      AtWithin(ms[1..], names, depth);
      assert At(ms, depth)[1..] == At(ms[1..], depth);
    }
  }

  lemma {:induction false} ApplyLoose(macros: Macros, f: string, ms: seq<Meaning>, locals: Scope, params: Params,
                                      names: set<string>, shown: set<string>, depth: nat, nesting: nat)
    requires nesting <= MAX_EXPANSION_DEPTH && ParamsWithin(params, names) && AllWithin(ms, shown)
    requires names <= shown && MacroLoose(macros) <= shown
    ensures Globals(IdealApply(macros, f, ms, locals, params, map[], depth, nesting)) <=
            ({f} - (locals.Keys + params.Keys) - macros.Keys) + shown
    decreases MAX_EXPANSION_DEPTH - nesting, 0, 1
  {
    hide IdealCall, MacroLoose, At;
    AtWithin(ms, shown, depth);
    if f !in locals && f in params {
      assert Within(params[f], names);
      var v := params[f](depth);
      assert Globals(v) <= names;
      assert ([v] + At(ms, depth))[1..] == At(ms, depth);
    } else if f !in locals && f in macros {
      MacroCallLoose(macros, f, ms, shown, depth, nesting);
    }
  }

  lemma {:induction false} ZipWithin(ps: seq<string>, ms: seq<Meaning>, names: set<string>)
    requires |ps| == |ms| && AllWithin(ms, names)
    ensures ParamsWithin(Zip(ps, ms), names) && Zip(ps, ms).Keys == (set p | p in ps)
    decreases ps
  {
    hide Within;
    ZipSound(ps, ms);
    if ps != [] {
      var n := |ps| - 1;
      ZipWithin(ps[..n], ms[..n], names);
    }
  }

  lemma {:induction false} MacroCallLoose(macros: Macros, name: string, ms: seq<Meaning>, names: set<string>, depth: nat,
                                          nesting: nat)
    requires nesting <= MAX_EXPANSION_DEPTH && AllWithin(ms, names)
    ensures Globals(IdealCall(macros, name, ms, map[], depth, nesting)) <= MacroLoose(macros) + names
    decreases MAX_EXPANSION_DEPTH - nesting, 0, 0
  {
    hide Ideal, Loose;
    if name in macros && nesting < MAX_EXPANSION_DEPTH && |ms| == |macros[name].params| {
      var ps := macros[name].params;
      ZipWithin(ps, ms, names);
      IdealLoose(macros, macros[name].body, map[], Zip(ps, ms), names, depth, nesting + 1);
      var none: Scope := map[];
      assert none.Keys + Zip(ps, ms).Keys == ParamNames(macros[name]);
    }
  }

  lemma {:induction false} BindWithin(p: Pattern, v: Resolved, captures: Captures, names: set<string>)
    requires Globals(v) <= names && forall x | x in captures :: Globals(captures[x]) <= names
    requires BindResolved(p, v, captures).Some?
    ensures forall x | x in BindResolved(p, v, captures).value :: Globals(BindResolved(p, v, captures).value[x]) <= names
    decreases p
  {
    match p
    case Capture(_) =>
    case LitPattern(_) =>
    case BinaryPattern(_, left, right) =>
      TwoGlobals(v.kids);
      BindWithin(left, v.kids[0], captures, names);
      BindWithin(right, v.kids[1], BindResolved(left, v.kids[0], captures).value, names);
    case UnaryPattern(_, operand) =>
      BindWithin(operand, v.kids[0], captures, names);
    case Other =>
  }

  lemma TwoGlobals(rs: seq<Resolved>)
    requires |rs| == 2
    ensures Globals(rs[0]) <= GlobalsAll(rs) && Globals(rs[1]) <= GlobalsAll(rs)
  {
    assert GlobalsAll(rs[1..]) == Globals(rs[1..][0]) + GlobalsAll(rs[1..][1..]);
  }

  lemma CapturedWithin(p: Pattern, subject: Meaning, names: set<string>)
    requires Within(subject, names)
    ensures ParamsWithin(Captured(p, subject), names)
  {
    hide Globals;
    forall x | x in CaptureNames(p) ensures Within(Captured(p, subject)[x], names) {
      forall d: nat ensures Globals(CaptureMeaning(p, subject, x, d)) <= names {
        if BindResolved(p, subject(d), map[]).Some? {
          BindWithin(p, subject(d), map[], names);
        }
        NoGlobals();
      }
    }
  }

  lemma NoGlobals()
    ensures Globals(RError) == {}
  {
  }

  lemma {:induction false} IdealMatchLoose(macros: Macros, e: Expr, locals: Scope, params: Params, names: set<string>,
                                           depth: nat, nesting: nat)
    requires e.Match? && nesting <= MAX_EXPANSION_DEPTH && ParamsWithin(params, names)
    ensures Globals(Ideal(macros, e, locals, params, map[], depth, nesting)) <=
            Loose(macros, e, locals.Keys + params.Keys) + MacroLoose(macros) + names
    decreases MAX_EXPANSION_DEPTH - nesting, 1, e, 1
  {
    hide IdealMatch, MacroLoose, ParamsWithin, Globals;
    var bound := locals.Keys + params.Keys;
    var subject: Meaning := (d: nat) => Ideal(macros, e.subject, locals, params, map[], d, nesting);
    var shown := Loose(macros, e.subject, bound) + MacroLoose(macros) + names;
    forall d: nat ensures Globals(subject(d)) <= shown {
      IdealLoose(macros, e.subject, locals, params, names, d, nesting);
    }
    CasesLoose(macros, e, e.cases, subject, locals, params, names, shown, depth, nesting);
  }

  lemma {:induction false} CasesLoose(macros: Macros, e: Expr, cases: seq<Case>, subject: Meaning, locals: Scope,
                                      params: Params, names: set<string>, shown: set<string>, depth: nat, nesting: nat)
    requires nesting <= MAX_EXPANSION_DEPTH && ParamsWithin(params, names) && Within(subject, shown) && names <= shown
    requires e.Match? && |cases| <= |e.cases| && cases == e.cases[|e.cases| - |cases|..]
    requires MacroLoose(macros) + Loose(macros, e.subject, locals.Keys + params.Keys) <= shown
    ensures Globals(IdealMatch(macros, e, cases, subject, locals, params, map[], depth, nesting)) <=
            Loose(macros, e, locals.Keys + params.Keys) + shown
    decreases MAX_EXPANSION_DEPTH - nesting, 1, e, 0, |cases|
  {
    hide Ideal, Globals, MacroLoose, ParamsWithin, Within, CaptureMeaning;
    var bound := locals.Keys + params.Keys;
    if cases == [] {
      ParamsWider(params, names, shown);
      IdealLoose(macros, e.fallback, locals, params, shown, depth, nesting);
    } else if BindResolved(cases[0].pattern, subject(depth), map[]).Some? {
      var p, k := cases[0].pattern, |e.cases| - |cases|;
      assert cases[0] == e.cases[k];
      ParamsWider(params, names, shown);
      CapturedWithin(p, subject, shown);
      ParamsTogether(params, Captured(p, subject), shown);
      IdealLoose(macros, cases[0].result, locals, params + Captured(p, subject), shown, depth, nesting);
      assert locals.Keys + (params + Captured(p, subject)).Keys == bound + CaptureNames(p);
      CaseLoose(macros, e, k, bound);
    } else {
      CasesLoose(macros, e, cases[1..], subject, locals, params, names, shown, depth, nesting);
    }
  }

  lemma CaseLoose(macros: Macros, e: Expr, k: nat, bound: set<string>)
    requires e.Match? && k < |e.cases|
    ensures Loose(macros, e.cases[k].result, bound + CaptureNames(e.cases[k].pattern)) <= Loose(macros, e, bound)
  {
  }

  lemma ParamsWider(params: Params, names: set<string>, wider: set<string>)
    requires ParamsWithin(params, names) && names <= wider
    ensures ParamsWithin(params, wider)
  {
    forall p | p in params ensures Within(params[p], wider) {
      assert Within(params[p], names);
    }
  }

  lemma ParamsTogether(a: Params, b: Params, names: set<string>)
    requires ParamsWithin(a, names) && ParamsWithin(b, names)
    ensures ParamsWithin(a + b, names)
  {
    hide Within;
  }

  /** Only free names of macro bodies are left to the site. */
  lemma LeftAreLoose(macros: Macros, name: string, args: seq<Meaning>, depth: nat, nesting: nat)
    requires nesting <= MAX_EXPANSION_DEPTH
    ensures LeftToSite(macros, name, args, depth, nesting) <= MacroLoose(macros)
  {
    hide IdealCall, MacroLoose;
    forall i | 0 <= i < |args| ensures Within(Closed(args)[i], {}) {
      forall d: nat ensures Globals(Close(args[i](d))) <= {} {
        CloseShows(args[i](d));
      }
    }
    MacroCallLoose(macros, name, Closed(args), {}, depth, nesting);
  }

  lemma {:induction false} CloseShows(r: Resolved)
    ensures Globals(Close(r)) == {}
    decreases r
  {
    match r
    case RNode(_, kids) => CloseAllShows(kids);
    case RBind(_, init, body) =>
      CloseShows(init);
      CloseShows(body);
    case RLambda(_, body) => CloseShows(body);
    case RCall(_, args) => CloseAllShows(args);
    case _ =>
  }

  lemma {:induction false} CloseAllShows(rs: seq<Resolved>)
    ensures GlobalsAll(CloseAll(rs)) == {}
    decreases rs
  {
    if rs != [] {
      CloseShows(rs[0]);
      CloseAllShows(rs[1..]);
      assert CloseAll(rs)[1..] == CloseAll(rs[1..]);
    }
  }

  // ---------- whole programs ----------

  /** The lexical meaning of a text: free names of macro bodies mean what they mean where the macros are
      defined, outside all binders of the text, and a call of a name that the text binds is no macro call. */
  ghost function Lexical(macros: Macros, e: Expr, scope: Scope, depth: nat): Resolved
    decreases e, 1
  {
    match e
    case Lit(l) => RLit(l)
    case Var(x) => RVar(Refer(scope, x))
    case Node(kind, kids) => RNode(kind, LexicalAll(macros, kids, scope, depth))
    case Bind(k, x, i, b) =>
      RBind(k, Lexical(macros, i, scope, depth), Lexical(macros, b, scope[x := depth], depth + 1))
    case Lambda(ps, b) =>
      RLambda(|ps|, Lexical(macros, b, BindAll(scope, ps, depth), depth + |ps|))
    case Call(f, args) =>
      if f in macros && f !in scope then
        IdealCall(macros, f, seq(|args|, i requires 0 <= i < |args| =>
                                  (d: nat) => Lexical(macros, args[i], scope, d)), map[], depth, 0)
      else RCall(Refer(scope, f), LexicalAll(macros, args, scope, depth))
    case Match(_, _, _) => RError
  }

  ghost function LexicalAll(macros: Macros, es: seq<Expr>, scope: Scope, depth: nat): (rs: seq<Resolved>)
    ensures |rs| == |es| && forall i | 0 <= i < |es| :: rs[i] == Lexical(macros, es[i], scope, depth)
    decreases es, 0
  {
    if es == [] then []
    else [Lexical(macros, es[0], scope, depth)] + LexicalAll(macros, es[1..], scope, depth)
  }

  /** Names that a text binds. */
  function Binders(e: Expr): set<string>
    decreases e, 1
  {
    match e
    case Lit(_) => {}
    case Var(_) => {}
    case Node(_, kids) => BindersAll(kids)
    case Bind(_, x, i, b) => {x} + Binders(i) + Binders(b)
    case Lambda(ps, b) => (set p | p in ps) + Binders(b)
    case Call(_, args) => BindersAll(args)
    case Match(_, _, _) => {}
  }

  function BindersAll(es: seq<Expr>): (names: set<string>)
    ensures forall i | 0 <= i < |es| :: Binders(es[i]) <= names
    decreases es, 0
  {
    if es == [] then {} else Binders(es[0]) + BindersAll(es[1..])
  }

  /** A text that binds no free name of a macro body and no macro's name means what it means lexically. */
  lemma {:induction false} MeantLexically(macros: Macros, e: Expr, scope: Scope, depth: nat)
    requires Exposed(macros) !! scope.Keys + Binders(e)
    ensures Meant(macros, e, scope, depth) == Lexical(macros, e, scope, depth)
    decreases e, 1
  {
    hide IdealCall, MacroLoose;
    match e
    case Lit(_) =>
    case Var(_) =>
    case Node(_, kids) => AllLexical(macros, kids, scope, depth);
    case Bind(_, x, init, body) =>
      MeantLexically(macros, init, scope, depth);
      MeantLexically(macros, body, scope[x := depth], depth + 1);
    case Lambda(ps, body) =>
      BindAllKeys(scope, ps, depth);
      MeantLexically(macros, body, BindAll(scope, ps, depth), depth + |ps|);
    case Call(f, args) =>
      AllLexical(macros, args, scope, depth);
      if f in macros {
        MacroCallKept(macros, e, scope, depth);
      }
    case Match(_, _, _) =>
  }

  lemma {:induction false} AllLexical(macros: Macros, es: seq<Expr>, scope: Scope, depth: nat)
    requires Exposed(macros) !! scope.Keys + BindersAll(es)
    ensures MeantAll(macros, es, scope, depth) == LexicalAll(macros, es, scope, depth)
    decreases es, 0
  {
    hide Meant, Lexical, MacroLoose;
    if es != [] {
      MeantLexically(macros, es[0], scope, depth);
      AllLexical(macros, es[1..], scope, depth);
    }
  }

  lemma {:induction false} MacroCallKept(macros: Macros, e: Expr, scope: Scope, depth: nat)
    requires e.Call? && e.callee in macros && Exposed(macros) !! scope.Keys + BindersAll(e.args)
    ensures Meant(macros, e, scope, depth) == Lexical(macros, e, scope, depth)
    decreases e, 0
  {
    hide IdealCall, MacroLoose, Triple, Globals;
    var f, args := e.callee, e.args;
    var ma: seq<Meaning> := seq(|args|, i requires 0 <= i < |args| => (d: nat) => Meant(macros, args[i], scope, d));
    var mb: seq<Meaning> := seq(|args|, i requires 0 <= i < |args| =>
                                (d: nat) => Lexical(macros, args[i], scope, d));
    forall i | 0 <= i < |args| ensures MeaningTriple(scope, ma[i], mb[i], Closed(ma)[i]) {
      forall d: nat ensures Triple(scope, ma[i](d), mb[i](d), Closed(ma)[i](d)) {
        MeantLexically(macros, args[i], scope, d);
        CloseTriple(scope, ma[i](d));
      }
    }
    MacroTriple(macros, f, ma, mb, Closed(ma), scope, depth, 0);
    LeftAreLoose(macros, f, ma, depth, 0);
    TripleExactly(scope, IdealCall(macros, f, ma, scope, depth, 0), IdealCall(macros, f, mb, map[], depth, 0),
                  IdealCall(macros, f, Closed(ma), map[], depth, 0));
  }

  /** Hygiene both ways: where the program binds no free name of a macro body and no macro's name, no
      binder of a macro captures the program's names and no binder of the program the macros'. */
  lemma FullyHygienic(macros: Macros, e: Expr, counter: nat)
    requires MacrosOk(macros) && Unclashing(macros, e, counter) && Expand(macros, e, counter).Some?
    requires Exposed(macros) !! Binders(e)
    ensures Resolve(Expand(macros, e, counter).value.expr, map[], 0) == Lexical(macros, e, map[], 0)
  {
    hide Expand, Meant, Lexical, MacroLoose, Unclashing, MacrosOk;
    ExpansionIsHygienic(macros, e, counter, map[], 0);
    MeantLexically(macros, e, map[], 0);
  }

  /** With `m() = y`, the program `let y = 5 in m()` captures the macro's `y`, for every name `y`. */
  lemma FreeNameCaptured(y: string, counter: nat)
    requires !Reserved(y) && y != "m"
    ensures var macros, e := map["m" := Macro([], Var(y))], Bind(LetIn, y, FIVE, Call("m", []));
            && MacrosOk(macros) && Unclashing(macros, e, counter) && Expand(macros, e, counter).Some?
            && Resolve(Expand(macros, e, counter).value.expr, map[], 0) ==
               RBind(LetIn, RLit(FIVE.literal), RVar(Binder(0)))
            && Lexical(macros, e, map[], 0) == RBind(LetIn, RLit(FIVE.literal), RVar(Global(y)))
  {
    var macros := map["m" := Macro([], Var(y))];
    var call := Call("m", []);
    var e := Bind(LetIn, y, FIVE, call);
    CalledSource(macros, e, y);
    SourceUnclashing(macros, e, counter);
    CalledExpands(macros, e, y, counter);
    CalledLexically(macros, e, y);
  }

  lemma CalledSource(macros: Macros, e: Expr, y: string)
    requires !Reserved(y) && y != "m" && macros == map["m" := Macro([], Var(y))]
    requires e == Bind(LetIn, y, FIVE, Call("m", []))
    ensures MacrosOk(macros) && Source(macros, e)
  {
    assert "m"[0] != "__macro_"[0];
    assert AllNames(Var(y)) == {y} && VarNames(Var(y)) == {y};
    NamesOfNone();
    NamesOfCall(y, "m", []);
  }

  lemma CalledExpands(macros: Macros, e: Expr, y: string, counter: nat)
    requires macros == map["m" := Macro([], Var(y))] && e == Bind(LetIn, y, FIVE, Call("m", []))
    ensures Expand(macros, e, counter) == Some(Cloned(Bind(LetIn, y, FIVE, Var(y)), counter))
    ensures Resolve(Bind(LetIn, y, FIVE, Var(y)), map[], 0) == RBind(LetIn, RLit(FIVE.literal), RVar(Binder(0)))
  {
    assert LookupLocal([map[]], y) == None;
    assert Clone(macros, Var(y), map[], [map[]], counter, 1) == Some(Cloned(Var(y), counter));
    assert ExpandMacroCall(macros, "m", [], counter, 0) == Some(Cloned(Var(y), counter));
    assert CallNamed(macros, "m", [], counter, 0) == Some(Cloned(Var(y), counter));
    assert Expand(macros, Call("m", []), counter) == Some(Cloned(Var(y), counter));
    assert Expand(macros, FIVE, counter) == Some(Cloned(FIVE, counter));
  }

  lemma CalledLexically(macros: Macros, e: Expr, y: string)
    requires macros == map["m" := Macro([], Var(y))] && e == Bind(LetIn, y, FIVE, Call("m", [])) && y != "m"
    ensures Lexical(macros, e, map[], 0) == RBind(LetIn, RLit(FIVE.literal), RVar(Global(y)))
  {
    var scope: Scope := map[][y := 0];
    assert Ideal(macros, Var(y), map[], map[], map[], 1, 1) == RVar(Global(y));
    assert IdealCall(macros, "m", [], map[], 1, 0) == RVar(Global(y));
    assert Lexical(macros, Call("m", []), scope, 1) == RVar(Global(y));
  }

  /** With a macro `x() = 1`, the program `let x = 5 in x()` calls the macro and not its own `x`, for
      every name `x`. */
  lemma BoundMacroName(x: string, counter: nat)
    requires !Reserved(x)
    ensures var macros, e := map[x := Macro([], ONE)], Bind(LetIn, x, FIVE, Call(x, []));
            && MacrosOk(macros) && Unclashing(macros, e, counter) && Expand(macros, e, counter).Some?
            && Resolve(Expand(macros, e, counter).value.expr, map[], 0) ==
               RBind(LetIn, RLit(FIVE.literal), RLit(ONE.literal))
            && Lexical(macros, e, map[], 0) == RBind(LetIn, RLit(FIVE.literal), RCall(Binder(0), []))
  {
    var macros := map[x := Macro([], ONE)];
    var e := Bind(LetIn, x, FIVE, Call(x, []));
    NamesOfNone();
    NamesOfCall(x, x, []);
    SourceUnclashing(macros, e, counter);
    assert Clone(macros, ONE, map[], [map[]], counter, 1) == Some(Cloned(ONE, counter));
    assert ExpandMacroCall(macros, x, [], counter, 0) == Some(Cloned(ONE, counter));
    assert CallNamed(macros, x, [], counter, 0) == Some(Cloned(ONE, counter));
    assert Expand(macros, Call(x, []), counter) == Some(Cloned(ONE, counter));
    assert Expand(macros, FIVE, counter) == Some(Cloned(FIVE, counter));
    assert Expand(macros, e, counter) == Some(Cloned(Bind(LetIn, x, FIVE, ONE), counter));
    var scope: Scope := map[][x := 0];
    assert Lexical(macros, Call(x, []), scope, 1) == RCall(Binder(0), []);
  }

  /** Programs may bind `x`, with any macros to which it is exposed or not, if they bind no other exposed
      name. */
  ghost predicate SafeBinder(x: string, exposed: bool, counter: nat) {
    forall macros: Macros, e: Expr |
      MacrosOk(macros) && Unclashing(macros, e, counter) && (x in Exposed(macros) <==> exposed) &&
      Exposed(macros) * Binders(e) <= {x} ::
      LexicallyExpanded(macros, e, counter)
  }

  ghost predicate LexicallyExpanded(macros: Macros, e: Expr, counter: nat) {
    Expand(macros, e, counter).Some? ==>
      Resolve(Expand(macros, e, counter).value.expr, map[], 0) == Lexical(macros, e, map[], 0)
  }

  lemma NoneExposed(a: set<string>, b: set<string>, x: string)
    requires a * b <= {x} && x !in a
    ensures a !! b
  {
    assert x !in a * b;
    assert a * b == {};
    forall y | y in a ensures y !in b {
      assert y !in a * b;
    }
  }

  /** A name may be bound exactly when it is no macro's and free in no macro body. */
  lemma SafeBinderExactly(x: string, exposed: bool, counter: nat)
    requires !Reserved(x)
    ensures SafeBinder(x, exposed, counter) <==> !exposed
  {
    hide Expand, Resolve, Lexical, MacroLoose, MacrosOk, Unclashing;
    if exposed {
      BoundMacroName(x, counter);
      var macros, e := map[x := Macro([], ONE)], Bind(LetIn, x, FIVE, Call(x, []));
      assert x in Exposed(macros) && Binders(FIVE) == {} && Binders(Call(x, [])) == {};
      assert Exposed(macros) * Binders(e) <= {x};
      assert !LexicallyExpanded(macros, e, counter);
    } else {
      forall macros: Macros, e: Expr |
        MacrosOk(macros) && Unclashing(macros, e, counter) && (x in Exposed(macros) <==> exposed) &&
        Exposed(macros) * Binders(e) <= {x}
        ensures LexicallyExpanded(macros, e, counter)
      {
        if Expand(macros, e, counter).Some? {
          NoneExposed(Exposed(macros), Binders(e), x);
          FullyHygienic(macros, e, counter);
        }
      }
    }
  }
}
