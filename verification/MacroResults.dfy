/** The results of expansion contain nothing left to expand, and compile-time matches choose the
    first case the subject is an instance of. */
module MacroResults {
  import opened Wrappers
  import opened MacroSyntax
  import opened MacroExpansion
  import opened MacroHygiene
  import opened MacroTheorems

  // ---------- nothing is left to expand ----------

  /** A tree without macro calls and without compile-time matches. */
  predicate MacroFree(macros: Macros, e: Expr)
    decreases e
  {
    match e
    case Lit(_) => true
    case Var(_) => true
    case Node(_, kids) => MacroFreeAll(macros, kids)
    case Bind(_, _, init, body) => MacroFree(macros, init) && MacroFree(macros, body)
    case Lambda(_, body) => MacroFree(macros, body)
    case Call(f, args) => f !in macros && MacroFreeAll(macros, args)
    case Match(_, _, _) => false
  }

  predicate MacroFreeAll(macros: Macros, es: seq<Expr>)
    decreases es
  {
    forall i | 0 <= i < |es| :: MacroFree(macros, es[i])
  }

  predicate BindingsFree(macros: Macros, bindings: Bindings) {
    forall p | p in bindings :: MacroFree(macros, bindings[p])
  }

  lemma {:induction false} CapturesFree(macros: Macros, p: Pattern, v: Expr, captures: Bindings)
    requires MacroFree(macros, v) && BindingsFree(macros, captures) && BindPattern(p, v, captures).Some?
    ensures BindingsFree(macros, BindPattern(p, v, captures).value)
    decreases p
  {
    match p
    case Capture(_) =>
    case LitPattern(_) =>
    case BinaryPattern(_, l, r) =>
      CapturesFree(macros, l, v.kids[0], captures);
      CapturesFree(macros, r, v.kids[1], BindPattern(l, v.kids[0], captures).value);
    case UnaryPattern(_, a) =>
      CapturesFree(macros, a, v.kids[0], captures);
    case Other =>
  }

  /** An expansion leaves no macro call behind, however deeply macros call each other: so expanding
      its result once more, as the expander does, changes nothing. */
  lemma {:induction false} CloneFree(macros: Macros, e: Expr, bindings: Bindings, renames: Renames, counter: nat,
                                     depth: nat)
    requires depth <= MAX_EXPANSION_DEPTH && BindingsFree(macros, bindings)
    requires Clone(macros, e, bindings, renames, counter, depth).Some?
    ensures MacroFree(macros, Clone(macros, e, bindings, renames, counter, depth).value.expr)
    decreases MAX_EXPANSION_DEPTH - depth, 1, e, 1
  {
    hide FreshName, FreshAll, Zip;
    match e
    case Lit(_) =>
    case Var(_) =>
    case Node(_, kids) =>
      CloneAllFree(macros, kids, bindings, renames, counter, depth);
    case Bind(_, x, init, body) =>
      CloneFree(macros, init, bindings, renames, counter, depth);
      var r1 := Clone(macros, init, bindings, renames, counter, depth).value;
      CloneFree(macros, body, bindings, renames + [map[x := FreshName(x, r1.counter + 1)]], r1.counter + 1, depth);
    case Lambda(ps, body) =>
      CloneFree(macros, body, bindings, renames + [Zip(ps, FreshAll(ps, counter))], counter + |ps|, depth);
    case Call(f, args) =>
      CloneAllFree(macros, args, bindings, renames, counter, depth);
      var a := CloneAll(macros, args, bindings, renames, counter, depth).value;
      CloneCallFree(macros, f, a.exprs, bindings, renames, a.counter, depth);
    case Match(subject, cases, _) =>
      CloneFree(macros, subject, bindings, renames, counter, depth);
      var v := Clone(macros, subject, bindings, renames, counter, depth).value;
      CloneMatchFree(macros, e, cases, v.expr, bindings, renames, v.counter, depth);
  }

  lemma {:induction false} CloneAllFree(macros: Macros, es: seq<Expr>, bindings: Bindings, renames: Renames,
                                        counter: nat, depth: nat)
    requires depth <= MAX_EXPANSION_DEPTH && BindingsFree(macros, bindings)
    requires CloneAll(macros, es, bindings, renames, counter, depth).Some?
    ensures MacroFreeAll(macros, CloneAll(macros, es, bindings, renames, counter, depth).value.exprs)
    decreases MAX_EXPANSION_DEPTH - depth, 1, es, 0
  {
    if es != [] {
      CloneFree(macros, es[0], bindings, renames, counter, depth);
      var r1 := Clone(macros, es[0], bindings, renames, counter, depth).value;
      CloneAllFree(macros, es[1..], bindings, renames, r1.counter, depth);
    }
  }

  lemma {:induction false} CloneCallFree(macros: Macros, f: string, args: seq<Expr>, bindings: Bindings,
                                         renames: Renames, counter: nat, depth: nat)
    requires depth <= MAX_EXPANSION_DEPTH && BindingsFree(macros, bindings) && MacroFreeAll(macros, args)
    requires CloneCall(macros, f, args, bindings, renames, counter, depth).Some?
    ensures MacroFree(macros, CloneCall(macros, f, args, bindings, renames, counter, depth).value.expr)
    decreases MAX_EXPANSION_DEPTH - depth, 0, 2
  {
    hide ExpandMacroCall;
    var local := LookupLocal(renames, f);
    if local.Some? {
      CallNamedFree(macros, local.value, args, counter, depth);
    } else if f in bindings && !bindings[f].Var? {
      var kids := [bindings[f]] + args;
      assert MacroFreeAll(macros, kids);
    } else {
      CallNamedFree(macros, if f in bindings then bindings[f].name else f, args, counter, depth);
    }
  }

  lemma {:induction false} CallNamedFree(macros: Macros, f: string, args: seq<Expr>, counter: nat, depth: nat)
    requires depth <= MAX_EXPANSION_DEPTH && MacroFreeAll(macros, args)
    requires CallNamed(macros, f, args, counter, depth).Some?
    ensures MacroFree(macros, CallNamed(macros, f, args, counter, depth).value.expr)
    decreases MAX_EXPANSION_DEPTH - depth, 0, 1
  {
    if f in macros {
      var m := macros[f];
      ZipSound(m.params, args);
      assert CallNamed(macros, f, args, counter, depth) == ExpandMacroCall(macros, f, args, counter, depth);
      CloneFree(macros, m.body, Zip(m.params, args), [map[]], counter, depth + 1);
    }
  }

  lemma {:induction false} CloneMatchFree(macros: Macros, e: Expr, cases: seq<Case>, subject: Expr,
                                          bindings: Bindings, renames: Renames, counter: nat, depth: nat)
    requires depth <= MAX_EXPANSION_DEPTH && BindingsFree(macros, bindings) && MacroFree(macros, subject)
    requires e.Match? && |cases| <= |e.cases| && cases == e.cases[|e.cases| - |cases|..]
    requires CloneMatch(macros, e, cases, subject, bindings, renames, counter, depth).Some?
    ensures MacroFree(macros, CloneMatch(macros, e, cases, subject, bindings, renames, counter, depth).value.expr)
    decreases MAX_EXPANSION_DEPTH - depth, 1, e, 0, |cases|
  {
    hide BindPattern, MacroFree;
    if cases == [] {
      CloneFree(macros, e.fallback, bindings, renames, counter, depth);
    } else {
      match BindPattern(cases[0].pattern, subject, map[])
      case Some(captures) =>
        CapturesFree(macros, cases[0].pattern, subject, map[]);
        CloneFree(macros, cases[0].result, bindings + captures, renames, counter, depth);
      case None =>
        CloneMatchFree(macros, e, cases[1..], subject, bindings, renames, counter, depth);
    }
  }

  /** An expanded program contains no macro call. */
  lemma {:induction false} ExpandFree(macros: Macros, e: Expr, counter: nat)
    requires Expand(macros, e, counter).Some?
    ensures MacroFree(macros, Expand(macros, e, counter).value.expr)
    decreases e, 1
  {
    match e
    case Lit(_) =>
    case Var(_) =>
    case Node(_, kids) => ExpandAllFree(macros, kids, counter);
    case Bind(_, _, init, body) =>
      ExpandFree(macros, init, counter);
      ExpandFree(macros, body, Expand(macros, init, counter).value.counter);
    case Lambda(_, body) => ExpandFree(macros, body, counter);
    case Call(f, args) =>
      ExpandAllFree(macros, args, counter);
      var a := ExpandAll(macros, args, counter).value;
      CallNamedFree(macros, f, a.exprs, a.counter, 0);
    case Match(_, _, _) =>
  }

  lemma {:induction false} ExpandAllFree(macros: Macros, es: seq<Expr>, counter: nat)
    requires ExpandAll(macros, es, counter).Some?
    ensures MacroFreeAll(macros, ExpandAll(macros, es, counter).value.exprs)
    decreases es, 0
  {
    if es != [] {
      ExpandFree(macros, es[0], counter);
      ExpandAllFree(macros, es[1..], Expand(macros, es[0], counter).value.counter);
    }
  }

  /** Expansion changes a tree exactly when there is something to expand in it. */
  lemma {:induction false} ExpandIdle(macros: Macros, e: Expr, counter: nat)
    requires MacroFree(macros, e)
    ensures Expand(macros, e, counter) == Some(Cloned(e, counter))
    decreases e, 1
  {
    match e
    case Lit(_) =>
    case Var(_) =>
    case Node(_, kids) => ExpandAllIdle(macros, kids, counter);
    case Bind(_, _, init, body) =>
      ExpandIdle(macros, init, counter);
      ExpandIdle(macros, body, counter);
    case Lambda(_, body) => ExpandIdle(macros, body, counter);
    case Call(_, args) => ExpandAllIdle(macros, args, counter);
  }

  lemma {:induction false} ExpandAllIdle(macros: Macros, es: seq<Expr>, counter: nat)
    requires MacroFreeAll(macros, es)
    ensures ExpandAll(macros, es, counter) == Some(ClonedAll(es, counter))
    decreases es, 0
  {
    if es != [] {
      ExpandIdle(macros, es[0], counter);
      ExpandAllIdle(macros, es[1..], counter);
      assert es == [es[0]] + es[1..];
    }
  }

  /** Expansion is idempotent, fresh names included. */
  lemma ExpandTwice(macros: Macros, e: Expr, counter: nat, later: nat)
    requires Expand(macros, e, counter).Some?
    ensures var r := Expand(macros, e, counter).value.expr;
            Expand(macros, r, later) == Some(Cloned(r, later))
  {
    ExpandFree(macros, e, counter);
    ExpandIdle(macros, Expand(macros, e, counter).value.expr, later);
  }

  // ---------- patterns ----------

  /** The tree a pattern describes when its captures stand for the given trees. */
  function Fill(p: Pattern, captures: Bindings): Option<Expr> {
    match p
    case Capture(x) => if x in captures then Some(captures[x]) else None
    case LitPattern(l) => Some(Lit(l))
    case BinaryPattern(op, l, r) =>
      var left :- Fill(l, captures);
      var right :- Fill(r, captures);
      Some(Node(BinaryOp(op), [left, right]))
    case UnaryPattern(op, a) =>
      var operand :- Fill(a, captures);
      Some(Node(UnaryOp(op), [operand]))
    case Other => None
  }

  ghost predicate Instance(p: Pattern, v: Expr) {
    exists captures :: Fill(p, captures) == Some(v)
  }

  /** No name is captured twice. */
  predicate Linear(p: Pattern) {
    match p
    case Capture(_) => true
    case LitPattern(_) => true
    case BinaryPattern(_, l, r) => Linear(l) && Linear(r) && CaptureNames(l) !! CaptureNames(r)
    case UnaryPattern(_, a) => Linear(a)
    case Other => true
  }

  lemma {:induction false} FillDepends(p: Pattern, a: Bindings, b: Bindings)
    requires forall x | x in CaptureNames(p) :: x in a && x in b && a[x] == b[x]
    ensures Fill(p, a) == Fill(p, b)
    decreases p
  {
    match p
    case Capture(_) =>
    case LitPattern(_) =>
    case BinaryPattern(_, l, r) =>
      FillDepends(l, a, b);
      FillDepends(r, a, b);
    case UnaryPattern(_, operand) => FillDepends(operand, a, b);
    case Other =>
  }

  /** Matching an instance finds exactly the trees its captures stand for. */
  lemma {:induction false} InstanceMatches(p: Pattern, v: Expr, filling: Bindings, captures: Bindings)
    requires Fill(p, filling) == Some(v)
    ensures BindPattern(p, v, captures).Some?
    ensures forall x | x in CaptureNames(p) ::
              x in filling && x in BindPattern(p, v, captures).value &&
              BindPattern(p, v, captures).value[x] == filling[x]
    ensures forall x | x !in CaptureNames(p) ::
              (x in BindPattern(p, v, captures).value <==> x in captures) &&
              (x in captures ==> BindPattern(p, v, captures).value[x] == captures[x])
    decreases p
  {
    match p
    case Capture(_) =>
    case LitPattern(_) =>
    case BinaryPattern(_, l, r) =>
      InstanceMatches(l, v.kids[0], filling, captures);
      InstanceMatches(r, v.kids[1], filling, BindPattern(l, v.kids[0], captures).value);
    case UnaryPattern(_, a) =>
      InstanceMatches(a, v.kids[0], filling, captures);
    case Other =>
  }

  lemma {:induction false} MatchFills(p: Pattern, v: Expr, captures: Bindings)
    requires Linear(p) && BindPattern(p, v, captures).Some?
    ensures var found := BindPattern(p, v, captures).value;
            && Fill(p, found) == Some(v)
            && CaptureNames(p) <= found.Keys
            && (forall x | x in captures && x !in CaptureNames(p) :: x in found && found[x] == captures[x])
    decreases p
  {
    match p
    case Capture(_) =>
    case LitPattern(_) =>
    case BinaryPattern(op, l, r) =>
      MatchFills(l, v.kids[0], captures);
      var left := BindPattern(l, v.kids[0], captures).value;
      MatchFills(r, v.kids[1], left);
      var found := BindPattern(r, v.kids[1], left).value;
      FillDepends(l, left, found);
      assert v.kids == [v.kids[0], v.kids[1]];
    case UnaryPattern(_, a) =>
      MatchFills(a, v.kids[0], captures);
      assert v.kids == [v.kids[0]];
    case Other =>
  }

  /** For patterns that capture no name twice: a subject matches exactly when it is an instance, and
      filling the captures back in gives the subject. */
  lemma LinearMatch(p: Pattern, v: Expr)
    requires Linear(p)
    ensures BindPattern(p, v, map[]).Some? <==> Instance(p, v)
    ensures BindPattern(p, v, map[]).Some? ==> Fill(p, BindPattern(p, v, map[]).value) == Some(v)
  {
    if BindPattern(p, v, map[]).Some? {
      MatchFills(p, v, map[]);
    }
    if Instance(p, v) {
      var filling :| Fill(p, filling) == Some(v);
      InstanceMatches(p, v, filling, map[]);
    }
  }

  /** For every pattern: a subject is an instance exactly when it matches with captures that give it
      back. A pattern with a repeated name also matches subjects that are not instances. */
  lemma AnyMatch(p: Pattern, v: Expr)
    ensures Instance(p, v) <==>
            BindPattern(p, v, map[]).Some? && Fill(p, BindPattern(p, v, map[]).value) == Some(v)
  {
    if Instance(p, v) {
      var filling :| Fill(p, filling) == Some(v);
      InstanceMatches(p, v, filling, map[]);
      FillDepends(p, filling, BindPattern(p, v, map[]).value);
    }
  }

  /** `x + x` matches `1 + 2`, which is no instance of it. */
  lemma RepeatedCapture()
    ensures var p := BinaryPattern("+", Capture("x"), Capture("x"));
            var one, two := Lit(NumberLit("1", "Int")), Lit(NumberLit("2", "Int"));
            var v := Node(BinaryOp("+"), [one, two]);
            !Linear(p) && BindPattern(p, v, map[]) == Some(map["x" := two]) && !Instance(p, v)
  {
    var p := BinaryPattern("+", Capture("x"), Capture("x"));
    var one, two := Lit(NumberLit("1", "Int")), Lit(NumberLit("2", "Int"));
    var v := Node(BinaryOp("+"), [one, two]);
    assert one.literal.text[0] != two.literal.text[0];
    assert BindPattern(Capture("x"), one, map[]) == Some(map["x" := one]);
    assert BindPattern(Capture("x"), two, map["x" := one]) == Some(map["x" := one]["x" := two]);
    assert map["x" := one]["x" := two] == map["x" := two];
    AnyMatch(p, v);
    assert Fill(p, map["x" := two]) == Some(Node(BinaryOp("+"), [two, two]));
    assert v.kids[0] != [two, two][0];
  }

  /** A match expands the first case its subject is an instance of, with the captures that make it
      one; without such a case it expands the default. */
  lemma {:induction false} FirstCase(macros: Macros, e: Expr, cases: seq<Case>, subject: Expr, bindings: Bindings,
                                     renames: Renames, counter: nat, depth: nat, i: nat, filling: Bindings)
    requires depth <= MAX_EXPANSION_DEPTH
    requires e.Match? && |cases| <= |e.cases| && cases == e.cases[|e.cases| - |cases|..]
    requires forall c | c in cases :: Linear(c.pattern)
    requires i <= |cases| && forall j | 0 <= j < i :: !Instance(cases[j].pattern, subject)
    requires i < |cases| ==> Fill(cases[i].pattern, filling) == Some(subject) &&
                             filling.Keys == CaptureNames(cases[i].pattern)
    ensures CloneMatch(macros, e, cases, subject, bindings, renames, counter, depth) ==
            if i < |cases| then Clone(macros, cases[i].result, bindings + filling, renames, counter, depth)
            else Clone(macros, e.fallback, bindings, renames, counter, depth)
    decreases |cases|
  {
    hide Clone, Fill, BindPattern;
    if cases != [] {
      LinearMatch(cases[0].pattern, subject);
      if i == 0 {
        InstanceMatches(cases[0].pattern, subject, filling, map[]);
        assert BindPattern(cases[0].pattern, subject, map[]).value == filling;
      } else {
        assert !Instance(cases[0].pattern, subject);
        FirstCase(macros, e, cases[1..], subject, bindings, renames, counter, depth, i - 1, filling);
      }
    }
  }
}
