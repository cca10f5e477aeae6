/** Macro expansion is hygienic: an expansion means what its macro says, with macro-local names
    meaning the macro's own binders, parameters meaning their arguments at the call site, and every
    other name meaning what it means at the call site. */
module MacroHygiene {
  import opened Wrappers
  import opened Decimal
  import opened MacroSyntax
  import opened MacroExpansion

  // ---------- what a macro means ----------

  /** The meaning of an argument: its resolved form at whatever depth it is put. */
  type Meaning = nat -> Resolved

  /** What the captures of a pattern stand for, read off the resolved subject. */
  function BindResolved(p: Pattern, v: Resolved, captures: map<string, Resolved>): Option<map<string, Resolved>>
    decreases p
  {
    match p
    case Capture(x) => Some(captures[x := v])
    case LitPattern(l) => if v == RLit(l) then Some(captures) else None
    case BinaryPattern(op, l, r) =>
      if v.RNode? && v.kind == BinaryOp(op) && |v.kids| == 2 then
        var c1 :- BindResolved(l, v.kids[0], captures);
        BindResolved(r, v.kids[1], c1)
      else None
    case UnaryPattern(op, a) =>
      if v.RNode? && v.kind == UnaryOp(op) && |v.kids| == 1 then BindResolved(a, v.kids[0], captures)
      else None
    case Other => None
  }

  function CaptureNames(p: Pattern): set<string> {
    match p
    case Capture(x) => {x}
    case LitPattern(_) => {}
    case BinaryPattern(_, l, r) => CaptureNames(l) + CaptureNames(r)
    case UnaryPattern(_, a) => CaptureNames(a)
    case Other => {}
  }

  function CaptureMeaning(p: Pattern, subject: Meaning, name: string, depth: nat): Resolved {
    match BindResolved(p, subject(depth), map[])
    case Some(captures) => if name in captures then captures[name] else RError
    case None => RError
  }

  /** The meaning of a macro body `e`: its own binders are in `locals`, its parameters in `params`,
      and the call site's names in `site`. No name is ever renamed here. */
  ghost function Ideal(macros: Macros, e: Expr, locals: Scope, params: map<string, Meaning>, site: Scope,
                 depth: nat, nesting: nat): Resolved
    requires nesting <= MAX_EXPANSION_DEPTH
    decreases MAX_EXPANSION_DEPTH - nesting, 1, e, 1
  {
    match e
    case Lit(l) => RLit(l)
    case Var(x) =>
      if x in locals then RVar(Binder(locals[x]))
      else if x in params then params[x](depth)
      else RVar(Refer(site, x))
    case Node(kind, kids) => RNode(kind, IdealAll(macros, kids, locals, params, site, depth, nesting))
    case Bind(binder, x, init, body) =>
      RBind(binder, Ideal(macros, init, locals, params, site, depth, nesting),
            Ideal(macros, body, locals[x := depth], params, site, depth + 1, nesting))
    case Lambda(ps, body) =>
      RLambda(|ps|, Ideal(macros, body, BindAll(locals, ps, depth), params, site, depth + |ps|, nesting))
    case Call(f, args) =>
      var meanings := seq(|args|, i requires 0 <= i < |args| =>
                          (d: nat) => Ideal(macros, args[i], locals, params, site, d, nesting));
      IdealApply(macros, f, meanings, locals, params, site, depth, nesting)
    case Match(subject, cases, fallback) =>
      IdealMatch(macros, e, cases, (d: nat) => Ideal(macros, subject, locals, params, site, d, nesting),
                 locals, params, site, depth, nesting)
  }

  function At(meanings: seq<Meaning>, depth: nat): (rs: seq<Resolved>)
    ensures |rs| == |meanings|
  {
    seq(|meanings|, i requires 0 <= i < |meanings| => meanings[i](depth))
  }

  ghost function IdealAll(macros: Macros, es: seq<Expr>, locals: Scope, params: map<string, Meaning>, site: Scope,
                    depth: nat, nesting: nat): (rs: seq<Resolved>)
    requires nesting <= MAX_EXPANSION_DEPTH
    ensures |rs| == |es|
    decreases MAX_EXPANSION_DEPTH - nesting, 1, es, 0
  {
    if es == [] then []
    else [Ideal(macros, es[0], locals, params, site, depth, nesting)] +
         IdealAll(macros, es[1..], locals, params, site, depth, nesting)
  }

  /** A call by name: of a local, of a parameter, of a macro, or of whatever the call site has. */
  ghost function IdealApply(macros: Macros, f: string, args: seq<Meaning>, locals: Scope,
                            params: map<string, Meaning>, site: Scope, depth: nat, nesting: nat): Resolved
    requires nesting <= MAX_EXPANSION_DEPTH
    decreases MAX_EXPANSION_DEPTH - nesting, 0, 1
  {
    if f in locals then RCall(Binder(locals[f]), At(args, depth))
    else if f in params then
      (match params[f](depth)
       case RVar(referent) => RCall(referent, At(args, depth))
       case actual => RNode(MethodCall("invoke"), [actual] + At(args, depth)))
    else if f in macros then IdealCall(macros, f, args, site, depth, nesting)
    else RCall(Refer(site, f), At(args, depth))
  }

  /** The meaning of a macro call: the body, with nothing of the call's surroundings but the
      arguments and the call site. */
  ghost function IdealCall(macros: Macros, name: string, args: seq<Meaning>, site: Scope, depth: nat, nesting: nat)
    : Resolved
    requires nesting <= MAX_EXPANSION_DEPTH
    decreases MAX_EXPANSION_DEPTH - nesting, 0, 0
  {
    if name !in macros || nesting >= MAX_EXPANSION_DEPTH || |args| != |macros[name].params| then RError
    else Ideal(macros, macros[name].body, map[], Zip(macros[name].params, args), site, depth, nesting + 1)
  }

  ghost function IdealMatch(macros: Macros, e: Expr, cases: seq<Case>, subject: Meaning, locals: Scope,
                      params: map<string, Meaning>, site: Scope, depth: nat, nesting: nat): Resolved
    requires nesting <= MAX_EXPANSION_DEPTH
    requires e.Match? && |cases| <= |e.cases| && cases == e.cases[|e.cases| - |cases|..]
    decreases MAX_EXPANSION_DEPTH - nesting, 1, e, 0, |cases|
  {
    if cases == [] then Ideal(macros, e.fallback, locals, params, site, depth, nesting)
    else if BindResolved(cases[0].pattern, subject(depth), map[]).Some? then
      Ideal(macros, cases[0].result, locals,
            params + (map x | x in CaptureNames(cases[0].pattern) ::
                        (d: nat) => CaptureMeaning(cases[0].pattern, subject, x, d)),
            site, depth, nesting)
    else IdealMatch(macros, e, cases[1..], subject, locals, params, site, depth, nesting)
  }

  // ---------- which names can clash ----------

  /** Names that only the expander makes. */
  predicate Reserved(name: string) {
    "__macro_" <= name
  }

  /** A fresh name that may still be handed out when the counter is `counter`: macros have no reserved
      binders to make fresh names from. */
  ghost predicate Future(name: string, counter: nat) {
    exists base: string, index: nat :: name == FreshName(base, index) && index > counter && !Reserved(base)
  }

  function AllNames(e: Expr): set<string>
    decreases e, 1
  {
    match e
    case Lit(_) => {}
    case Var(x) => {x}
    case Node(_, kids) => AllNamesAll(kids)
    case Bind(_, x, i, b) => {x} + AllNames(i) + AllNames(b)
    case Lambda(ps, b) => (set p | p in ps) + AllNames(b)
    case Call(f, args) => {f} + AllNamesAll(args)
    case Match(subject, cases, fallback) =>
      AllNames(subject) + AllNames(fallback) +
      (set i, x | 0 <= i < |cases| && x in AllNames(cases[i].result) + CaptureNames(cases[i].pattern) :: x)
  }

  function AllNamesAll(es: seq<Expr>): set<string>
    decreases es, 0
  {
    if es == [] then {} else AllNames(es[0]) + AllNamesAll(es[1..])
  }

  /** Names used as variables, as opposed to called. */
  function VarNames(e: Expr): set<string>
    decreases e, 1
  {
    match e
    case Lit(_) => {}
    case Var(x) => {x}
    case Node(_, kids) => VarNamesAll(kids)
    case Bind(_, x, i, b) => VarNames(i) + VarNames(b)
    case Lambda(ps, b) => VarNames(b)
    case Call(f, args) => VarNamesAll(args)
    case Match(subject, cases, fallback) =>
      VarNames(subject) + VarNames(fallback) +
      (set i, x | 0 <= i < |cases| && x in VarNames(cases[i].result) :: x)
  }

  function VarNamesAll(es: seq<Expr>): set<string>
    decreases es, 0
  {
    if es == [] then {} else VarNames(es[0]) + VarNamesAll(es[1..])
  }

  /** Source text: no reserved name, and no macro used as a variable. */
  ghost predicate Source(macros: Macros, e: Expr) {
    && (forall x | x in AllNames(e) :: !Reserved(x))
    && (forall x | x in VarNames(e) :: x !in macros)
  }

  ghost predicate SourceAll(macros: Macros, es: seq<Expr>) {
    && (forall x | x in AllNamesAll(es) :: !Reserved(x))
    && (forall x | x in VarNamesAll(es) :: x !in macros)
  }

  ghost predicate MacrosOk(macros: Macros) {
    forall name | name in macros :: !Reserved(name) && Source(macros, macros[name].body)
  }

  /** A tree that no later expansion step can disturb: its free names are neither macros nor fresh
      names still to come. */
  ghost predicate Clean(macros: Macros, e: Expr, counter: nat) {
    forall x | x in FreeNames(e) :: x !in macros && !Future(x, counter)
  }

  ghost predicate CleanAll(macros: Macros, es: seq<Expr>, counter: nat) {
    forall i | 0 <= i < |es| :: Clean(macros, es[i], counter)
  }

  lemma FreshIsReserved(base: string, index: nat)
    ensures Reserved(FreshName(base, index))
  {
  }

  function TrailingDigits(name: string): nat {
    if name == [] || !IsDigit(name[|name| - 1]) then 0 else 1 + TrailingDigits(name[..|name| - 1])
  }

  lemma {:induction false} DigitsCounted(prefix: string, digits: string)
    requires prefix != [] && !IsDigit(prefix[|prefix| - 1]) && AllDigits(digits)
    ensures TrailingDigits(prefix + digits) == |digits|
  {
    if digits == [] {
      assert prefix + digits == prefix;
    } else {
      DigitsCounted(prefix, digits[..|digits| - 1]);
      assert (prefix + digits)[..|prefix + digits| - 1] == prefix + digits[..|digits| - 1];
    }
  }

  /** Fresh names with different numbers differ, whatever their bases. */
  lemma FreshNumber(b1: string, n1: nat, b2: string, n2: nat)
    requires FreshName(b1, n1) == FreshName(b2, n2)
    ensures n1 == n2
  {
    var name := FreshName(b1, n1);
    var d1, d2 := ToText(n1), ToText(n2);
    DigitsCounted("__macro_" + b1 + "_", d1);
    DigitsCounted("__macro_" + b2 + "_", d2);
    assert name[|name| - |d1|..] == d1 && name[|name| - |d2|..] == d2;
    TextInjective(n1, n2);
  }

  lemma FreshNotFuture(base: string, index: nat, counter: nat)
    requires index <= counter
    ensures !Future(FreshName(base, index), counter)
  {
    var name := FreshName(base, index);
    if Future(name, counter) {
      var b: string, n: nat :| name == FreshName(b, n) && n > counter;
      FreshNumber(base, index, b, n);
    }
  }

  lemma FutureShrinks(name: string, counter: nat, later: nat)
    requires counter <= later && Future(name, later)
    ensures Future(name, counter)
  {
  }

  lemma FutureIsReserved(name: string, counter: nat)
    requires Future(name, counter)
    ensures Reserved(name)
  {
  }

  // ---------- expansions are clean ----------

  ghost predicate BindingsClean(macros: Macros, bindings: Bindings, counter: nat) {
    forall p | p in bindings :: Clean(macros, bindings[p], counter)
  }

  /** A fresh name that has been handed out. */
  ghost predicate Issued(name: string, counter: nat) {
    exists base: string, index: nat :: name == FreshName(base, index) && index <= counter
  }

  ghost predicate RenamesIssued(renames: Renames, counter: nat) {
    forall x | LookupLocal(renames, x).Some? :: Issued(LookupLocal(renames, x).value, counter)
  }

  lemma IssuedIsSafe(macros: Macros, name: string, counter: nat)
    requires MacrosOk(macros) && Issued(name, counter)
    ensures Reserved(name) && name !in macros && !Future(name, counter)
  {
    var base: string, index: nat :| name == FreshName(base, index) && index <= counter;
    FreshIsReserved(base, index);
    FreshNotFuture(base, index, counter);
  }

  lemma CleanLater(macros: Macros, e: Expr, counter: nat, later: nat)
    requires Clean(macros, e, counter) && counter <= later
    ensures Clean(macros, e, later)
  {
  }

  lemma BindingsLater(macros: Macros, bindings: Bindings, renames: Renames, counter: nat, later: nat)
    requires BindingsClean(macros, bindings, counter) && RenamesIssued(renames, counter) && counter <= later
    ensures BindingsClean(macros, bindings, later) && RenamesIssued(renames, later)
  {
    forall x | LookupLocal(renames, x).Some? ensures Issued(LookupLocal(renames, x).value, later) {
      var base: string, index: nat :|
        LookupLocal(renames, x).value == FreshName(base, index) && index <= counter;
    }
  }

  lemma LookupPushed(renames: Renames, m: map<string, string>, x: string)
    ensures LookupLocal(renames + [m], x) == if x in m then Some(m[x]) else LookupLocal(renames, x)
  {
    assert (renames + [m])[..|renames|] == renames;
  }

  lemma {:induction false} FreshAllIssued(names: seq<string>, counter: nat)
    ensures var names' := FreshAll(names, counter);
            forall i | 0 <= i < |names| :: names'[i] == FreshName(names[i], counter + 1 + i)
    decreases names
  {
    if names != [] {
      FreshAllIssued(names[1..], counter + 1);
    }
  }

  lemma {:induction false} ZipSound<T>(names: seq<string>, values: seq<T>)
    requires |names| == |values|
    ensures Zip(names, values).Keys == (set p | p in names)
    ensures forall p | p in names :: exists i | 0 <= i < |names| :: names[i] == p && Zip(names, values)[p] == values[i]
    decreases names
  {
    if names != [] {
      var n := |names| - 1;
      ZipSound(names[..n], values[..n]);
      assert names == names[..n] + [names[n]];
      forall p | p in names
        ensures exists i | 0 <= i < |names| :: names[i] == p && Zip(names, values)[p] == values[i]
      {
        if p == names[n] {
          assert Zip(names, values)[p] == values[n];
        } else {
          var i :| 0 <= i < n && names[..n][i] == p && Zip(names[..n], values[..n])[p] == values[..n][i];
          assert names[i] == p && Zip(names, values)[p] == values[i];
        }
      }
    }
  }

  lemma RenamesPushed(renames: Renames, m: map<string, string>, counter: nat)
    requires RenamesIssued(renames, counter) && forall x | x in m :: Issued(m[x], counter)
    ensures RenamesIssued(renames + [m], counter)
  {
    forall x | LookupLocal(renames + [m], x).Some?
      ensures Issued(LookupLocal(renames + [m], x).value, counter)
    {
      LookupPushed(renames, m, x);
    }
  }

  lemma LambdaRenames(renames: Renames, ps: seq<string>, counter: nat)
    requires RenamesIssued(renames, counter)
    ensures RenamesIssued(renames + [Zip(ps, FreshAll(ps, counter))], counter + |ps|)
  {
    var renamed := FreshAll(ps, counter);
    FreshAllIssued(ps, counter);
    ZipSound(ps, renamed);
    BindingsLater(map[], map[], renames, counter, counter + |ps|);
    RenamesPushed(renames, Zip(ps, renamed), counter + |ps|);
  }

  lemma {:induction false} CapturesClean(macros: Macros, p: Pattern, v: Expr, captures: Bindings, counter: nat)
    requires Clean(macros, v, counter) && BindingsClean(macros, captures, counter)
    requires BindPattern(p, v, captures).Some?
    ensures BindingsClean(macros, BindPattern(p, v, captures).value, counter)
    decreases p
  {
    match p
    case BinaryPattern(op, l, r) =>
      assert FreeNames(v.kids[0]) <= FreeNames(v) && FreeNames(v.kids[1]) <= FreeNames(v);
      CapturesClean(macros, l, v.kids[0], captures, counter);
      CapturesClean(macros, r, v.kids[1], BindPattern(l, v.kids[0], captures).value, counter);
    case UnaryPattern(op, a) =>
      assert FreeNames(v.kids[0]) <= FreeNames(v);
      CapturesClean(macros, a, v.kids[0], captures, counter);
    case _ =>
  }

  lemma {:induction false} FreeNamesAllMember(es: seq<Expr>, x: string)
    requires x in FreeNamesAll(es)
    ensures exists i | 0 <= i < |es| :: x in FreeNames(es[i])
  {
    if x in FreeNames(es[0]) {
    } else {
      FreeNamesAllMember(es[1..], x);
      var i :| 0 <= i < |es| - 1 && x in FreeNames(es[1..][i]);
      assert x in FreeNames(es[i + 1]);
    }
  }

  lemma CleanNode(macros: Macros, es: seq<Expr>, counter: nat)
    requires CleanAll(macros, es, counter)
    ensures forall x | x in FreeNamesAll(es) :: x !in macros && !Future(x, counter)
  {
    forall x | x in FreeNamesAll(es) ensures x !in macros && !Future(x, counter) {
      FreeNamesAllMember(es, x);
    }
  }

  /** What an expansion step needs of its surroundings. */
  ghost predicate Safe(macros: Macros, bindings: Bindings, renames: Renames, counter: nat) {
    MacrosOk(macros) && BindingsClean(macros, bindings, counter) && RenamesIssued(renames, counter)
  }

  lemma {:induction false} CloneClean(macros: Macros, e: Expr, bindings: Bindings, renames: Renames, counter: nat,
                                      depth: nat)
    requires depth <= MAX_EXPANSION_DEPTH && Safe(macros, bindings, renames, counter) && Source(macros, e)
    requires Clone(macros, e, bindings, renames, counter, depth).Some?
    ensures var r := Clone(macros, e, bindings, renames, counter, depth).value;
            counter <= r.counter && Clean(macros, r.expr, r.counter)
    decreases MAX_EXPANSION_DEPTH - depth, 1, e, 1
  {
    hide FreshName, RenamesIssued, BindingsClean, MacrosOk;
    var r := Clone(macros, e, bindings, renames, counter, depth).value;
    match e
    case Lit(_) =>
    case Var(x) =>
      VarClean(macros, x, bindings, renames, counter);
    case Node(_, kids) =>
      CloneAllClean(macros, kids, bindings, renames, counter, depth);
      CleanNode(macros, CloneAll(macros, kids, bindings, renames, counter, depth).value.exprs, r.counter);
    case Bind(_, _, _, _) =>
      CloneBindClean(macros, e, bindings, renames, counter, depth);
    case Lambda(ps, body) =>
      LambdaRenames(renames, ps, counter);
      BindingsLater(macros, bindings, renames, counter, counter + |ps|);
      CloneClean(macros, body, bindings, renames + [Zip(ps, FreshAll(ps, counter))], counter + |ps|, depth);
    case Call(f, args) =>
      CloneAllClean(macros, args, bindings, renames, counter, depth);
      var a := CloneAll(macros, args, bindings, renames, counter, depth).value;
      BindingsLater(macros, bindings, renames, counter, a.counter);
      CloneCallClean(macros, f, a.exprs, bindings, renames, a.counter, depth);
    case Match(subject, cases, _) =>
      CloneClean(macros, subject, bindings, renames, counter, depth);
      var v := Clone(macros, subject, bindings, renames, counter, depth).value;
      BindingsLater(macros, bindings, renames, counter, v.counter);
      CloneMatchClean(macros, e, cases, v.expr, bindings, renames, v.counter, depth);
  }

  lemma VarClean(macros: Macros, x: string, bindings: Bindings, renames: Renames, counter: nat)
    requires Safe(macros, bindings, renames, counter) && x !in macros && !Reserved(x)
    ensures Clean(macros, match LookupLocal(renames, x)
                          case Some(y) => Var(y)
                          case None => if x in bindings then bindings[x] else Var(x), counter)
  {
    if LookupLocal(renames, x).Some? {
      IssuedIsSafe(macros, LookupLocal(renames, x).value, counter);
    } else if x !in bindings && Future(x, counter) {
      FutureIsReserved(x, counter);
    }
  }

  lemma {:induction false} CloneBindClean(macros: Macros, e: Expr, bindings: Bindings, renames: Renames,
                                          counter: nat, depth: nat)
    requires depth <= MAX_EXPANSION_DEPTH && Safe(macros, bindings, renames, counter) && Source(macros, e) && e.Bind?
    requires Clone(macros, e, bindings, renames, counter, depth).Some?
    ensures var r := Clone(macros, e, bindings, renames, counter, depth).value;
            counter <= r.counter && Clean(macros, r.expr, r.counter)
    decreases MAX_EXPANSION_DEPTH - depth, 1, e, 0
  {
    hide FreshName, RenamesIssued, BindingsClean, MacrosOk;
    var r := Clone(macros, e, bindings, renames, counter, depth).value;
    CloneClean(macros, e.init, bindings, renames, counter, depth);
    var r1 := Clone(macros, e.init, bindings, renames, counter, depth).value;
    var name := FreshName(e.name, r1.counter + 1);
    BindingsLater(macros, bindings, renames, counter, r1.counter + 1);
    RenamesPushed(renames, map[e.name := name], r1.counter + 1);
    CloneClean(macros, e.body, bindings, renames + [map[e.name := name]], r1.counter + 1, depth);
    CleanLater(macros, r1.expr, r1.counter, r.counter);
  }

  lemma {:induction false} CloneAllClean(macros: Macros, es: seq<Expr>, bindings: Bindings, renames: Renames,
                                         counter: nat, depth: nat)
    requires depth <= MAX_EXPANSION_DEPTH && Safe(macros, bindings, renames, counter) && SourceAll(macros, es)
    requires CloneAll(macros, es, bindings, renames, counter, depth).Some?
    ensures var r := CloneAll(macros, es, bindings, renames, counter, depth).value;
            counter <= r.counter && CleanAll(macros, r.exprs, r.counter)
    decreases MAX_EXPANSION_DEPTH - depth, 1, es, 0
  {
    if es != [] {
      CloneClean(macros, es[0], bindings, renames, counter, depth);
      var r1 := Clone(macros, es[0], bindings, renames, counter, depth).value;
      BindingsLater(macros, bindings, renames, counter, r1.counter);
      CloneAllClean(macros, es[1..], bindings, renames, r1.counter, depth);
      CleanLater(macros, r1.expr, r1.counter, CloneAll(macros, es, bindings, renames, counter, depth).value.counter);
    }
  }

  lemma {:induction false} CloneCallClean(macros: Macros, f: string, args: seq<Expr>, bindings: Bindings,
                                          renames: Renames, counter: nat, depth: nat)
    requires depth <= MAX_EXPANSION_DEPTH && Safe(macros, bindings, renames, counter)
    requires CleanAll(macros, args, counter) && !Reserved(f)
    requires CloneCall(macros, f, args, bindings, renames, counter, depth).Some?
    ensures var r := CloneCall(macros, f, args, bindings, renames, counter, depth).value;
            counter <= r.counter && Clean(macros, r.expr, r.counter)
    decreases MAX_EXPANSION_DEPTH - depth, 0, 2
  {
    var local := LookupLocal(renames, f);
    if local.Some? {
      IssuedIsSafe(macros, local.value, counter);
      CallNamedClean(macros, local.value, args, counter, depth);
    } else if f in bindings {
      if bindings[f].Var? {
        CallNamedClean(macros, bindings[f].name, args, counter, depth);
      } else {
        CleanNode(macros, [bindings[f]] + args, counter);
      }
    } else {
      if Future(f, counter) {
        FutureIsReserved(f, counter);
      }
      CallNamedClean(macros, f, args, counter, depth);
    }
  }

  lemma {:induction false} CallNamedClean(macros: Macros, f: string, args: seq<Expr>, counter: nat, depth: nat)
    requires depth <= MAX_EXPANSION_DEPTH && MacrosOk(macros) && CleanAll(macros, args, counter) && !Future(f, counter)
    requires CallNamed(macros, f, args, counter, depth).Some?
    ensures var r := CallNamed(macros, f, args, counter, depth).value;
            counter <= r.counter && Clean(macros, r.expr, r.counter)
    decreases MAX_EXPANSION_DEPTH - depth, 0, 1
  {
    if f in macros {
      ExpansionClean(macros, f, args, counter, depth);
    } else {
      CleanNode(macros, args, counter);
    }
  }

  /** The expansion of a macro call on clean arguments is clean. */
  lemma {:induction false} ExpansionClean(macros: Macros, name: string, args: seq<Expr>, counter: nat, depth: nat)
    requires depth <= MAX_EXPANSION_DEPTH && MacrosOk(macros) && CleanAll(macros, args, counter)
    requires ExpandMacroCall(macros, name, args, counter, depth).Some?
    ensures var r := ExpandMacroCall(macros, name, args, counter, depth).value;
            counter <= r.counter && Clean(macros, r.expr, r.counter)
    decreases MAX_EXPANSION_DEPTH - depth, 0, 0
  {
    ZipSound(macros[name].params, args);
    assert forall x :: LookupLocal([map[]], x) == None;
    CloneClean(macros, macros[name].body, Zip(macros[name].params, args), [map[]], counter, depth + 1);
  }

  lemma CaseIsSource(macros: Macros, e: Expr, k: nat)
    requires e.Match? && k < |e.cases| && Source(macros, e)
    ensures Source(macros, e.cases[k].result)
  {
    match e
    case Match(subject, cases, fallback) =>
      forall x | x in AllNames(cases[k].result) ensures !Reserved(x) {
        assert x in AllNames(cases[k].result) + CaptureNames(cases[k].pattern);
        assert x in AllNames(e);
      }
      forall x | x in VarNames(cases[k].result) ensures x !in macros {
        assert x in VarNames(e);
      }
  }

  lemma {:induction false} CloneMatchClean(macros: Macros, e: Expr, cases: seq<Case>, subject: Expr,
                                           bindings: Bindings, renames: Renames, counter: nat, depth: nat)
    requires depth <= MAX_EXPANSION_DEPTH && Safe(macros, bindings, renames, counter)
    requires Clean(macros, subject, counter) && Source(macros, e)
    requires e.Match? && |cases| <= |e.cases| && cases == e.cases[|e.cases| - |cases|..]
    requires CloneMatch(macros, e, cases, subject, bindings, renames, counter, depth).Some?
    ensures var r := CloneMatch(macros, e, cases, subject, bindings, renames, counter, depth).value;
            counter <= r.counter && Clean(macros, r.expr, r.counter)
    decreases MAX_EXPANSION_DEPTH - depth, 1, e, 0, |cases|
  {
    if cases == [] {
      CloneClean(macros, e.fallback, bindings, renames, counter, depth);
    } else {
      var k := |e.cases| - |cases|;
      assert cases[0] == e.cases[k];
      match BindPattern(cases[0].pattern, subject, map[])
      case Some(captures) =>
        CapturesClean(macros, cases[0].pattern, subject, map[], counter);
        CaseIsSource(macros, e, k);
        CloneClean(macros, cases[0].result, bindings + captures, renames, counter, depth);
      case None =>
        CloneMatchClean(macros, e, cases[1..], subject, bindings, renames, counter, depth);
    }
  }

  // ---------- expansions mean what their macros say ----------

  /** The state of an expansion stands for its ideal counterpart: renamed locals are the binders of
      the macro, bindings resolve to the meanings of the parameters, and all names that the program
      itself can write are the call site's. */
  ghost predicate Agree(bindings: Bindings, renames: Renames, locals: Scope, params: map<string, Meaning>,
                        scope: Scope, site: Scope) {
    && LocalsAgree(renames, locals, scope)
    && bindings.Keys == params.Keys
    && (forall p, d: nat | p in bindings :: Resolve(bindings[p], scope, d) == params[p](d))
    && SiteVisible(scope, site)
  }

  ghost predicate LocalsAgree(renames: Renames, locals: Scope, scope: Scope) {
    && (forall x :: x in locals <==> LookupLocal(renames, x).Some?)
    && (forall x | x in locals ::
          LookupLocal(renames, x).value in scope && scope[LookupLocal(renames, x).value] == locals[x])
  }

  ghost predicate SiteVisible(scope: Scope, site: Scope) {
    forall x | !Reserved(x) :: Refer(scope, x) == Refer(site, x)
  }

  ghost predicate ArgsMean(args: seq<Expr>, meanings: seq<Meaning>, scope: Scope) {
    && |args| == |meanings|
    && (forall i, d: nat | 0 <= i < |args| :: Resolve(args[i], scope, d) == meanings[i](d))
  }

  /** Binders with names still to come change no binding. */
  lemma BindingsKept(macros: Macros, bindings: Bindings, scope: Scope, scope': Scope, counter: nat)
    requires BindingsClean(macros, bindings, counter)
    requires forall x | !Future(x, counter) :: Refer(scope, x) == Refer(scope', x)
    ensures forall p, d: nat | p in bindings :: Resolve(bindings[p], scope', d) == Resolve(bindings[p], scope, d)
  {
    hide Future, Resolve, ResolveAll, FreeNames;
    forall p, d: nat | p in bindings ensures Resolve(bindings[p], scope', d) == Resolve(bindings[p], scope, d) {
      ResolveDepends(bindings[p], scope, scope', d);
    }
  }

  lemma LocalPushed(macros: Macros, renames: Renames, locals: Scope, scope: Scope, counter: nat, x: string, level: nat)
    requires MacrosOk(macros) && RenamesIssued(renames, counter) && LocalsAgree(renames, locals, scope) && !Reserved(x)
    ensures var name := FreshName(x, counter + 1);
            LocalsAgree(renames + [map[x := name]], locals[x := level], scope[name := level])
  {
    hide MacrosOk, RenamesIssued, FreshName;
    var name := FreshName(x, counter + 1);
    assert Future(name, counter);
    forall y ensures LookupLocal(renames + [map[x := name]], y) == if y == x then Some(name) else LookupLocal(renames, y) {
      LookupPushed(renames, map[x := name], y);
    }
    forall y | y in locals && y != x ensures LookupLocal(renames, y).value != name {
      LocalIssued(renames, y, counter);
      IssuedIsSafe(macros, LookupLocal(renames, y).value, counter);
    }
  }

  /** A binder with a name still to come hides nothing. */
  lemma AgreePushed(macros: Macros, bindings: Bindings, renames: Renames, locals: Scope,
                    params: map<string, Meaning>, scope: Scope, site: Scope, counter: nat, x: string, level: nat)
    requires Safe(macros, bindings, renames, counter) && Agree(bindings, renames, locals, params, scope, site)
    requires !Reserved(x)
    ensures var name := FreshName(x, counter + 1);
            Agree(bindings, renames + [map[x := name]], locals[x := level], params, scope[name := level], site)
  {
    hide Resolve, ResolveAll, FreshName, LocalsAgree, MacrosOk, RenamesIssued, BindingsClean, Reserved;
    var name := FreshName(x, counter + 1);
    assert Future(name, counter);
    FreshIsReserved(x, counter + 1);
    LocalPushed(macros, renames, locals, scope, counter, x, level);
    BindingsKept(macros, bindings, scope, scope[name := level], counter);
  }

  lemma {:induction false} BindAllAt(scope: Scope, names: seq<string>, level: nat, i: nat)
    requires i < |names| && names[i] !in names[i + 1..]
    ensures names[i] in BindAll(scope, names, level) && BindAll(scope, names, level)[names[i]] == level + i
    decreases names
  {
    if i == 0 {
      BindAllElse(scope[names[0] := level], names[1..], level + 1, names[0]);
    } else {
      assert names[1..][i..] == names[i + 1..];
      BindAllAt(scope[names[0] := level], names[1..], level + 1, i - 1);
    }
  }

  lemma {:induction false} BindAllElse(scope: Scope, names: seq<string>, level: nat, x: string)
    requires x !in names
    ensures x in BindAll(scope, names, level) <==> x in scope
    ensures x in scope ==> BindAll(scope, names, level)[x] == scope[x]
    decreases names
  {
    if names != [] {
      BindAllElse(scope[names[0] := level], names[1..], level + 1, x);
    }
  }

  /** The last of several equal parameters is the one that counts. */
  lemma {:induction false} LastOf<T>(names: seq<string>, values: seq<T>, x: string) returns (i: nat)
    requires |names| == |values| && x in names
    ensures i < |names| && names[i] == x && x !in names[i + 1..]
    ensures x in Zip(names, values) && Zip(names, values)[x] == values[i]
    decreases names
  {
    var n := |names| - 1;
    if names[n] == x {
      i := n;
    } else {
      assert names == names[..n] + [names[n]];
      i := LastOf(names[..n], values[..n], x);
      assert names[i + 1..] == names[..n][i + 1..] + [names[n]];
    }
  }

  lemma FreshAllDistinct(ps: seq<string>, counter: nat, i: nat)
    requires i < |ps|
    ensures FreshAll(ps, counter)[i] !in FreshAll(ps, counter)[i + 1..]
  {
    hide FreshName, FreshAll;
    var names := FreshAll(ps, counter);
    FreshAllIssued(ps, counter);
    forall j | i < j < |ps| ensures names[j] != names[i] {
      if names[j] == names[i] {
        FreshNumber(ps[i], counter + 1 + i, ps[j], counter + 1 + j);
      }
    }
  }

  lemma FreshAllFuture(ps: seq<string>, counter: nat)
    requires forall p | p in ps :: !Reserved(p)
    ensures forall y | y in FreshAll(ps, counter) :: Future(y, counter) && Reserved(y)
  {
    var names := FreshAll(ps, counter);
    FreshAllIssued(ps, counter);
    forall y | y in names ensures Future(y, counter) && Reserved(y) {
      var i :| 0 <= i < |names| && names[i] == y;
      FreshIsReserved(ps[i], counter + 1 + i);
    }
  }

  lemma LambdaLocals(macros: Macros, renames: Renames, locals: Scope, scope: Scope, counter: nat, ps: seq<string>,
                     level: nat)
    requires MacrosOk(macros) && RenamesIssued(renames, counter) && LocalsAgree(renames, locals, scope)
    requires forall p | p in ps :: !Reserved(p)
    ensures var names := FreshAll(ps, counter);
            LocalsAgree(renames + [Zip(ps, names)], BindAll(locals, ps, level), BindAll(scope, names, level))
  {
    hide Future, Reserved, FreshName, FreshAll, MacrosOk, RenamesIssued;
    var names := FreshAll(ps, counter);
    var m := Zip(ps, names);
    var scope' := BindAll(scope, names, level);
    ZipSound(ps, names);
    FreshAllFuture(ps, counter);
    forall y ensures LookupLocal(renames + [m], y) == if y in ps then Some(m[y]) else LookupLocal(renames, y) {
      LookupPushed(renames, m, y);
    }
    forall y | y in ps
      ensures y in BindAll(locals, ps, level) && m[y] in scope' && scope'[m[y]] == BindAll(locals, ps, level)[y]
    {
      var i := LastOf(ps, names, y);
      BindAllAt(locals, ps, level, i);
      FreshAllDistinct(ps, counter, i);
      BindAllAt(scope, names, level, i);
    }
    forall y | y !in ps ensures y in BindAll(locals, ps, level) <==> y in locals {
      BindAllElse(locals, ps, level, y);
    }
    forall y | y in locals && y !in ps
      ensures var z := LookupLocal(renames, y).value;
              z in scope' && scope'[z] == BindAll(locals, ps, level)[y]
    {
      var z := LookupLocal(renames, y).value;
      LocalIssued(renames, y, counter);
      IssuedIsSafe(macros, z, counter);
      BindAllElse(scope, names, level, z);
      BindAllElse(locals, ps, level, y);
    }
  }

  lemma AgreeLambda(macros: Macros, bindings: Bindings, renames: Renames, locals: Scope,
                    params: map<string, Meaning>, scope: Scope, site: Scope, counter: nat, ps: seq<string>,
                    level: nat)
    requires Safe(macros, bindings, renames, counter) && Agree(bindings, renames, locals, params, scope, site)
    requires forall p | p in ps :: !Reserved(p)
    ensures var names := FreshAll(ps, counter);
            Agree(bindings, renames + [Zip(ps, names)], BindAll(locals, ps, level), params,
                  BindAll(scope, names, level), site)
  {
    hide Future, Reserved, FreshName, FreshAll, Resolve, ResolveAll, LocalsAgree, MacrosOk, RenamesIssued, BindingsClean;
    var names := FreshAll(ps, counter);
    var scope' := BindAll(scope, names, level);
    FreshAllFuture(ps, counter);
    LambdaLocals(macros, renames, locals, scope, counter, ps, level);
    forall x | !Future(x, counter) ensures Refer(scope, x) == Refer(scope', x) {
      BindAllElse(scope, names, level, x);
    }
    BindingsKept(macros, bindings, scope, scope', counter);
    forall x | !Reserved(x) ensures Refer(scope', x) == Refer(site, x) {
      BindAllElse(scope, names, level, x);
    }
  }

  /** The captured trees resolve to the captured resolved forms. */
  ghost predicate Captured(captures: Bindings, resolved: map<string, Resolved>, scope: Scope, depth: nat) {
    captures.Keys == resolved.Keys && forall x | x in captures :: Resolve(captures[x], scope, depth) == resolved[x]
  }

  /** Two matches with the same answer and the same captures. */
  ghost predicate SameMatch(c: Option<Bindings>, r: Option<map<string, Resolved>>, names: set<string>, scope: Scope,
                            depth: nat) {
    c.Some? == r.Some? && (c.Some? ==> c.value.Keys == names && Captured(c.value, r.value, scope, depth))
  }

  lemma NodeResolves(v: Expr, scope: Scope, depth: nat)
    ensures var r := Resolve(v, scope, depth);
            && (v.Node? <==> r.RNode?)
            && (v.Node? ==> v.kind == r.kind && |v.kids| == |r.kids| &&
                            forall i | 0 <= i < |v.kids| :: Resolve(v.kids[i], scope, depth) == r.kids[i])
  {
  }

  lemma LeafPattern(p: Pattern, v: Expr, captures: Bindings, scope: Scope, depth: nat,
                    resolved: map<string, Resolved>)
    requires Captured(captures, resolved, scope, depth) && !p.BinaryPattern? && !p.UnaryPattern?
    ensures SameMatch(BindPattern(p, v, captures), BindResolved(p, Resolve(v, scope, depth), resolved),
                      captures.Keys + CaptureNames(p), scope, depth)
  {
  }

  /** Matching a tree and matching its resolved form give the same answer and the same captures. */
  lemma {:induction false} PatternResolved(p: Pattern, v: Expr, captures: Bindings, scope: Scope, depth: nat,
                                           resolved: map<string, Resolved>)
    requires Captured(captures, resolved, scope, depth)
    ensures SameMatch(BindPattern(p, v, captures), BindResolved(p, Resolve(v, scope, depth), resolved),
                      captures.Keys + CaptureNames(p), scope, depth)
    decreases p
  {
    hide Resolve, ResolveAll, Captured;
    NodeResolves(v, scope, depth);
    match p
    case BinaryPattern(op, l, r) =>
      if v.Node? && v.kind == BinaryOp(op) && |v.kids| == 2 {
        PatternResolved(l, v.kids[0], captures, scope, depth, resolved);
        var c := BindPattern(l, v.kids[0], captures);
        if c.Some? {
          PatternResolved(r, v.kids[1], c.value, scope, depth,
                          BindResolved(l, Resolve(v.kids[0], scope, depth), resolved).value);
        }
      }
    case UnaryPattern(op, a) =>
      if v.Node? && v.kind == UnaryOp(op) && |v.kids| == 1 {
        PatternResolved(a, v.kids[0], captures, scope, depth, resolved);
      }
    case _ =>
      LeafPattern(p, v, captures, scope, depth, resolved);
  }

  /** The clone of a macro body resolves, where it is put, to the meaning of that body. */
  lemma {:induction false} CloneMeans(macros: Macros, e: Expr, bindings: Bindings, renames: Renames, locals: Scope,
                                      params: map<string, Meaning>, scope: Scope, site: Scope, counter: nat,
                                      depth: nat, nesting: nat)
    requires nesting <= MAX_EXPANSION_DEPTH && Safe(macros, bindings, renames, counter) && Source(macros, e)
    requires Agree(bindings, renames, locals, params, scope, site)
    requires Clone(macros, e, bindings, renames, counter, nesting).Some?
    ensures Resolve(Clone(macros, e, bindings, renames, counter, nesting).value.expr, scope, depth) ==
            Ideal(macros, e, locals, params, site, depth, nesting)
    decreases MAX_EXPANSION_DEPTH - nesting, 1, e, 2
  {
    hide FreshName, Agree, RenamesIssued, BindingsClean, MacrosOk, Clean;
    match e
    case Lit(_) =>
    case Var(x) => VarMeans(x, bindings, renames, locals, params, scope, site, depth);
    case Node(_, kids) =>
      CloneAllMeans(macros, kids, bindings, renames, locals, params, scope, site, counter, depth, nesting);
    case Bind(_, _, _, _) =>
      CloneBindMeans(macros, e, bindings, renames, locals, params, scope, site, counter, depth, nesting);
    case Lambda(_, _) =>
      CloneLambdaMeans(macros, e, bindings, renames, locals, params, scope, site, counter, depth, nesting);
    case Call(_, _) =>
      CloneCallMeans(macros, e, bindings, renames, locals, params, scope, site, counter, depth, nesting);
    case Match(_, _, _) =>
      CloneMatchMeans(macros, e, bindings, renames, locals, params, scope, site, counter, depth, nesting);
  }

  lemma {:induction false} CloneBindMeans(macros: Macros, e: Expr, bindings: Bindings, renames: Renames, locals: Scope,
                                      params: map<string, Meaning>, scope: Scope, site: Scope, counter: nat,
                                      depth: nat, nesting: nat)
    requires e.Bind?
    requires nesting <= MAX_EXPANSION_DEPTH && Safe(macros, bindings, renames, counter) && Source(macros, e)
    requires Agree(bindings, renames, locals, params, scope, site)
    requires Clone(macros, e, bindings, renames, counter, nesting).Some?
    ensures Resolve(Clone(macros, e, bindings, renames, counter, nesting).value.expr, scope, depth) ==
            Ideal(macros, e, locals, params, site, depth, nesting)
    decreases MAX_EXPANSION_DEPTH - nesting, 1, e, 1
  {
    hide FreshName, Agree, RenamesIssued, BindingsClean, MacrosOk, Clean;
    var x := e.name;
    CloneMeans(macros, e.init, bindings, renames, locals, params, scope, site, counter, depth, nesting);
    CloneClean(macros, e.init, bindings, renames, counter, nesting);
    var c1 := Clone(macros, e.init, bindings, renames, counter, nesting).value.counter;
    var name := FreshName(x, c1 + 1);
    BindingsLater(macros, bindings, renames, counter, c1);
    AgreePushed(macros, bindings, renames, locals, params, scope, site, c1, x, depth);
    BindingsLater(macros, bindings, renames, c1, c1 + 1);
    RenamesPushed(renames, map[x := name], c1 + 1);
    CloneMeans(macros, e.body, bindings, renames + [map[x := name]], locals[x := depth], params,
               scope[name := depth], site, c1 + 1, depth + 1, nesting);
  }

  lemma LambdaIsSource(macros: Macros, e: Expr)
    requires e.Lambda? && Source(macros, e)
    ensures Source(macros, e.body) && forall p | p in e.params :: !Reserved(p)
  {
  }

  lemma {:induction false} CloneLambdaMeans(macros: Macros, e: Expr, bindings: Bindings, renames: Renames, locals: Scope,
                                      params: map<string, Meaning>, scope: Scope, site: Scope, counter: nat,
                                      depth: nat, nesting: nat)
    requires e.Lambda?
    requires nesting <= MAX_EXPANSION_DEPTH && Safe(macros, bindings, renames, counter) && Source(macros, e)
    requires Agree(bindings, renames, locals, params, scope, site)
    requires Clone(macros, e, bindings, renames, counter, nesting).Some?
    ensures Resolve(Clone(macros, e, bindings, renames, counter, nesting).value.expr, scope, depth) ==
            Ideal(macros, e, locals, params, site, depth, nesting)
    decreases MAX_EXPANSION_DEPTH - nesting, 1, e, 1
  {
    hide FreshName, Agree, RenamesIssued, BindingsClean, MacrosOk, Clean, Source, Reserved, AllNames, VarNames, FreshAll;
    LambdaIsSource(macros, e);
    var ps := e.params;
    var names := FreshAll(ps, counter);
    AgreeLambda(macros, bindings, renames, locals, params, scope, site, counter, ps, depth);
    LambdaRenames(renames, ps, counter);
    BindingsLater(macros, bindings, renames, counter, counter + |ps|);
    CloneMeans(macros, e.body, bindings, renames + [Zip(ps, names)], BindAll(locals, ps, depth), params,
               BindAll(scope, names, depth), site, counter + |ps|, depth + |ps|, nesting);
  }

  lemma {:induction false} CloneCallMeans(macros: Macros, e: Expr, bindings: Bindings, renames: Renames, locals: Scope,
                                      params: map<string, Meaning>, scope: Scope, site: Scope, counter: nat,
                                      depth: nat, nesting: nat)
    requires e.Call?
    requires nesting <= MAX_EXPANSION_DEPTH && Safe(macros, bindings, renames, counter) && Source(macros, e)
    requires Agree(bindings, renames, locals, params, scope, site)
    requires Clone(macros, e, bindings, renames, counter, nesting).Some?
    ensures Resolve(Clone(macros, e, bindings, renames, counter, nesting).value.expr, scope, depth) ==
            Ideal(macros, e, locals, params, site, depth, nesting)
    decreases MAX_EXPANSION_DEPTH - nesting, 1, e, 1
  {
    hide FreshName, Agree, RenamesIssued, BindingsClean, MacrosOk, Clean, CloneCall, IdealApply, ArgsMean, CleanAll;
    var args := e.args;
    var meanings: seq<Meaning> := seq(|args|, i requires 0 <= i < |args| =>
                        (d: nat) => Ideal(macros, args[i], locals, params, site, d, nesting));
    var a := CloneAll(macros, args, bindings, renames, counter, nesting).value;
    CloneArgsMean(macros, args, meanings, bindings, renames, locals, params, scope, site, counter, nesting);
    CloneAllClean(macros, args, bindings, renames, counter, nesting);
    BindingsLater(macros, bindings, renames, counter, a.counter);
    CallMeans(macros, e.callee, a.exprs, meanings, bindings, renames, locals, params, scope, site, a.counter, depth,
              nesting);
  }

  lemma CloneArgsMean(macros: Macros, args: seq<Expr>, meanings: seq<Meaning>, bindings: Bindings, renames: Renames,
                      locals: Scope, params: map<string, Meaning>, scope: Scope, site: Scope, counter: nat, nesting: nat)
    requires nesting <= MAX_EXPANSION_DEPTH && Safe(macros, bindings, renames, counter) && SourceAll(macros, args)
    requires Agree(bindings, renames, locals, params, scope, site)
    requires CloneAll(macros, args, bindings, renames, counter, nesting).Some?
    requires |meanings| == |args|
    requires forall i, d: nat | 0 <= i < |args| ::
               meanings[i](d) == Ideal(macros, args[i], locals, params, site, d, nesting)
    ensures ArgsMean(CloneAll(macros, args, bindings, renames, counter, nesting).value.exprs, meanings, scope)
    decreases MAX_EXPANSION_DEPTH - nesting, 1, args, 1
  {
    hide Clone, CloneAll, Resolve, ResolveAll, Ideal, IdealAll, Agree, Safe;
    var a := CloneAll(macros, args, bindings, renames, counter, nesting).value;
    forall i, d: nat | 0 <= i < |args| ensures Resolve(a.exprs[i], scope, d) == meanings[i](d) {
      CloneAllMeans(macros, args, bindings, renames, locals, params, scope, site, counter, d, nesting);
    }
  }

  lemma {:induction false} CloneMatchMeans(macros: Macros, e: Expr, bindings: Bindings, renames: Renames, locals: Scope,
                                      params: map<string, Meaning>, scope: Scope, site: Scope, counter: nat,
                                      depth: nat, nesting: nat)
    requires e.Match?
    requires nesting <= MAX_EXPANSION_DEPTH && Safe(macros, bindings, renames, counter) && Source(macros, e)
    requires Agree(bindings, renames, locals, params, scope, site)
    requires Clone(macros, e, bindings, renames, counter, nesting).Some?
    ensures Resolve(Clone(macros, e, bindings, renames, counter, nesting).value.expr, scope, depth) ==
            Ideal(macros, e, locals, params, site, depth, nesting)
    decreases MAX_EXPANSION_DEPTH - nesting, 1, e, 1
  {
    hide FreshName, Agree, RenamesIssued, BindingsClean, MacrosOk, Clean;
    var meaning: Meaning := (d: nat) => Ideal(macros, e.subject, locals, params, site, d, nesting);
    var v := Clone(macros, e.subject, bindings, renames, counter, nesting).value;
    forall d: nat ensures Resolve(v.expr, scope, d) == meaning(d) {
      CloneMeans(macros, e.subject, bindings, renames, locals, params, scope, site, counter, d, nesting);
    }
    CloneClean(macros, e.subject, bindings, renames, counter, nesting);
    BindingsLater(macros, bindings, renames, counter, v.counter);
    MatchMeans(macros, e, e.cases, v.expr, meaning, bindings, renames, locals, params, scope, site, v.counter,
               depth, nesting);
  }

  lemma VarMeans(x: string, bindings: Bindings, renames: Renames, locals: Scope, params: map<string, Meaning>,
                 scope: Scope, site: Scope, depth: nat)
    requires Agree(bindings, renames, locals, params, scope, site) && !Reserved(x)
    ensures Resolve(match LookupLocal(renames, x)
                    case Some(y) => Var(y)
                    case None => if x in bindings then bindings[x] else Var(x), scope, depth) ==
            (if x in locals then RVar(Binder(locals[x]))
             else if x in params then params[x](depth)
             else RVar(Refer(site, x)))
  {
  }

  lemma {:induction false} CloneAllMeans(macros: Macros, es: seq<Expr>, bindings: Bindings, renames: Renames,
                                         locals: Scope, params: map<string, Meaning>, scope: Scope, site: Scope,
                                         counter: nat, depth: nat, nesting: nat)
    requires nesting <= MAX_EXPANSION_DEPTH && Safe(macros, bindings, renames, counter) && SourceAll(macros, es)
    requires Agree(bindings, renames, locals, params, scope, site)
    requires CloneAll(macros, es, bindings, renames, counter, nesting).Some?
    ensures var rs := CloneAll(macros, es, bindings, renames, counter, nesting).value.exprs;
            && ResolveAll(rs, scope, depth) == IdealAll(macros, es, locals, params, site, depth, nesting)
            && forall i | 0 <= i < |es| ::
                 Resolve(rs[i], scope, depth) == Ideal(macros, es[i], locals, params, site, depth, nesting)
    decreases MAX_EXPANSION_DEPTH - nesting, 1, es, 0
  {
    if es != [] {
      CloneMeans(macros, es[0], bindings, renames, locals, params, scope, site, counter, depth, nesting);
      CloneClean(macros, es[0], bindings, renames, counter, nesting);
      var c1 := Clone(macros, es[0], bindings, renames, counter, nesting).value.counter;
      BindingsLater(macros, bindings, renames, counter, c1);
      CloneAllMeans(macros, es[1..], bindings, renames, locals, params, scope, site, c1, depth, nesting);
    }
  }

  lemma ArgsAt(args: seq<Expr>, meanings: seq<Meaning>, scope: Scope, depth: nat)
    requires ArgsMean(args, meanings, scope)
    ensures ResolveAll(args, scope, depth) == At(meanings, depth)
  {
  }

  lemma {:induction false} CallMeans(macros: Macros, f: string, args: seq<Expr>, meanings: seq<Meaning>,
                                     bindings: Bindings, renames: Renames, locals: Scope,
                                     params: map<string, Meaning>, scope: Scope, site: Scope, counter: nat,
                                     depth: nat, nesting: nat)
    requires nesting <= MAX_EXPANSION_DEPTH && Safe(macros, bindings, renames, counter)
    requires Agree(bindings, renames, locals, params, scope, site)
    requires CleanAll(macros, args, counter) && ArgsMean(args, meanings, scope) && !Reserved(f)
    requires CloneCall(macros, f, args, bindings, renames, counter, nesting).Some?
    ensures Resolve(CloneCall(macros, f, args, bindings, renames, counter, nesting).value.expr, scope, depth) ==
            IdealApply(macros, f, meanings, locals, params, site, depth, nesting)
    decreases MAX_EXPANSION_DEPTH - nesting, 0, 2
  {
    hide FreshName, RenamesIssued, BindingsClean, Agree, ArgsMean, SiteVisible, MacrosOk, LookupLocal, At;
    var local := LookupLocal(renames, f);
    ArgsAt(args, meanings, scope, depth);
    AgreeName(f, bindings, renames, locals, params, scope, site, depth);
    if local.Some? {
      IssuedIsSafe(macros, local.value, counter) by { LocalIssued(renames, f, counter); }
      assert CallNamed(macros, local.value, args, counter, nesting).value.expr == Call(local.value, args);
    } else if f in bindings {
      ParamCallMeans(macros, bindings[f], args, meanings, scope, params[f], counter, depth, nesting) by {
        BindingClean(macros, bindings, f, counter);
      }
    } else if f in macros {
      ExpansionMeans(macros, f, args, meanings, scope, site, counter, depth, nesting);
    }
  }

  lemma AgreeName(f: string, bindings: Bindings, renames: Renames, locals: Scope, params: map<string, Meaning>,
                  scope: Scope, site: Scope, depth: nat)
    requires Agree(bindings, renames, locals, params, scope, site)
    ensures f in locals <==> LookupLocal(renames, f).Some?
    ensures f in locals ==> Refer(scope, LookupLocal(renames, f).value) == Binder(locals[f])
    ensures f in bindings <==> f in params
    ensures f in bindings ==> Resolve(bindings[f], scope, depth) == params[f](depth)
    ensures !Reserved(f) ==> Refer(scope, f) == Refer(site, f)
    ensures SiteVisible(scope, site)
  {
  }

  lemma LocalIssued(renames: Renames, f: string, counter: nat)
    requires RenamesIssued(renames, counter) && LookupLocal(renames, f).Some?
    ensures Issued(LookupLocal(renames, f).value, counter)
  {
  }

  lemma BindingClean(macros: Macros, bindings: Bindings, f: string, counter: nat)
    requires BindingsClean(macros, bindings, counter) && f in bindings
    ensures Clean(macros, bindings[f], counter)
  {
  }

  /** Calling a parameter calls the variable it stands for, or invokes its value. */
  lemma ParamCallMeans(macros: Macros, actual: Expr, args: seq<Expr>, meanings: seq<Meaning>, scope: Scope,
                       meaning: Meaning, counter: nat, depth: nat, nesting: nat)
    requires nesting <= MAX_EXPANSION_DEPTH && Clean(macros, actual, counter)
    requires ResolveAll(args, scope, depth) == At(meanings, depth) && Resolve(actual, scope, depth) == meaning(depth)
    ensures var r := match actual
              case Var(g) => CallNamed(macros, g, args, counter, nesting)
              case _ => Some(Cloned(Node(MethodCall("invoke"), [actual] + args), counter));
            && r.Some?
            && Resolve(r.value.expr, scope, depth) ==
               match meaning(depth)
               case RVar(referent) => RCall(referent, At(meanings, depth))
               case v => RNode(MethodCall("invoke"), [v] + At(meanings, depth))
  {
    if actual.Var? {
      assert actual.name in FreeNames(actual);
    } else {
      assert ResolveAll([actual] + args, scope, depth) ==
             [Resolve(actual, scope, depth)] + ResolveAll(args, scope, depth);
    }
  }

  lemma {:induction false} ZipAgree(names: seq<string>, args: seq<Expr>, meanings: seq<Meaning>, scope: Scope)
    requires |names| == |args| && ArgsMean(args, meanings, scope)
    ensures Zip(names, args).Keys == Zip(names, meanings).Keys
    ensures forall p, d: nat | p in Zip(names, args) :: Resolve(Zip(names, args)[p], scope, d) == Zip(names, meanings)[p](d)
    decreases names
  {
    if names != [] {
      var n := |names| - 1;
      ZipAgree(names[..n], args[..n], meanings[..n], scope);
    }
  }

  /** Hygiene of one macro call: whatever the call site's binders, the expansion means the macro's
      body with the arguments as they are at the call site. */
  lemma {:induction false} ExpansionMeans(macros: Macros, name: string, args: seq<Expr>, meanings: seq<Meaning>,
                                          scope: Scope, site: Scope, counter: nat, depth: nat, nesting: nat)
    requires nesting <= MAX_EXPANSION_DEPTH && MacrosOk(macros) && CleanAll(macros, args, counter)
    requires ArgsMean(args, meanings, scope) && SiteVisible(scope, site)
    requires ExpandMacroCall(macros, name, args, counter, nesting).Some?
    ensures Resolve(ExpandMacroCall(macros, name, args, counter, nesting).value.expr, scope, depth) ==
            IdealCall(macros, name, meanings, site, depth, nesting)
    decreases MAX_EXPANSION_DEPTH - nesting, 0, 0
  {
    var m := macros[name];
    ZipSound(m.params, args);
    ZipAgree(m.params, args, meanings, scope);
    assert forall x :: LookupLocal([map[]], x) == None;
    CloneMeans(macros, m.body, Zip(m.params, args), [map[]], map[], Zip(m.params, meanings), scope, site, counter,
               depth, nesting + 1);
  }

  lemma {:induction false} MatchMeans(macros: Macros, e: Expr, cases: seq<Case>, subject: Expr, meaning: Meaning,
                                      bindings: Bindings, renames: Renames, locals: Scope,
                                      params: map<string, Meaning>, scope: Scope, site: Scope, counter: nat,
                                      depth: nat, nesting: nat)
    requires nesting <= MAX_EXPANSION_DEPTH && Safe(macros, bindings, renames, counter) && Source(macros, e)
    requires Agree(bindings, renames, locals, params, scope, site)
    requires Clean(macros, subject, counter) && forall d: nat :: Resolve(subject, scope, d) == meaning(d)
    requires e.Match? && |cases| <= |e.cases| && cases == e.cases[|e.cases| - |cases|..]
    requires CloneMatch(macros, e, cases, subject, bindings, renames, counter, nesting).Some?
    ensures Resolve(CloneMatch(macros, e, cases, subject, bindings, renames, counter, nesting).value.expr, scope, depth)
            == IdealMatch(macros, e, cases, meaning, locals, params, site, depth, nesting)
    decreases MAX_EXPANSION_DEPTH - nesting, 1, e, 0, |cases|
  {
    hide FreshName, Agree, RenamesIssued, BindingsClean, MacrosOk, Clean, Source;
    if cases == [] {
      FallbackIsSource(macros, e);
      CloneMeans(macros, e.fallback, bindings, renames, locals, params, scope, site, counter, depth, nesting);
    } else {
      var p := cases[0].pattern;
      PatternResolved(p, subject, map[], scope, depth, map[]);
      match BindPattern(p, subject, map[])
      case Some(captures) =>
        var captured: map<string, Meaning> :=
          map x | x in CaptureNames(p) :: (d: nat) => CaptureMeaning(p, meaning, x, d);
        AgreeCaptures(p, subject, meaning, captures, captured, bindings, renames, locals, params, scope, site);
        CapturesClean(macros, p, subject, map[], counter);
        BindingsUnion(macros, bindings, captures, counter);
        CaseIsSource(macros, e, |e.cases| - |cases|);
        CloneMeans(macros, cases[0].result, bindings + captures, renames, locals, params + captured, scope, site,
                   counter, depth, nesting);
      case None =>
        MatchMeans(macros, e, cases[1..], subject, meaning, bindings, renames, locals, params, scope, site,
                   counter, depth, nesting);
    }
  }

  lemma FallbackIsSource(macros: Macros, e: Expr)
    requires e.Match? && Source(macros, e)
    ensures Source(macros, e.fallback)
  {
  }

  lemma BindingsUnion(macros: Macros, a: Bindings, b: Bindings, counter: nat)
    requires BindingsClean(macros, a, counter) && BindingsClean(macros, b, counter)
    ensures BindingsClean(macros, a + b, counter)
  {
  }

  lemma AgreeCaptures(p: Pattern, subject: Expr, meaning: Meaning, captures: Bindings,
                      captured: map<string, Meaning>, bindings: Bindings, renames: Renames, locals: Scope,
                      params: map<string, Meaning>, scope: Scope, site: Scope)
    requires Agree(bindings, renames, locals, params, scope, site)
    requires forall d: nat :: Resolve(subject, scope, d) == meaning(d)
    requires BindPattern(p, subject, map[]) == Some(captures)
    requires captured == (map x | x in CaptureNames(p) :: ((d: nat) => CaptureMeaning(p, meaning, x, d)))
    ensures Agree(bindings + captures, renames, locals, params + captured, scope, site)
  {
    hide FreshName, Resolve, BindPattern, BindResolved, CaptureMeaning;
    CaptureKeys(p, subject, captures, scope);
    forall x, d: nat | x in captures ensures Resolve(captures[x], scope, d) == captured[x](d) {
      CaptureResolves(p, subject, meaning, captures, scope, x, d);
    }
  }

  lemma CaptureKeys(p: Pattern, subject: Expr, captures: Bindings, scope: Scope)
    requires BindPattern(p, subject, map[]) == Some(captures)
    ensures captures.Keys == CaptureNames(p)
  {
    PatternResolved(p, subject, map[], scope, 0, map[]);
  }

  lemma CaptureResolves(p: Pattern, subject: Expr, meaning: Meaning, captures: Bindings, scope: Scope, x: string,
                        depth: nat)
    requires BindPattern(p, subject, map[]) == Some(captures) && x in captures
    requires Resolve(subject, scope, depth) == meaning(depth)
    ensures Resolve(captures[x], scope, depth) == CaptureMeaning(p, meaning, x, depth)
  {
    PatternResolved(p, subject, map[], scope, depth, map[]);
  }
}
