/** When macro expansion succeeds (semantic/macro_expander.cpp), without regard to the names that it
    makes up, the trees that it builds and the order in which it builds them. */
module MacroSuccess {
  import opened Wrappers
  import opened Decimal
  import opened MacroSyntax
  import opened MacroExpansion
  import opened MacroHygiene

  /** As much of an expanded tree as compile-time matches and calls of parameters look at: names, where a
      local variable of a macro has none, literals and plain nodes. */
  datatype Form =
    | FLit(literal: Literal)
    | FVar(name: Option<string>)
    | FNode(kind: Label, kids: seq<Form>)
    | FOther

  type Forms = map<string, Form>

  function FormMatch(p: Pattern, v: Form, captures: Forms): Option<Forms>
    decreases p
  {
    match p
    case Capture(x) => Some(captures[x := v])
    case LitPattern(l) => if v == FLit(l) then Some(captures) else None
    case BinaryPattern(op, l, r) =>
      if v.FNode? && v.kind == BinaryOp(op) && |v.kids| == 2 then
        var c1 :- FormMatch(l, v.kids[0], captures);
        FormMatch(r, v.kids[1], c1)
      else None
    case UnaryPattern(op, a) =>
      if v.FNode? && v.kind == UnaryOp(op) && |v.kids| == 1 then FormMatch(a, v.kids[0], captures) else None
    case Other => None
  }

  /** The form of a piece of a macro body: `locals` are the variables bound around it inside the macro,
      `actuals` what the parameters and captures stand for, and `nested` more macro calls may be nested in
      it. There is none if a macro that is reached is called with a wrong number of arguments, or if macro
      calls are nested too deeply. */
  ghost function FormOf(macros: Macros, e: Expr, locals: set<string>, actuals: Forms, nested: nat): Option<Form>
    decreases nested, 1, e, 1
  {
    match e
    case Lit(l) => Some(FLit(l))
    case Var(x) => Some(if x in locals then FVar(None) else if x in actuals then actuals[x] else FVar(Some(x)))
    case Node(kind, kids) =>
      var fs :- FormsOf(macros, kids, locals, actuals, nested);
      Some(FNode(kind, fs))
    case Bind(_, x, init, body) =>
      var _ :- FormOf(macros, init, locals, actuals, nested);
      var _ :- FormOf(macros, body, locals + {x}, actuals, nested);
      Some(FOther)
    case Lambda(ps, body) =>
      var _ :- FormOf(macros, body, locals + (set p | p in ps), actuals, nested);
      Some(FOther)
    case Call(f, args) =>
      var fs :- FormsOf(macros, args, locals, actuals, nested);
      if f in locals then Some(FOther)
      else if f in actuals then
        if actuals[f] == FVar(None) then Some(FOther)
        else if actuals[f].FVar? then CallForm(macros, actuals[f].name.value, fs, nested)
        else Some(FNode(MethodCall("invoke"), [actuals[f]] + fs))
      else CallForm(macros, f, fs, nested)
    case Match(subject, cases, fallback) =>
      var v :- FormOf(macros, subject, locals, actuals, nested);
      CasesForm(macros, e, cases, v, locals, actuals, nested)
  }

  ghost function FormsOf(macros: Macros, es: seq<Expr>, locals: set<string>, actuals: Forms, nested: nat)
    : (fs: Option<seq<Form>>)
    ensures fs.Some? ==> |fs.value| == |es|
    decreases nested, 1, es, 0
  {
    if es == [] then Some([])
    else
      var f :- FormOf(macros, es[0], locals, actuals, nested);
      var rest :- FormsOf(macros, es[1..], locals, actuals, nested);
      Some([f] + rest)
  }

  ghost function CallForm(macros: Macros, f: string, args: seq<Form>, nested: nat): Option<Form>
    decreases nested, 0
  {
    if f !in macros then Some(FOther)
    else if |args| != |macros[f].params| || nested == 0 then None
    else FormOf(macros, macros[f].body, {}, Zip(macros[f].params, args), nested - 1)
  }

  /** The first case whose pattern the subject has, or the default. */
  ghost function CasesForm(macros: Macros, e: Expr, cases: seq<Case>, v: Form, locals: set<string>, actuals: Forms,
                           nested: nat): Option<Form>
    requires e.Match? && |cases| <= |e.cases| && cases == e.cases[|e.cases| - |cases|..]
    decreases nested, 1, e, 0, |cases|
  {
    if cases == [] then FormOf(macros, e.fallback, locals, actuals, nested)
    else
      match FormMatch(cases[0].pattern, v, map[])
      case Some(captures) => FormOf(macros, cases[0].result, locals, actuals + captures, nested)
      case None => CasesForm(macros, e, cases[1..], v, locals, actuals, nested)
  }

  /** The form of a piece of program text. A match has none there, and 128 macro calls may be nested. */
  ghost function ProgramForm(macros: Macros, e: Expr): Option<Form>
    decreases e, 1
  {
    match e
    case Lit(l) => Some(FLit(l))
    case Var(x) => Some(FVar(Some(x)))
    case Node(kind, kids) =>
      var fs :- ProgramForms(macros, kids);
      Some(FNode(kind, fs))
    case Bind(_, _, init, body) =>
      var _ :- ProgramForm(macros, init);
      var _ :- ProgramForm(macros, body);
      Some(FOther)
    case Lambda(_, body) =>
      var _ :- ProgramForm(macros, body);
      Some(FOther)
    case Call(f, args) =>
      var fs :- ProgramForms(macros, args);
      CallForm(macros, f, fs, 128)
    case Match(_, _, _) => None
  }

  ghost function ProgramForms(macros: Macros, es: seq<Expr>): (fs: Option<seq<Form>>)
    ensures fs.Some? ==> |fs.value| == |es|
    decreases es, 0
  {
    if es == [] then Some([])
    else
      var f :- ProgramForm(macros, es[0]);
      var rest :- ProgramForms(macros, es[1..]);
      Some([f] + rest)
  }

  // ---------- expanded trees and their forms ----------

  /** A name that the expander may still make up. */
  ghost predicate Made(name: string, counter: nat) {
    exists base: string, index: nat :: name == FreshName(base, index) && index > counter
  }

  /** No macro has a name that the expander may make up from now on. */
  ghost predicate NoneMade(macros: Macros, counter: nat) {
    forall f | f in macros :: !Made(f, counter)
  }

  lemma NoneMadeLater(macros: Macros, counter: nat, later: nat)
    requires NoneMade(macros, counter) && counter <= later
    ensures NoneMade(macros, later)
  {
    forall f | Made(f, later) ensures Made(f, counter) {
      MadeEarlier(f, counter, later);
    }
  }

  lemma MadeEarlier(name: string, counter: nat, later: nat)
    requires Made(name, later) && counter <= later
    ensures Made(name, counter)
  {
  }

  /** `v` has the form `f`. */
  ghost predicate Shows(macros: Macros, v: Expr, f: Form)
    decreases v
  {
    match v
    case Lit(l) => f == FLit(l)
    case Var(x) => f == FVar(Some(x)) || (f == FVar(None) && x !in macros)
    case Node(kind, kids) =>
      && f.FNode? && f.kind == kind && |f.kids| == |kids|
      && forall i | 0 <= i < |kids| :: Shows(macros, kids[i], f.kids[i])
    case _ => f == FOther
  }

  ghost predicate ShowAll(macros: Macros, vs: seq<Expr>, fs: seq<Form>) {
    |vs| == |fs| && forall i | 0 <= i < |vs| :: Shows(macros, vs[i], fs[i])
  }

  ghost predicate BindingsShow(macros: Macros, bindings: Bindings, actuals: Forms) {
    bindings.Keys == actuals.Keys && forall p | p in bindings :: Shows(macros, bindings[p], actuals[p])
  }

  /** The renamed variables are the local ones, and no new name is a macro. */
  ghost predicate RenamesShow(macros: Macros, renames: Renames, locals: set<string>) {
    && (forall x :: x in locals <==> LookupLocal(renames, x).Some?)
    && forall x | LookupLocal(renames, x).Some? :: LookupLocal(renames, x).value !in macros
  }

  ghost predicate Around(macros: Macros, bindings: Bindings, renames: Renames, counter: nat, locals: set<string>,
                         actuals: Forms)
  {
    NoneMade(macros, counter) && BindingsShow(macros, bindings, actuals) && RenamesShow(macros, renames, locals)
  }

  ghost predicate MatchShows(macros: Macros, r: Option<Bindings>, f: Option<Forms>) {
    (r.Some? <==> f.Some?) && (r.Some? ==> BindingsShow(macros, r.value, f.value))
  }

  /** Matching depends on the form only. */
  lemma {:induction false} MatchOnForm(macros: Macros, p: Pattern, v: Expr, f: Form, captures: Bindings, forms: Forms)
    requires Shows(macros, v, f) && BindingsShow(macros, captures, forms)
    ensures MatchShows(macros, BindPattern(p, v, captures), FormMatch(p, f, forms))
    decreases p
  {
    match p
    case Capture(_) =>
    case LitPattern(_) =>
    case BinaryPattern(op, l, r) =>
      if v.Node? && v.kind == BinaryOp(op) && |v.kids| == 2 {
        MatchOnForm(macros, l, v.kids[0], f.kids[0], captures, forms);
        if BindPattern(l, v.kids[0], captures).Some? {
          MatchOnForm(macros, r, v.kids[1], f.kids[1], BindPattern(l, v.kids[0], captures).value,
                      FormMatch(l, f.kids[0], forms).value);
        }
      }
    case UnaryPattern(op, a) =>
      if v.Node? && v.kind == UnaryOp(op) && |v.kids| == 1 {
        MatchOnForm(macros, a, v.kids[0], f.kids[0], captures, forms);
      }
    case Other =>
  }

  /** The step succeeds exactly when there is a form, its result has that form, and the counter does not
      go back. */
  ghost predicate Agree(macros: Macros, r: Option<Cloned>, f: Option<Form>, counter: nat) {
    (r.Some? <==> f.Some?) && (r.Some? ==> counter <= r.value.counter && Shows(macros, r.value.expr, f.value))
  }

  ghost predicate AgreeAll(macros: Macros, r: Option<ClonedAll>, f: Option<seq<Form>>, counter: nat) {
    (r.Some? <==> f.Some?) && (r.Some? ==> counter <= r.value.counter && ShowAll(macros, r.value.exprs, f.value))
  }

  lemma {:induction false} CloneHasForm(macros: Macros, e: Expr, bindings: Bindings, renames: Renames, counter: nat,
                                        depth: nat, locals: set<string>, actuals: Forms)
    requires depth <= 128 && Around(macros, bindings, renames, counter, locals, actuals)
    ensures Agree(macros, Clone(macros, e, bindings, renames, counter, depth),
                  FormOf(macros, e, locals, actuals, 128 - depth), counter)
    decreases 128 - depth, 1, e, 1
  {
    hide FreshName, FreshAll, Zip, NoneMade, BindingsShow, RenamesShow;
    match e
    case Lit(_) =>
    case Var(x) => VarHasForm(macros, x, bindings, renames, locals, actuals);
    case Node(_, kids) => CloneAllHaveForms(macros, kids, bindings, renames, counter, depth, locals, actuals);
    case Bind(_, _, _, _) => BindHasForm(macros, e, bindings, renames, counter, depth, locals, actuals);
    case Lambda(ps, body) =>
      LambdaAround(macros, bindings, renames, counter, locals, actuals, ps);
      CloneHasForm(macros, body, bindings, renames + [Zip(ps, FreshAll(ps, counter))], counter + |ps|, depth,
                   locals + (set p | p in ps), actuals);
    case Call(f, args) =>
      CloneAllHaveForms(macros, args, bindings, renames, counter, depth, locals, actuals);
      var a := CloneAll(macros, args, bindings, renames, counter, depth);
      if a.Some? {
        NoneMadeLater(macros, counter, a.value.counter);
        CallHasForm(macros, e, a.value.exprs, bindings, renames, a.value.counter, depth, locals, actuals);
      }
    case Match(subject, cases, _) =>
      CloneHasForm(macros, subject, bindings, renames, counter, depth, locals, actuals);
      var v := Clone(macros, subject, bindings, renames, counter, depth);
      if v.Some? {
        NoneMadeLater(macros, counter, v.value.counter);
        CasesHaveForm(macros, e, cases, v.value.expr, FormOf(macros, subject, locals, actuals, 128 - depth).value,
                      bindings, renames, v.value.counter, depth, locals, actuals);
      }
  }

  lemma VarHasForm(macros: Macros, x: string, bindings: Bindings, renames: Renames, locals: set<string>,
                   actuals: Forms)
    requires BindingsShow(macros, bindings, actuals) && RenamesShow(macros, renames, locals)
    ensures x in locals <==> LookupLocal(renames, x).Some?
    ensures LookupLocal(renames, x).Some? ==> LookupLocal(renames, x).value !in macros
    ensures x in bindings <==> x in actuals
    ensures x in bindings ==> Shows(macros, bindings[x], actuals[x])
  {
    assert x in bindings <==> x in bindings.Keys;
  }

  lemma {:induction false} BindHasForm(macros: Macros, e: Expr, bindings: Bindings, renames: Renames, counter: nat,
                                       depth: nat, locals: set<string>, actuals: Forms)
    requires e.Bind? && depth <= 128 && Around(macros, bindings, renames, counter, locals, actuals)
    ensures Agree(macros, Clone(macros, e, bindings, renames, counter, depth),
                  FormOf(macros, e, locals, actuals, 128 - depth), counter)
    decreases 128 - depth, 1, e, 0
  {
    hide FreshName, NoneMade, BindingsShow, RenamesShow;
    CloneHasForm(macros, e.init, bindings, renames, counter, depth, locals, actuals);
    var r1 := Clone(macros, e.init, bindings, renames, counter, depth);
    if r1.Some? {
      var c := r1.value.counter;
      NoneMadeLater(macros, counter, c);
      PushedShows(macros, renames, locals, e.name, c);
      NoneMadeLater(macros, c, c + 1);
      CloneHasForm(macros, e.body, bindings, renames + [map[e.name := FreshName(e.name, c + 1)]], c + 1, depth,
                   locals + {e.name}, actuals);
    }
  }

  lemma PushedShows(macros: Macros, renames: Renames, locals: set<string>, x: string, counter: nat)
    requires NoneMade(macros, counter) && RenamesShow(macros, renames, locals)
    ensures RenamesShow(macros, renames + [map[x := FreshName(x, counter + 1)]], locals + {x})
  {
    hide FreshName, LookupLocal;
    var m := map[x := FreshName(x, counter + 1)];
    assert Made(m[x], counter);
    forall y ensures LookupLocal(renames + [m], y) == if y == x then Some(m[x]) else LookupLocal(renames, y) {
      LookupPushed(renames, m, y);
    }
  }

  lemma LambdaAround(macros: Macros, bindings: Bindings, renames: Renames, counter: nat, locals: set<string>,
                     actuals: Forms, ps: seq<string>)
    requires Around(macros, bindings, renames, counter, locals, actuals)
    ensures Around(macros, bindings, renames + [Zip(ps, FreshAll(ps, counter))], counter + |ps|,
                   locals + (set p | p in ps), actuals)
  {
    hide FreshName, LookupLocal, Zip, FreshAll, BindingsShow;
    var m := Zip(ps, FreshAll(ps, counter));
    FreshAllIssued(ps, counter);
    ZipSound(ps, FreshAll(ps, counter));
    forall y | y in m ensures m[y] !in macros {
      var i :| 0 <= i < |ps| && ps[i] == y && m[y] == FreshAll(ps, counter)[i];
      assert Made(m[y], counter);
    }
    forall y ensures LookupLocal(renames + [m], y) == if y in m then Some(m[y]) else LookupLocal(renames, y) {
      LookupPushed(renames, m, y);
    }
    NoneMadeLater(macros, counter, counter + |ps|);
    assert forall y :: y in m <==> y in ps;
  }

  lemma {:induction false} CloneAllHaveForms(macros: Macros, es: seq<Expr>, bindings: Bindings, renames: Renames,
                                             counter: nat, depth: nat, locals: set<string>, actuals: Forms)
    requires depth <= 128 && Around(macros, bindings, renames, counter, locals, actuals)
    ensures AgreeAll(macros, CloneAll(macros, es, bindings, renames, counter, depth),
                     FormsOf(macros, es, locals, actuals, 128 - depth), counter)
    decreases 128 - depth, 1, es, 0
  {
    hide NoneMade, BindingsShow, RenamesShow, Shows;
    if es != [] {
      CloneHasForm(macros, es[0], bindings, renames, counter, depth, locals, actuals);
      var r := Clone(macros, es[0], bindings, renames, counter, depth);
      if r.Some? {
        NoneMadeLater(macros, counter, r.value.counter);
        CloneAllHaveForms(macros, es[1..], bindings, renames, r.value.counter, depth, locals, actuals);
      }
    }
  }

  lemma {:induction false} CallHasForm(macros: Macros, e: Expr, args: seq<Expr>, bindings: Bindings, renames: Renames,
                                       counter: nat, depth: nat, locals: set<string>, actuals: Forms)
    requires e.Call? && depth <= 128 && Around(macros, bindings, renames, counter, locals, actuals)
    requires var fs := FormsOf(macros, e.args, locals, actuals, 128 - depth);
             fs.Some? && ShowAll(macros, args, fs.value)
    ensures Agree(macros, CloneCall(macros, e.callee, args, bindings, renames, counter, depth),
                  FormOf(macros, e, locals, actuals, 128 - depth), counter)
    decreases 128 - depth, 0, 2
  {
    hide NoneMade, BindingsShow, RenamesShow, CallForm, CallNamed;
    var f, fs := e.callee, FormsOf(macros, e.args, locals, actuals, 128 - depth).value;
    VarHasForm(macros, f, bindings, renames, locals, actuals);
    if f in locals {
      Uncalled(macros, LookupLocal(renames, f).value, args, fs, counter, depth);
    } else if f in actuals {
      if actuals[f] == FVar(None) {
        Uncalled(macros, bindings[f].name, args, fs, counter, depth);
      } else if actuals[f].FVar? {
        NamedHasForm(macros, bindings[f].name, args, fs, counter, depth);
      } else {
        assert Shows(macros, Node(MethodCall("invoke"), [bindings[f]] + args),
                     FNode(MethodCall("invoke"), [actuals[f]] + fs));
      }
    } else {
      NamedHasForm(macros, f, args, fs, counter, depth);
    }
  }

  lemma Uncalled(macros: Macros, f: string, args: seq<Expr>, fs: seq<Form>, counter: nat, depth: nat)
    requires depth <= 128 && f !in macros
    ensures CallNamed(macros, f, args, counter, depth) == Some(Cloned(Call(f, args), counter))
    ensures CallForm(macros, f, fs, 128 - depth) == Some(FOther)
  {
  }

  lemma {:induction false} NamedHasForm(macros: Macros, f: string, args: seq<Expr>, fs: seq<Form>, counter: nat,
                                        depth: nat)
    requires depth <= 128 && NoneMade(macros, counter) && ShowAll(macros, args, fs)
    ensures Agree(macros, CallNamed(macros, f, args, counter, depth), CallForm(macros, f, fs, 128 - depth), counter)
    decreases 128 - depth, 0, 1
  {
    hide Zip, NoneMade, Clone, FormOf;
    if f !in macros {
      Uncalled(macros, f, args, fs, counter, depth);
    } else if |args| == |macros[f].params| && depth < 128 {
      var m := macros[f];
      ZipShows(macros, m.params, args, fs);
      NothingLocal(macros);
      CloneHasForm(macros, m.body, Zip(m.params, args), [map[]], counter, depth + 1, {}, Zip(m.params, fs));
    }
  }

  lemma NothingLocal(macros: Macros)
    ensures RenamesShow(macros, [map[]], {})
  {
    assert forall x :: LookupLocal([map[]], x) == None;
  }

  lemma {:induction false} ZipShows(macros: Macros, ps: seq<string>, vs: seq<Expr>, fs: seq<Form>)
    requires |ps| == |vs| && ShowAll(macros, vs, fs)
    ensures BindingsShow(macros, Zip(ps, vs), Zip(ps, fs))
    decreases ps
  {
    if ps != [] {
      var n := |ps| - 1;
      ZipShows(macros, ps[..n], vs[..n], fs[..n]);
    }
  }

  lemma {:induction false} CasesHaveForm(macros: Macros, e: Expr, cases: seq<Case>, v: Expr, f: Form,
                                         bindings: Bindings, renames: Renames, counter: nat, depth: nat,
                                         locals: set<string>, actuals: Forms)
    requires depth <= 128 && Around(macros, bindings, renames, counter, locals, actuals) && Shows(macros, v, f)
    requires e.Match? && |cases| <= |e.cases| && cases == e.cases[|e.cases| - |cases|..]
    ensures Agree(macros, CloneMatch(macros, e, cases, v, bindings, renames, counter, depth),
                  CasesForm(macros, e, cases, f, locals, actuals, 128 - depth), counter)
    decreases 128 - depth, 1, e, 0, |cases|
  {
    hide NoneMade, RenamesShow, BindPattern, FormMatch, Shows;
    if cases == [] {
      CloneHasForm(macros, e.fallback, bindings, renames, counter, depth, locals, actuals);
    } else {
      MatchOnForm(macros, cases[0].pattern, v, f, map[], map[]);
      match BindPattern(cases[0].pattern, v, map[])
      case Some(captures) =>
        var forms := FormMatch(cases[0].pattern, f, map[]).value;
        UnionShows(macros, bindings, actuals, captures, forms);
        CloneHasForm(macros, cases[0].result, bindings + captures, renames, counter, depth, locals, actuals + forms);
      case None =>
        CasesHaveForm(macros, e, cases[1..], v, f, bindings, renames, counter, depth, locals, actuals);
    }
  }

  lemma UnionShows(macros: Macros, bindings: Bindings, actuals: Forms, captures: Bindings, forms: Forms)
    requires BindingsShow(macros, bindings, actuals) && BindingsShow(macros, captures, forms)
    ensures BindingsShow(macros, bindings + captures, actuals + forms)
  {
    hide Shows;
    assert forall p :: p in captures <==> p in captures.Keys;
    assert forall p :: p in forms <==> p in forms.Keys;
  }

  // ---------- whole programs ----------

  /** Expansion of a program succeeds exactly when the program has a form: outside macros there is no
      match, every macro call that is reached has as many arguments as the macro has parameters, and at
      most 128 macro calls are nested. */
  lemma {:induction false} ExpandExactly(macros: Macros, e: Expr, counter: nat)
    requires NoneMade(macros, counter)
    ensures Expand(macros, e, counter).Some? <==> ProgramForm(macros, e).Some?
    ensures Agree(macros, Expand(macros, e, counter), ProgramForm(macros, e), counter)
    decreases e, 1
  {
    hide NoneMade, CallForm, CallNamed;
    match e
    case Lit(_) =>
    case Var(_) =>
    case Node(_, kids) => ExpandAllExactly(macros, kids, counter);
    case Bind(_, _, init, body) =>
      ExpandExactly(macros, init, counter);
      var r := Expand(macros, init, counter);
      if r.Some? {
        NoneMadeLater(macros, counter, r.value.counter);
        ExpandExactly(macros, body, r.value.counter);
      }
    case Lambda(_, body) => ExpandExactly(macros, body, counter);
    case Call(f, args) =>
      ExpandAllExactly(macros, args, counter);
      var a := ExpandAll(macros, args, counter);
      if a.Some? {
        NoneMadeLater(macros, counter, a.value.counter);
        NamedHasForm(macros, f, a.value.exprs, ProgramForms(macros, args).value, a.value.counter, 0);
      }
    case Match(_, _, _) =>
  }

  lemma {:induction false} ExpandAllExactly(macros: Macros, es: seq<Expr>, counter: nat)
    requires NoneMade(macros, counter)
    ensures AgreeAll(macros, ExpandAll(macros, es, counter), ProgramForms(macros, es), counter)
    decreases es, 0
  {
    hide NoneMade, Shows;
    if es != [] {
      ExpandExactly(macros, es[0], counter);
      var r := Expand(macros, es[0], counter);
      if r.Some? {
        NoneMadeLater(macros, counter, r.value.counter);
        ExpandAllExactly(macros, es[1..], r.value.counter);
      }
    }
  }

  // ---------- programs whose macros do not call each other in circles ----------

  /** Every macro that `e` calls by its name gets as many arguments as it has parameters and has a rank
      below `bound`, and no macro is used as a variable. */
  predicate Fits(macros: Macros, rank: map<string, nat>, e: Expr, bound: nat)
    decreases e, 1
  {
    match e
    case Lit(_) => true
    case Var(x) => x !in macros
    case Node(_, kids) => AllFit(macros, rank, kids, bound)
    case Bind(_, _, init, body) => Fits(macros, rank, init, bound) && Fits(macros, rank, body, bound)
    case Lambda(_, body) => Fits(macros, rank, body, bound)
    case Call(f, args) =>
      && AllFit(macros, rank, args, bound)
      && (f in macros ==> |args| == |macros[f].params| && f in rank && rank[f] < bound)
    case Match(subject, cases, fallback) =>
      && Fits(macros, rank, subject, bound) && Fits(macros, rank, fallback, bound)
      && forall i | 0 <= i < |cases| :: Fits(macros, rank, cases[i].result, bound)
  }

  predicate AllFit(macros: Macros, rank: map<string, nat>, es: seq<Expr>, bound: nat)
    decreases es, 0
  {
    forall i | 0 <= i < |es| :: Fits(macros, rank, es[i], bound)
  }

  /** Macros call only macros of a lower rank. */
  predicate Ranked(macros: Macros, rank: map<string, nat>) {
    forall m | m in macros && m in rank :: Fits(macros, rank, macros[m].body, rank[m])
  }

  predicate NoMatch(e: Expr)
    decreases e, 1
  {
    match e
    case Lit(_) => true
    case Var(_) => true
    case Node(_, kids) => forall i | 0 <= i < |kids| :: NoMatch(kids[i])
    case Bind(_, _, init, body) => NoMatch(init) && NoMatch(body)
    case Lambda(_, body) => NoMatch(body)
    case Call(_, args) => forall i | 0 <= i < |args| :: NoMatch(args[i])
    case Match(_, _, _) => false
  }

  /** A form that is not a macro and has none inside. */
  ghost predicate Harmless(macros: Macros, f: Form)
    decreases f
  {
    match f
    case FVar(Some(x)) => x !in macros
    case FNode(_, kids) => forall i | 0 <= i < |kids| :: Harmless(macros, kids[i])
    case _ => true
  }

  ghost predicate HarmlessAll(macros: Macros, fs: Forms) {
    forall p | p in fs :: Harmless(macros, fs[p])
  }

  ghost predicate HasHarmless(macros: Macros, f: Option<Form>) {
    f.Some? && Harmless(macros, f.value)
  }

  ghost predicate HaveHarmless(macros: Macros, fs: Option<seq<Form>>) {
    fs.Some? && forall i | 0 <= i < |fs.value| :: Harmless(macros, fs.value[i])
  }

  lemma {:induction false} CapturesHarmless(macros: Macros, p: Pattern, v: Form, captures: Forms)
    requires Harmless(macros, v) && HarmlessAll(macros, captures) && FormMatch(p, v, captures).Some?
    ensures HarmlessAll(macros, FormMatch(p, v, captures).value)
    decreases p
  {
    match p
    case Capture(_) =>
    case LitPattern(_) =>
    case BinaryPattern(_, l, r) =>
      CapturesHarmless(macros, l, v.kids[0], captures);
      CapturesHarmless(macros, r, v.kids[1], FormMatch(l, v.kids[0], captures).value);
    case UnaryPattern(_, a) => CapturesHarmless(macros, a, v.kids[0], captures);
    case Other =>
  }

  lemma {:induction false} FittingHasForm(macros: Macros, rank: map<string, nat>, e: Expr, locals: set<string>,
                                          actuals: Forms, nested: nat)
    requires Ranked(macros, rank) && Fits(macros, rank, e, nested) && HarmlessAll(macros, actuals)
    ensures HasHarmless(macros, FormOf(macros, e, locals, actuals, nested))
    decreases nested, 1, e, 1
  {
    hide Zip, HarmlessAll, Ranked;
    match e
    case Lit(_) =>
    case Var(x) => ActualHarmless(macros, actuals, x);
    case Node(_, kids) => AllFittingHaveForms(macros, rank, kids, locals, actuals, nested);
    case Bind(_, x, init, body) =>
      FittingHasForm(macros, rank, init, locals, actuals, nested);
      FittingHasForm(macros, rank, body, locals + {x}, actuals, nested);
    case Lambda(ps, body) =>
      FittingHasForm(macros, rank, body, locals + (set p | p in ps), actuals, nested);
    case Call(f, args) =>
      AllFittingHaveForms(macros, rank, args, locals, actuals, nested);
      var fs := FormsOf(macros, args, locals, actuals, nested).value;
      ActualHarmless(macros, actuals, f);
      if f !in locals && f !in actuals {
        FittingCall(macros, rank, f, fs, nested);
      }
    case Match(subject, cases, _) =>
      FittingHasForm(macros, rank, subject, locals, actuals, nested);
      FittingCases(macros, rank, e, cases, FormOf(macros, subject, locals, actuals, nested).value, locals, actuals,
                   nested);
  }

  lemma ActualHarmless(macros: Macros, actuals: Forms, x: string)
    requires HarmlessAll(macros, actuals)
    ensures x in actuals ==> Harmless(macros, actuals[x])
  {
  }

  lemma {:induction false} AllFittingHaveForms(macros: Macros, rank: map<string, nat>, es: seq<Expr>,
                                               locals: set<string>, actuals: Forms, nested: nat)
    requires Ranked(macros, rank) && AllFit(macros, rank, es, nested) && HarmlessAll(macros, actuals)
    ensures HaveHarmless(macros, FormsOf(macros, es, locals, actuals, nested))
    decreases nested, 1, es, 0
  {
    hide HarmlessAll, Ranked, Fits, Harmless;
    if es != [] {
      FittingHasForm(macros, rank, es[0], locals, actuals, nested);
      AllFittingHaveForms(macros, rank, es[1..], locals, actuals, nested);
    }
  }

  lemma {:induction false} FittingCall(macros: Macros, rank: map<string, nat>, f: string, args: seq<Form>, nested: nat)
    requires Ranked(macros, rank) && forall i | 0 <= i < |args| :: Harmless(macros, args[i])
    requires f in macros ==> |args| == |macros[f].params| && f in rank && rank[f] < nested
    ensures HasHarmless(macros, CallForm(macros, f, args, nested))
    decreases nested, 0
  {
    if f in macros {
      ZipSound(macros[f].params, args);
      LowerFits(macros, rank, macros[f].body, rank[f], nested - 1);
      FittingHasForm(macros, rank, macros[f].body, {}, Zip(macros[f].params, args), nested - 1);
    }
  }

  lemma {:induction false} LowerFits(macros: Macros, rank: map<string, nat>, e: Expr, low: nat, high: nat)
    requires Fits(macros, rank, e, low) && low <= high
    ensures Fits(macros, rank, e, high)
    decreases e, 1
  {
    match e
    case Lit(_) =>
    case Var(_) =>
    case Node(_, kids) => LowerAllFit(macros, rank, kids, low, high);
    case Bind(_, _, init, body) =>
      LowerFits(macros, rank, init, low, high);
      LowerFits(macros, rank, body, low, high);
    case Lambda(_, body) => LowerFits(macros, rank, body, low, high);
    case Call(_, args) => LowerAllFit(macros, rank, args, low, high);
    case Match(subject, cases, fallback) =>
      LowerFits(macros, rank, subject, low, high);
      LowerFits(macros, rank, fallback, low, high);
      forall i | 0 <= i < |cases| ensures Fits(macros, rank, cases[i].result, high) {
        LowerFits(macros, rank, cases[i].result, low, high);
      }
  }

  lemma {:induction false} LowerAllFit(macros: Macros, rank: map<string, nat>, es: seq<Expr>, low: nat, high: nat)
    requires AllFit(macros, rank, es, low) && low <= high
    ensures AllFit(macros, rank, es, high)
    decreases es, 0
  {
    forall i | 0 <= i < |es| ensures Fits(macros, rank, es[i], high) {
      LowerFits(macros, rank, es[i], low, high);
    }
  }

  lemma {:induction false} FittingCases(macros: Macros, rank: map<string, nat>, e: Expr, cases: seq<Case>, v: Form,
                                        locals: set<string>, actuals: Forms, nested: nat)
    requires Ranked(macros, rank) && Fits(macros, rank, e, nested) && HarmlessAll(macros, actuals)
    requires Harmless(macros, v)
    requires e.Match? && |cases| <= |e.cases| && cases == e.cases[|e.cases| - |cases|..]
    ensures HasHarmless(macros, CasesForm(macros, e, cases, v, locals, actuals, nested))
    decreases nested, 1, e, 0, |cases|
  {
    hide Ranked, FormMatch, Harmless;
    if cases == [] {
      FittingHasForm(macros, rank, e.fallback, locals, actuals, nested);
    } else {
      assert cases[0] == e.cases[|e.cases| - |cases|];
      match FormMatch(cases[0].pattern, v, map[])
      case Some(captures) =>
        CapturesHarmless(macros, cases[0].pattern, v, map[]);
        FittingHasForm(macros, rank, cases[0].result, locals, actuals + captures, nested);
      case None => FittingCases(macros, rank, e, cases[1..], v, locals, actuals, nested);
    }
  }

  /** A program without a match outside macros, whose macros call only macros of lower ranks below 128,
      and in which every macro called by its name gets its number of arguments, is expanded. */
  lemma AcyclicExpands(macros: Macros, rank: map<string, nat>, e: Expr, counter: nat)
    requires NoneMade(macros, counter) && Ranked(macros, rank) && NoMatch(e) && Fits(macros, rank, e, 128)
    ensures Expand(macros, e, counter).Some?
  {
    FittingProgram(macros, rank, e);
    ExpandExactly(macros, e, counter);
  }

  lemma {:induction false} FittingProgram(macros: Macros, rank: map<string, nat>, e: Expr)
    requires Ranked(macros, rank) && NoMatch(e) && Fits(macros, rank, e, 128)
    ensures HasHarmless(macros, ProgramForm(macros, e))
    decreases e, 1
  {
    hide Ranked;
    match e
    case Lit(_) =>
    case Var(_) =>
    case Node(_, kids) => FittingPrograms(macros, rank, kids);
    case Bind(_, _, init, body) =>
      FittingProgram(macros, rank, init);
      FittingProgram(macros, rank, body);
    case Lambda(_, body) => FittingProgram(macros, rank, body);
    case Call(f, args) =>
      FittingPrograms(macros, rank, args);
      FittingCall(macros, rank, f, ProgramForms(macros, args).value, 128);
  }

  lemma {:induction false} FittingPrograms(macros: Macros, rank: map<string, nat>, es: seq<Expr>)
    requires Ranked(macros, rank) && AllFit(macros, rank, es, 128) && forall i | 0 <= i < |es| :: NoMatch(es[i])
    ensures HaveHarmless(macros, ProgramForms(macros, es))
    decreases es, 0
  {
    hide Ranked, Fits, Harmless, NoMatch;
    if es != [] {
      FittingProgram(macros, rank, es[0]);
      FittingPrograms(macros, rank, es[1..]);
    }
  }

  /** A macro whose name the expander makes up while it expands another one: the call of a local variable
      becomes a call of that macro, here with too few arguments. */
  lemma MadeMacroCalled()
    ensures var yes := Lit(BoolLit(true));
            var macros := map["m" := Macro([], Bind(LetIn, "f", yes, Call("f", []))),
                              "__macro_f_1" := Macro(["x"], yes)];
            ProgramForm(macros, Call("m", [])).Some? && Expand(macros, Call("m", []), 0).None?
  {
    var yes := Lit(BoolLit(true));
    var m := Macro([], Bind(LetIn, "f", yes, Call("f", [])));
    var macros := map["m" := m, "__macro_f_1" := Macro(["x"], yes)];
    assert FreshName("f", 1) == "__macro_f_1";
    var renames := [map[]] + [map["f" := "__macro_f_1"]];
    LookupPushed([map[]], map["f" := "__macro_f_1"], "f");
    assert Clone(macros, Call("f", []), map[], renames, 1, 1) == None;
    assert Clone(macros, m.body, map[], [map[]], 0, 1) == None;
    assert FormOf(macros, m.body, {}, map[], 127) == Some(FOther);
    assert ExpandAll(macros, [], 0) == Some(ClonedAll([], 0)) && ProgramForms(macros, []) == Some([]);
    assert Zip<Expr>([], []) == map[] && Zip<Form>([], []) == map[];
  }
}
