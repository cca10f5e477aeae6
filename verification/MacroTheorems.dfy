/** What macro expansion promises, for whole program texts and for compile-time matches. */
module MacroTheorems {
  import opened Wrappers
  import opened Decimal
  import opened MacroSyntax
  import opened MacroExpansion
  import opened MacroHygiene

  // ---------- whole programs ----------

  /** The meaning of a program text with macro calls: what names refer to in the text as written, each
      call of a macro's name, even where the text binds that name, standing for the meaning of its macro. */
  ghost function Meant(macros: Macros, e: Expr, scope: Scope, depth: nat): Resolved
    decreases e, 1
  {
    match e
    case Lit(l) => RLit(l)
    case Var(x) => RVar(Refer(scope, x))
    case Node(kind, kids) => RNode(kind, MeantAll(macros, kids, scope, depth))
    case Bind(k, x, i, b) =>
      RBind(k, Meant(macros, i, scope, depth), Meant(macros, b, scope[x := depth], depth + 1))
    case Lambda(ps, b) => RLambda(|ps|, Meant(macros, b, BindAll(scope, ps, depth), depth + |ps|))
    case Call(f, args) =>
      if f in macros then
        IdealCall(macros, f, seq(|args|, i requires 0 <= i < |args| =>
                                  (d: nat) => Meant(macros, args[i], scope, d)), scope, depth, 0)
      else RCall(Refer(scope, f), MeantAll(macros, args, scope, depth))
    case Match(_, _, _) => RError
  }

  ghost function MeantAll(macros: Macros, es: seq<Expr>, scope: Scope, depth: nat): (rs: seq<Resolved>)
    ensures |rs| == |es| && forall i | 0 <= i < |es| :: rs[i] == Meant(macros, es[i], scope, depth)
    decreases es, 0
  {
    if es == [] then []
    else [Meant(macros, es[0], scope, depth)] + MeantAll(macros, es[1..], scope, depth)
  }

  /** What expansion needs of a program text: no name that is still to be generated, and no macro used
      as a variable. */
  ghost predicate Unclashing(macros: Macros, e: Expr, counter: nat) {
    && (forall x | x in AllNames(e) :: !Future(x, counter))
    && (forall x | x in VarNames(e) :: x !in macros)
  }

  ghost predicate AllUnclashing(macros: Macros, es: seq<Expr>, counter: nat) {
    && (forall x | x in AllNamesAll(es) :: !Future(x, counter))
    && (forall x | x in VarNamesAll(es) :: x !in macros)
  }

  lemma StillUnclashing(names: set<string>, counter: nat, later: nat)
    requires counter <= later && forall x | x in names :: !Future(x, counter)
    ensures forall x | x in names :: !Future(x, later)
  {
    forall x | x in names ensures !Future(x, later) {
      if Future(x, later) {
        FutureShrinks(x, counter, later);
      }
    }
  }

  /** Names that do not look generated never clash. */
  lemma SourceUnclashing(macros: Macros, e: Expr, counter: nat)
    requires Source(macros, e)
    ensures Unclashing(macros, e, counter)
  {
    hide Future;
    forall x | x in AllNames(e) ensures !Future(x, counter) {
      if Future(x, counter) {
        FutureIsReserved(x, counter);
      }
    }
  }

  lemma {:induction false} ExpandClean(macros: Macros, e: Expr, counter: nat)
    requires MacrosOk(macros) && Unclashing(macros, e, counter) && Expand(macros, e, counter).Some?
    ensures var r := Expand(macros, e, counter).value;
            counter <= r.counter && Clean(macros, r.expr, r.counter)
    decreases e, 1
  {
    hide FreshName, MacrosOk;
    var r := Expand(macros, e, counter).value;
    match e
    case Lit(_) =>
    case Var(_) =>
    case Node(_, kids) =>
      ExpandAllClean(macros, kids, counter);
      CleanNode(macros, ExpandAll(macros, kids, counter).value.exprs, r.counter);
    case Bind(_, x, init, body) =>
      ExpandClean(macros, init, counter);
      var r1 := Expand(macros, init, counter).value;
      StillUnclashing(AllNames(body), counter, r1.counter);
      ExpandClean(macros, body, r1.counter);
      CleanLater(macros, r1.expr, r1.counter, r.counter);
    case Lambda(_, body) =>
      ExpandClean(macros, body, counter);
    case Call(f, args) =>
      ExpandAllClean(macros, args, counter);
      var a := ExpandAll(macros, args, counter).value;
      StillUnclashing({f}, counter, a.counter);
      CallNamedClean(macros, f, a.exprs, a.counter, 0);
    case Match(_, _, _) =>
  }

  lemma {:induction false} ExpandAllClean(macros: Macros, es: seq<Expr>, counter: nat)
    requires MacrosOk(macros) && AllUnclashing(macros, es, counter) && ExpandAll(macros, es, counter).Some?
    ensures var r := ExpandAll(macros, es, counter).value;
            counter <= r.counter && CleanAll(macros, r.exprs, r.counter)
    decreases es, 0
  {
    hide FreshName, MacrosOk;
    if es != [] {
      ExpandClean(macros, es[0], counter);
      var r1 := Expand(macros, es[0], counter).value;
      StillUnclashing(AllNamesAll(es[1..]), counter, r1.counter);
      ExpandAllClean(macros, es[1..], r1.counter);
      CleanLater(macros, r1.expr, r1.counter, ExpandAll(macros, es, counter).value.counter);
    }
  }

  /** Hygiene: a program text without names that are still to be generated expands to a tree in which every
      name refers to what it is meant to refer to. No binder of a macro captures a name of the program or
      of another macro, and the names of the macro's own binders refer to those binders. The free names of
      macro bodies are left to the site of the call. */
  lemma {:induction false} ExpansionIsHygienic(macros: Macros, e: Expr, counter: nat, scope: Scope, depth: nat)
    requires MacrosOk(macros) && Unclashing(macros, e, counter) && Expand(macros, e, counter).Some?
    ensures Resolve(Expand(macros, e, counter).value.expr, scope, depth) == Meant(macros, e, scope, depth)
    decreases e, 1
  {
    hide FreshName, MacrosOk, Clean;
    match e
    case Lit(_) =>
    case Var(_) =>
    case Node(_, kids) =>
      AllHygienic(macros, kids, counter, scope, depth);
    case Bind(_, x, init, body) =>
      ExpansionIsHygienic(macros, init, counter, scope, depth);
      ExpandClean(macros, init, counter);
      StillUnclashing(AllNames(body), counter, Expand(macros, init, counter).value.counter);
      ExpansionIsHygienic(macros, body, Expand(macros, init, counter).value.counter, scope[x := depth], depth + 1);
    case Lambda(ps, body) =>
      ExpansionIsHygienic(macros, body, counter, BindAll(scope, ps, depth), depth + |ps|);
    case Call(f, args) =>
      CallHygienic(macros, e, counter, scope, depth);
    case Match(_, _, _) =>
  }

  ghost function ArgMeanings(macros: Macros, args: seq<Expr>, scope: Scope): seq<Meaning> {
    seq(|args|, i requires 0 <= i < |args| => (d: nat) => Meant(macros, args[i], scope, d))
  }

  lemma CallUnfolds(macros: Macros, e: Expr, counter: nat, scope: Scope, depth: nat)
    requires e.Call? && Expand(macros, e, counter).Some?
    ensures ExpandAll(macros, e.args, counter).Some?
    ensures var a := ExpandAll(macros, e.args, counter).value;
            if e.callee in macros then
              && Expand(macros, e, counter) == ExpandMacroCall(macros, e.callee, a.exprs, a.counter, 0)
              && Meant(macros, e, scope, depth) ==
                 IdealCall(macros, e.callee, ArgMeanings(macros, e.args, scope), scope, depth, 0)
            else
              && Expand(macros, e, counter) == Some(Cloned(Call(e.callee, a.exprs), a.counter))
              && Meant(macros, e, scope, depth) ==
                 RCall(Refer(scope, e.callee), MeantAll(macros, e.args, scope, depth))
  {
    hide ExpandMacroCall, IdealCall;
    var a := ExpandAll(macros, e.args, counter);
    if a.Some? && e.callee in macros {
      assert CallNamed(macros, e.callee, a.value.exprs, a.value.counter, 0) ==
             ExpandMacroCall(macros, e.callee, a.value.exprs, a.value.counter, 0);
    }
  }

  lemma {:induction false} CallHygienic(macros: Macros, e: Expr, counter: nat, scope: Scope, depth: nat)
    requires e.Call?
    requires MacrosOk(macros) && Unclashing(macros, e, counter) && Expand(macros, e, counter).Some?
    ensures Resolve(Expand(macros, e, counter).value.expr, scope, depth) == Meant(macros, e, scope, depth)
    decreases e, 0
  {
    hide FreshName, MacrosOk, Clean, ExpandMacroCall, IdealCall, Expand, Meant, ExpandAll, MeantAll, FreeNames;
    CallUnfolds(macros, e, counter, scope, depth);
    var args := e.args;
    var a := ExpandAll(macros, args, counter).value;
    AllHygienic(macros, args, counter, scope, depth);
    if e.callee in macros {
      var meanings := ArgMeanings(macros, args, scope);
      forall i, d: nat | 0 <= i < |args| ensures Resolve(a.exprs[i], scope, d) == meanings[i](d) {
        AllHygienic(macros, args, counter, scope, d);
        assert ResolveAll(a.exprs, scope, d)[i] == MeantAll(macros, args, scope, d)[i];
      }
      ExpandAllClean(macros, args, counter);
      ExpansionMeans(macros, e.callee, a.exprs, meanings, scope, scope, a.counter, depth, 0);
    }
  }

  lemma {:induction false} AllHygienic(macros: Macros, es: seq<Expr>, counter: nat, scope: Scope, depth: nat)
    requires MacrosOk(macros) && AllUnclashing(macros, es, counter) && ExpandAll(macros, es, counter).Some?
    ensures ResolveAll(ExpandAll(macros, es, counter).value.exprs, scope, depth) == MeantAll(macros, es, scope, depth)
    decreases es, 0
  {
    hide FreshName, MacrosOk, Clean;
    if es != [] {
      ExpansionIsHygienic(macros, es[0], counter, scope, depth);
      ExpandClean(macros, es[0], counter);
      StillUnclashing(AllNamesAll(es[1..]), counter, Expand(macros, es[0], counter).value.counter);
      AllHygienic(macros, es[1..], Expand(macros, es[0], counter).value.counter, scope, depth);
    }
  }
}
