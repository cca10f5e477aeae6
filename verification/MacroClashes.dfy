/** Which names of a program text clash with macro expansion: exactly the names that expansion may
    still generate, and macro names used as variables. */
module MacroClashes {
  import opened Wrappers
  import opened MacroSyntax
  import opened MacroExpansion
  import opened MacroHygiene
  import opened MacroTheorems
  import opened MacroResults

  // ---------- generated names ----------

  /** No name of the text but `x` can clash. */
  ghost predicate ClashesAtMost(macros: Macros, e: Expr, x: string, counter: nat) {
    && (forall y | y in AllNames(e) && y != x :: !Future(y, counter))
    && (forall y | y in VarNames(e) :: y !in macros)
  }

  ghost predicate Hygienic(macros: Macros, e: Expr, counter: nat, scope: Scope, depth: nat) {
    Expand(macros, e, counter).Some? ==>
      Resolve(Expand(macros, e, counter).value.expr, scope, depth) == Meant(macros, e, scope, depth)
  }

  /** Programs may use `x`, whatever their macros and wherever they stand. */
  ghost predicate SafeName(x: string, counter: nat) {
    forall macros: Macros, e: Expr, scope: Scope, depth: nat | MacrosOk(macros) && ClashesAtMost(macros, e, x, counter) ::
      Hygienic(macros, e, counter, scope, depth)
  }

  /** A name is safe exactly when the expander can no longer generate it. */
  lemma SafeExactly(x: string, counter: nat)
    ensures SafeName(x, counter) <==> !Future(x, counter)
  {
    if Future(x, counter) {
      var b: string, k: nat :| x == FreshName(b, k) && k > counter && !Reserved(b);
      FreshCaptured(b, k, counter);
      var macros, e := CapturingMacros(b, k - counter), CapturedProgram(b, k);
      assert !Hygienic(macros, e, counter, map[], 0);
    } else {
      forall macros: Macros, e: Expr, scope: Scope, depth: nat | MacrosOk(macros) && ClashesAtMost(macros, e, x, counter)
        ensures Hygienic(macros, e, counter, scope, depth)
      {
        if Expand(macros, e, counter).Some? {
          assert Unclashing(macros, e, counter);
          ExpansionIsHygienic(macros, e, counter, scope, depth);
        }
      }
    }
  }

  const ONE := Lit(NumberLit("1", "Int"))
  const FIVE := Lit(NumberLit("5", "Int"))

  /** `let b = 1 in ... let b = 1 in e`, with `n` binders. */
  function Nested(b: string, n: nat, e: Expr): Expr {
    if n == 0 then e else Bind(LetIn, b, ONE, Nested(b, n - 1, e))
  }

  /** A name other than `b`. */
  function Parameter(b: string): string {
    if b == "a" then "p" else "a"
  }

  /** `m(a) = let b = 1 in ... in a` */
  function CapturingMacros(b: string, n: nat): Macros {
    map["m" := Macro([Parameter(b)], Nested(b, n, Var(Parameter(b))))]
  }

  /** `let g = 5 in m(g)`, where `g` is the fresh name number `k` for `b` */
  function CapturedProgram(b: string, k: nat): Expr {
    Bind(LetIn, FreshName(b, k), FIVE, Call("m", [Var(FreshName(b, k))]))
  }

  /** Every name that can still be generated is captured in some program in which nothing else clashes. */
  lemma FreshCaptured(b: string, k: nat, counter: nat)
    requires !Reserved(b) && k > counter
    ensures var macros, e := CapturingMacros(b, k - counter), CapturedProgram(b, k);
            && MacrosOk(macros) && ClashesAtMost(macros, e, FreshName(b, k), counter)
            && Expand(macros, e, counter).Some?
            && !Hygienic(macros, e, counter, map[], 0)
  {
    hide FreshName, Resolve, ResolveAll, Meant, MeantAll, Expand, ExpandAll, Ideal, IdealCall;
    var g, n, a := FreshName(b, k), k - counter, Parameter(b);
    var macros, e := CapturingMacros(b, n), CapturedProgram(b, k);
    CapturingMacrosOk(b, n);
    CapturedNames(b, k, counter);
    CallExpands(b, k, counter);
    CallMeaning(b, k, counter);
    var scope: Scope := map[][g := 0];
    var call := Call("m", [Var(g)]);
    var cloned := Renamed(b, n, counter, Var(g));
    BindExpands(macros, g, call, counter);
    BindMeaning(macros, g, call, cloned);
    RenamedMeaning(b, n, counter, scope, 1);
    assert RVar(Binder(n)) != RVar(Binder(0));
  }

  lemma BindExpands(macros: Macros, g: string, call: Expr, counter: nat)
    requires Expand(macros, call, counter).Some?
    ensures var c := Expand(macros, call, counter).value;
            Expand(macros, Bind(LetIn, g, FIVE, call), counter) == Some(Cloned(Bind(LetIn, g, FIVE, c.expr), c.counter))
  {
    assert Expand(macros, FIVE, counter) == Some(Cloned(FIVE, counter));
  }

  lemma BindMeaning(macros: Macros, g: string, call: Expr, cloned: Expr)
    ensures Resolve(Bind(LetIn, g, FIVE, cloned), map[], 0) == Meant(macros, Bind(LetIn, g, FIVE, call), map[], 0) <==>
            Resolve(cloned, map[][g := 0], 1) == Meant(macros, call, map[][g := 0], 1)
  {
  }

  // ---------- the capturing macro ----------

  lemma {:induction false} NestedNames(b: string, n: nat, a: string)
    ensures AllNames(Nested(b, n, Var(a))) <= {a, b} && VarNames(Nested(b, n, Var(a))) == {a}
    decreases n
  {
    if n > 0 {
      NestedNames(b, n - 1, a);
    }
  }

  lemma CapturingMacrosOk(b: string, n: nat)
    requires !Reserved(b)
    ensures MacrosOk(CapturingMacros(b, n))
  {
    var a := Parameter(b);
    NestedNames(b, n, a);
    assert a[0] != "m"[0] && a[0] != "__macro_"[0] && "m"[0] != "__macro_"[0];
  }

  lemma NamesOfOne(x: string)
    ensures AllNamesAll([Var(x)]) == {x} && VarNamesAll([Var(x)]) == {x}
  {
    assert [Var(x)][1..] == [];
    assert VarNames(Var(x)) == {x} && AllNames(Var(x)) == {x};
  }

  lemma NamesOfNone()
    ensures AllNamesAll([]) == {} && VarNamesAll([]) == {}
    ensures AllNames(ONE) == {} && VarNames(ONE) == {} && AllNames(FIVE) == {} && VarNames(FIVE) == {}
  {
  }

  /** The names of `let x = 5 in f(args)` */
  lemma NamesOfCall(x: string, f: string, args: seq<Expr>)
    ensures var e := Bind(LetIn, x, FIVE, Call(f, args));
            AllNames(e) == {x, f} + AllNamesAll(args) && VarNames(e) == VarNamesAll(args)
  {
    var call := Call(f, args);
    assert AllNames(call) == {f} + AllNamesAll(args) && VarNames(call) == VarNamesAll(args);
    NamesOfNone();
  }

  lemma CapturedNames(b: string, k: nat, counter: nat)
    ensures ClashesAtMost(CapturingMacros(b, k - counter), CapturedProgram(b, k), FreshName(b, k), counter)
    requires k > counter
  {
    hide FreshName, Nested;
    var g := FreshName(b, k);
    var e := CapturedProgram(b, k);
    NamesOfOne(g);
    NamesOfCall(g, "m", [Var(g)]);
    FreshIsReserved(b, k);
    assert "m"[0] != "__macro_"[0];
    if Future("m", counter) {
      FutureIsReserved("m", counter);
    }
  }

  /** The clone of the nested binders. */
  function Renamed(b: string, n: nat, counter: nat, e: Expr): Expr
    decreases n
  {
    if n == 0 then e else Bind(LetIn, FreshName(b, counter + 1), ONE, Renamed(b, n - 1, counter + 1, e))
  }

  lemma {:induction false} NestedClones(macros: Macros, b: string, n: nat, a: string, actual: Expr, renames: Renames,
                                        counter: nat)
    requires a != b && LookupLocal(renames, a) == None
    ensures Clone(macros, Nested(b, n, Var(a)), map[a := actual], renames, counter, 1) ==
            Some(Cloned(Renamed(b, n, counter, actual), counter + n))
    decreases n
  {
    hide FreshName;
    if n > 0 {
      var name := FreshName(b, counter + 1);
      LookupPushed(renames, map[b := name], a);
      NestedClones(macros, b, n - 1, a, actual, renames + [map[b := name]], counter + 1);
      assert Clone(macros, ONE, map[a := actual], renames, counter, 1) == Some(Cloned(ONE, counter));
    }
  }

  lemma ZipOne<T>(name: string, value: T)
    ensures Zip([name], [value]) == map[name := value]
  {
    assert [name][..0] == [] && [value][..0] == [];
    assert Zip<T>([], []) == map[];
  }

  lemma CallExpands(b: string, k: nat, counter: nat)
    requires k > counter
    ensures var g := FreshName(b, k);
            Expand(CapturingMacros(b, k - counter), Call("m", [Var(g)]), counter) ==
            Some(Cloned(Renamed(b, k - counter, counter, Var(g)), k))
  {
    hide FreshName, Clone, Nested, Renamed, ExpandAll;
    var g, n, a := FreshName(b, k), k - counter, Parameter(b);
    var macros := CapturingMacros(b, n);
    ExpandAllIdle(macros, [Var(g)], counter);
    ZipOne(a, Var(g));
    assert LookupLocal([map[]], a) == None;
    NestedClones(macros, b, n, a, Var(g), [map[]], counter);
    assert ExpandMacroCall(macros, "m", [Var(g)], counter, 0) == Some(Cloned(Renamed(b, n, counter, Var(g)), k));
    assert CallNamed(macros, "m", [Var(g)], counter, 0) == Some(Cloned(Renamed(b, n, counter, Var(g)), k));
  }

  /** What stands under `n` binders. */
  function Under(r: Resolved, n: nat): Resolved {
    if n == 0 || !r.RBind? then r else Under(r.body, n - 1)
  }

  /** In the clone the innermost binder captures the argument. */
  lemma {:induction false} RenamedMeaning(b: string, n: nat, counter: nat, scope: Scope, depth: nat)
    requires n > 0
    ensures Under(Resolve(Renamed(b, n, counter, Var(FreshName(b, counter + n))), scope, depth), n) ==
            RVar(Binder(depth + n - 1))
    decreases n
  {
    hide FreshName;
    var g := FreshName(b, counter + n);
    var name := FreshName(b, counter + 1);
    var rest := Renamed(b, n - 1, counter + 1, Var(g));
    assert Resolve(Renamed(b, n, counter, Var(g)), scope, depth).body == Resolve(rest, scope[name := depth], depth + 1);
    if n > 1 {
      RenamedMeaning(b, n - 1, counter + 1, scope[name := depth], depth + 1);
    } else {
      assert rest == Var(g) && name == g;
    }
  }

  /** In the meaning of the macro body the argument stands under the binders as it was. */
  lemma {:induction false} NestedMeaning(macros: Macros, b: string, n: nat, a: string, locals: Scope,
                                         params: map<string, Meaning>, site: Scope, depth: nat)
    requires a != b && a !in locals && a in params
    ensures Under(Ideal(macros, Nested(b, n, Var(a)), locals, params, site, depth, 1), n) ==
            Under(params[a](depth + n), 0)
    decreases n
  {
    if n > 0 {
      NestedMeaning(macros, b, n - 1, a, locals[b := depth], params, site, depth + 1);
    }
  }

  lemma CallMeaning(b: string, k: nat, counter: nat)
    requires k > counter
    ensures var g := FreshName(b, k);
            Under(Meant(CapturingMacros(b, k - counter), Call("m", [Var(g)]), map[][g := 0], 1), k - counter) ==
            RVar(Binder(0))
  {
    hide FreshName, Nested, Ideal;
    var g, n, a := FreshName(b, k), k - counter, Parameter(b);
    var macros := CapturingMacros(b, n);
    var scope: Scope := map[][g := 0];
    var call := Call("m", [Var(g)]);
    var meanings := ArgMeanings(macros, call.args, scope);
    CallExpands(b, k, counter);
    CallUnfolds(macros, call, counter, scope, 1);
    assert Meant(macros, Var(g), scope, 1 + n) == RVar(Binder(0));
    assert meanings == [meanings[0]] && meanings[0](1 + n) == RVar(Binder(0));
    ZipOne(a, meanings[0]);
    NestedMeaning(macros, b, n, a, map[], map[a := meanings[0]], scope, 1);
  }

  /** The smallest instance: with `m(a) = let x = 1 in a`, the call `let __macro_x_1 = 5 in
      m(__macro_x_1)` expands to a tree in which the argument is captured by the macro's binder. */
  lemma ReservedNameCaptured()
    ensures var g := FreshName("x", 1);
            var macros := map["m" := Macro(["a"], Bind(LetIn, "x", ONE, Var("a")))];
            var program := Bind(LetIn, g, FIVE, Call("m", [Var(g)]));
            && MacrosOk(macros) && Future(g, 0)
            && Expand(macros, program, 0).Some?
            && Resolve(Expand(macros, program, 0).value.expr, map[], 0) != Meant(macros, program, map[], 0)
  {
    hide FreshName, Expand, ExpandAll, Resolve, Meant, MacrosOk, ClashesAtMost;
    assert "x"[0] != "a"[0] && "x"[0] != "__macro_"[0];
    FreshCaptured("x", 1, 0);
    assert Nested("x", 1, Var("a")) == Bind(LetIn, "x", ONE, Nested("x", 0, Var("a")));
    assert CapturingMacros("x", 1) == map["m" := Macro(["a"], Bind(LetIn, "x", ONE, Var("a")))];
  }

  // ---------- macro names as variables ----------

  /** Nothing in the text can clash but that it may use `x` as a variable. */
  ghost predicate OnlyVariable(macros: Macros, e: Expr, x: string, counter: nat) {
    && (forall y | y in AllNames(e) :: !Future(y, counter))
    && (forall y | y in VarNames(e) && y != x :: y !in macros)
  }

  /** Programs may use `x` as a variable, with any macros of which it is or is not one. */
  ghost predicate SafeVariable(x: string, isMacro: bool, counter: nat) {
    forall macros: Macros, e: Expr, scope: Scope, depth: nat |
      MacrosOk(macros) && (x in macros <==> isMacro) && OnlyVariable(macros, e, x, counter) ::
      Hygienic(macros, e, counter, scope, depth)
  }

  /** A name that source texts may use is safe as a variable exactly when it is no macro's. */
  lemma SafeVariableExactly(x: string, isMacro: bool, counter: nat)
    requires !Reserved(x)
    ensures SafeVariable(x, isMacro, counter) <==> !isMacro
  {
    if isMacro {
      MacroVariableCalled(x, counter);
      assert !Hygienic(CallingMacros(x), CallingProgram(x), counter, map[], 0);
    } else {
      forall macros: Macros, e: Expr, scope: Scope, depth: nat |
        MacrosOk(macros) && (x in macros <==> isMacro) && OnlyVariable(macros, e, x, counter)
        ensures Hygienic(macros, e, counter, scope, depth)
      {
        if Expand(macros, e, counter).Some? {
          assert Unclashing(macros, e, counter);
          ExpansionIsHygienic(macros, e, counter, scope, depth);
        }
      }
    }
  }

  /** A name other than `x`. */
  function Caller(x: string): string {
    if x == "f" then "g" else "f"
  }

  /** `x() = 1` and `f(p) = p()` */
  function CallingMacros(x: string): Macros {
    map[x := Macro([], ONE), Caller(x) := Macro(["p"], Call("p", []))]
  }

  /** `let x = 5 in f(x)` */
  function CallingProgram(x: string): Expr {
    Bind(LetIn, x, FIVE, Call(Caller(x), [Var(x)]))
  }

  /** The variable is passed to a macro that calls it: the expansion calls the macro of that name. */
  lemma MacroVariableCalled(x: string, counter: nat)
    requires !Reserved(x)
    ensures var macros, e := CallingMacros(x), CallingProgram(x);
            && MacrosOk(macros) && x in macros && OnlyVariable(macros, e, x, counter)
            && Expand(macros, e, counter).Some?
            && !Hygienic(macros, e, counter, map[], 0)
  {
    hide Resolve, ResolveAll, Meant, MeantAll, Expand, ExpandAll, Ideal, IdealCall;
    var macros, e := CallingMacros(x), CallingProgram(x);
    var scope: Scope := map[][x := 0];
    var call := Call(Caller(x), [Var(x)]);
    CallingOk(x, counter);
    CallerExpands(x, counter);
    CallerMeaning(x, counter);
    BindExpands(macros, x, call, counter);
    BindMeaning(macros, x, call, ONE);
    OneMeans(scope);
  }

  lemma OneMeans(scope: Scope)
    ensures Resolve(ONE, scope, 1) == RLit(ONE.literal)
  {
  }

  lemma CallingOk(x: string, counter: nat)
    requires !Reserved(x)
    ensures MacrosOk(CallingMacros(x)) && OnlyVariable(CallingMacros(x), CallingProgram(x), x, counter)
  {
    var f, e := Caller(x), CallingProgram(x);
    assert f[0] != "__macro_"[0] && "p"[0] != "__macro_"[0];
    NamesOfNone();
    NamesOfOne(x);
    NamesOfCall(x, f, [Var(x)]);
    var body := Call("p", []);
    assert AllNames(body) == {"p"} + AllNamesAll([]) && VarNames(body) == VarNamesAll([]);
    forall y | y in AllNames(e) ensures !Future(y, counter) {
      if Future(y, counter) {
        FutureIsReserved(y, counter);
      }
    }
  }

  lemma CallerExpands(x: string, counter: nat)
    ensures Expand(CallingMacros(x), Call(Caller(x), [Var(x)]), counter) == Some(Cloned(ONE, counter))
  {
    var macros, f := CallingMacros(x), Caller(x);
    ExpandAllIdle(macros, [Var(x)], counter);
    ZipOne("p", Var(x));
    var bindings: Bindings := map["p" := Var(x)];
    assert LookupLocal([map[]], "p") == None;
    assert ExpandMacroCall(macros, x, [], counter, 1) == Some(Cloned(ONE, counter));
    assert CloneCall(macros, "p", [], bindings, [map[]], counter, 1) == CallNamed(macros, x, [], counter, 1);
    assert Clone(macros, Call("p", []), bindings, [map[]], counter, 1) == Some(Cloned(ONE, counter));
    assert ExpandMacroCall(macros, f, [Var(x)], counter, 0) == Some(Cloned(ONE, counter));
    assert CallNamed(macros, f, [Var(x)], counter, 0) == Some(Cloned(ONE, counter));
  }

  lemma CallerMeaning(x: string, counter: nat)
    ensures Meant(CallingMacros(x), Call(Caller(x), [Var(x)]), map[][x := 0], 1).RCall?
  {
    hide ExpandMacroCall;
    var macros, f := CallingMacros(x), Caller(x);
    var scope: Scope := map[][x := 0];
    var call := Call(f, [Var(x)]);
    var meanings := ArgMeanings(macros, call.args, scope);
    CallerExpands(x, counter);
    CallUnfolds(macros, call, counter, scope, 1);
    assert meanings == [meanings[0]] && meanings[0](1) == RVar(Binder(0));
    ZipOne("p", meanings[0]);
    assert Ideal(macros, Call("p", []), map[], map["p" := meanings[0]], scope, 1, 1).RCall?;
  }
}
