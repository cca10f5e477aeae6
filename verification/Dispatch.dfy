/** Virtual dispatch on registered classes: the nearest class of the inheritance chain that has the
    method. */
module Dispatch {
  import opened Chains
  import opened Wrappers

  /** Class and method ids are addresses of data symbols; code is named by its symbol. */
  type Parents = map<nat, nat>
  type Methods = map<(nat, nat), Option<string>>

  /** The code a class has for a method; a null pointer counts as none. */
  function Finds(methods: Methods, c: nat, m: nat): Option<string> {
    if (c, m) in methods then methods[(c, m)] else None
  }

  /** The search for `m` from `c` is over at the `n`-th ancestor. */
  ghost predicate Stops(parents: Parents, methods: Methods, c: nat, m: nat, n: nat) {
    match AncestorAt(parents, c, n)
    case None => true
    case Some(a) => Finds(methods, a, m).Some?
  }

  /** `code` is what the nearest ancestor with the method has, or null if no ancestor has it. */
  ghost predicate NearestCode(parents: Parents, methods: Methods, c: nat, m: nat, code: Option<string>) {
    match code
    case Some(_) =>
      exists k: nat ::
        && AncestorAt(parents, c, k).Some?
        && Finds(methods, AncestorAt(parents, c, k).value, m) == code
        && forall j: nat | j < k :: !Stops(parents, methods, c, m, j)
    case None =>
      forall j: nat | AncestorAt(parents, c, j).Some? ::
        Finds(methods, AncestorAt(parents, c, j).value, m).None?
  }

  /** Without cycles every search ends, within as many steps as there are registered classes. */
  lemma AcyclicStops(parents: Parents, methods: Methods, c: nat, m: nat)
    requires Acyclic(parents)
    ensures Stops(parents, methods, c, m, |parents| + 1)
  {
    AcyclicEnds(parents, c);
  }

  /** The chain runs into a cycle, after a tail that may be empty, and no class met on the way has the
      method. */
  ghost predicate RunsIntoCycle(parents: Parents, methods: Methods, c: nat, m: nat, tail: nat, period: nat) {
    && period > 0 && AncestorAt(parents, c, tail).Some?
    && AncestorAt(parents, c, tail + period) == AncestorAt(parents, c, tail)
    && forall j: nat | j < tail + period :: !Stops(parents, methods, c, m, j)
  }

  /** A search that runs into a cycle on which no class has the method never ends. */
  lemma CycleNeverStops(parents: Parents, methods: Methods, c: nat, m: nat, tail: nat, period: nat, n: nat)
    requires RunsIntoCycle(parents, methods, c, m, tail, period)
    ensures !Stops(parents, methods, c, m, n)
  {
    var i := ChainRepeats(parents, c, tail, tail + period, n);
    assert !Stops(parents, methods, c, m, i);
  }

  ghost predicate SearchEnds(parents: Parents, methods: Methods, c: nat, m: nat) {
    exists n: nat :: Stops(parents, methods, c, m, n)
  }

  /** A search ends within as many steps as there are registered classes, or it runs into a cycle and
      never ends. */
  lemma SearchEndsExactly(parents: Parents, methods: Methods, c: nat, m: nat)
    ensures SearchEnds(parents, methods, c, m) <==>
            exists n: nat :: n <= |parents| + 1 && Stops(parents, methods, c, m, n)
    ensures SearchEnds(parents, methods, c, m) <==>
            !exists tail: nat, period: nat :: RunsIntoCycle(parents, methods, c, m, tail, period)
  {
    if tail: nat, period: nat :| RunsIntoCycle(parents, methods, c, m, tail, period) {
      forall n: nat ensures !Stops(parents, methods, c, m, n) {
        CycleNeverStops(parents, methods, c, m, tail, period, n);
      }
    }
    if !exists n: nat :: n <= |parents| + 1 && Stops(parents, methods, c, m, n) {
      assert !Stops(parents, methods, c, m, |parents| + 1);
      var i, j := LongChainRepeats(parents, c);
      assert RunsIntoCycle(parents, methods, c, m, i, j - i);
      forall n: nat ensures !Stops(parents, methods, c, m, n) {
        CycleNeverStops(parents, methods, c, m, i, j - i, n);
      }
    }
  }

  lemma {:induction false} NearestUnique(parents: Parents, methods: Methods, c: nat, m: nat, a: Option<string>,
                                         b: Option<string>)
    requires NearestCode(parents, methods, c, m, a) && NearestCode(parents, methods, c, m, b)
    ensures a == b
  {
    if a.Some? && b.Some? {
      var k: nat :| AncestorAt(parents, c, k).Some? && Finds(methods, AncestorAt(parents, c, k).value, m) == a
                    && forall j: nat | j < k :: !Stops(parents, methods, c, m, j);
      var l: nat :| AncestorAt(parents, c, l).Some? && Finds(methods, AncestorAt(parents, c, l).value, m) == b
                    && forall j: nat | j < l :: !Stops(parents, methods, c, m, j);
      assert Stops(parents, methods, c, m, k) && Stops(parents, methods, c, m, l);
      assert !(k < l) && !(l < k);
    }
  }

  // ---------- what a program registers ----------

  datatype TypeDecl = TypeDecl(name: string, parent: string, methods: seq<string>)

  datatype Registration =
    | Inherits(child: nat, parent: nat)
    | Defines(class_: nat, method_: nat, code: Option<string>)

  /** The symbol of a compiled method. */
  function Lowered(owner: string, m: string): string {
    "__" + owner + "_" + m
  }

  /** The longer owner and the shorter method name share a middle part between two underscores. */
  ghost predicate Shares(a: string, m: string, b: string, n: string) {
    exists x :: b == a + "_" + x && m == x + "_" + n
  }

  /** Two methods have the same symbol exactly when they are the same, or one owner is the other followed
      by an underscore and by what the other method has before an underscore. */
  lemma SameSymbolExactly(a: string, m: string, b: string, n: string)
    ensures Lowered(a, m) == Lowered(b, n) <==> (a == b && m == n) || Shares(a, m, b, n) || Shares(b, n, a, m)
  {
    if Lowered(a, m) == Lowered(b, n) {
      if |a| <= |b| {
        SameSymbolShares(a, m, b, n);
      } else {
        SameSymbolShares(b, n, a, m);
      }
    }
    if Shares(a, m, b, n) {
      SharesSymbol(a, m, b, n);
    }
    if Shares(b, n, a, m) {
      SharesSymbol(b, n, a, m);
    }
  }

  lemma SharesSymbol(a: string, m: string, b: string, n: string)
    requires Shares(a, m, b, n)
    ensures Lowered(a, m) == Lowered(b, n)
  {
    var x :| b == a + "_" + x && m == x + "_" + n;
    assert "__" + a + "_" + (x + "_" + n) == "__" + (a + "_" + x) + "_" + n;
  }

  lemma SameSymbolShares(a: string, m: string, b: string, n: string)
    requires Lowered(a, m) == Lowered(b, n) && |a| <= |b|
    ensures (a == b && m == n) || Shares(a, m, b, n)
  {
    var s := Lowered(a, m);
    assert s[2..][..|a|] == a && s[2..][..|b|] == b && s[2 + |a|] == '_' && s[2 + |b|] == '_';
    assert a == b[..|a|];
    assert s[3 + |a|..] == m && s[3 + |b|..] == n;
    if |a| < |b| {
      assert b[|a|] == '_';
      var x := b[|a| + 1..];
      assert b == a + "_" + x;
      assert m == x + "_" + n;
    }
  }

  function EmitMethods(owner: string, methods: seq<string>, address: string -> nat): seq<Registration> {
    if methods == [] then []
    else [Defines(address(owner), address(methods[0]), Some(Lowered(owner, methods[0])))] +
         EmitMethods(owner, methods[1..], address)
  }

  /** The calls at the start of the generated main function. */
  function Emit(decls: seq<TypeDecl>, address: string -> nat): seq<Registration> {
    if decls == [] then []
    else [Inherits(address(decls[0].name), address(decls[0].parent))] +
         EmitMethods(decls[0].name, decls[0].methods, address) + Emit(decls[1..], address)
  }

  function ParentsAfter(parents: Parents, calls: seq<Registration>): Parents
    decreases calls
  {
    if calls == [] then parents
    else ParentsAfter(match calls[0]
                      case Inherits(c, p) => parents[c := p]
                      case Defines(_, _, _) => parents, calls[1..])
  }

  function MethodsAfter(methods: Methods, calls: seq<Registration>): Methods
    decreases calls
  {
    if calls == [] then methods
    else MethodsAfter(match calls[0]
                      case Inherits(_, _) => methods
                      case Defines(c, m, code) => methods[(c, m) := code], calls[1..])
  }

  ghost predicate DistinctTypes(decls: seq<TypeDecl>) {
    forall i, j | 0 <= i < j < |decls| :: decls[i].name != decls[j].name
  }

  /** Different symbols have different addresses. */
  ghost predicate Injective(address: string -> nat) {
    forall a, b | address(a) == address(b) :: a == b
  }

  function Declared(decls: seq<TypeDecl>, name: string): Option<TypeDecl> {
    if decls == [] then None
    else if decls[0].name == name then Some(decls[0])
    else Declared(decls[1..], name)
  }

  predicate Declares(decls: seq<TypeDecl>, name: string, m: string) {
    Declared(decls, name).Some? && m in Declared(decls, name).value.methods
  }

  /** The `k`-th declared ancestor of a type. */
  function StaticAncestor(decls: seq<TypeDecl>, name: string, k: nat): Option<string> {
    if k == 0 then Some(name)
    else
      var below :- StaticAncestor(decls, name, k - 1);
      var decl :- Declared(decls, below);
      Some(decl.parent)
  }

  lemma {:induction false} ParentsAppend(parents: Parents, a: seq<Registration>, b: seq<Registration>)
    ensures ParentsAfter(parents, a + b) == ParentsAfter(ParentsAfter(parents, a), b)
    decreases a
  {
    if a == [] {
      assert a + b == b;
    } else {
      assert (a + b)[1..] == a[1..] + b;
      ParentsAppend(match a[0] case Inherits(c, p) => parents[c := p] case Defines(_, _, _) => parents, a[1..], b);
    }
  }

  lemma {:induction false} MethodsAppend(methods: Methods, a: seq<Registration>, b: seq<Registration>)
    ensures MethodsAfter(methods, a + b) == MethodsAfter(MethodsAfter(methods, a), b)
    decreases a
  {
    if a == [] {
      assert a + b == b;
    } else {
      assert (a + b)[1..] == a[1..] + b;
      MethodsAppend(match a[0] case Inherits(_, _) => methods case Defines(c, m, code) => methods[(c, m) := code],
                    a[1..], b);
    }
  }

  lemma {:induction false} EmittedMethods(owner: string, ms: seq<string>, address: string -> nat, parents: Parents,
                                          methods: Methods, c: string, m: string)
    requires Injective(address)
    ensures ParentsAfter(parents, EmitMethods(owner, ms, address)) == parents
    ensures Finds(MethodsAfter(methods, EmitMethods(owner, ms, address)), address(c), address(m)) ==
            if c == owner && m in ms then Some(Lowered(c, m)) else Finds(methods, address(c), address(m))
    decreases ms
  {
    if ms != [] {
      var code := Some(Lowered(owner, ms[0]));
      EmittedMethods(owner, ms[1..], address, parents, methods[(address(owner), address(ms[0])) := code], c, m);
      assert EmitMethods(owner, ms, address)[1..] == EmitMethods(owner, ms[1..], address);
    }
  }

  lemma {:induction false} Undeclared(decls: seq<TypeDecl>, name: string)
    ensures Declared(decls, name).Some? <==> exists i | 0 <= i < |decls| :: decls[i].name == name
    decreases decls
  {
    if decls != [] {
      Undeclared(decls[1..], name);
      if decls[0].name != name && exists i | 0 <= i < |decls| :: decls[i].name == name {
        var i :| 0 <= i < |decls| && decls[i].name == name;
        assert decls[1..][i - 1].name == name;
      }
      if Declared(decls[1..], name).Some? {
        var i :| 0 <= i < |decls| - 1 && decls[1..][i].name == name;
        assert decls[i + 1].name == name;
      }
    }
  }

  lemma EmitOne(decls: seq<TypeDecl>, address: string -> nat, parents: Parents, methods: Methods)
    requires decls != [] && Injective(address)
    ensures var d := decls[0];
            && ParentsAfter(parents, Emit(decls, address)) ==
               ParentsAfter(parents[address(d.name) := address(d.parent)], Emit(decls[1..], address))
            && MethodsAfter(methods, Emit(decls, address)) ==
               MethodsAfter(MethodsAfter(methods, EmitMethods(d.name, d.methods, address)), Emit(decls[1..], address))
  {
    hide Injective;
    var d := decls[0];
    var own := EmitMethods(d.name, d.methods, address);
    var parents1 := parents[address(d.name) := address(d.parent)];
    assert Emit(decls, address) == [Inherits(address(d.name), address(d.parent))] + (own + Emit(decls[1..], address));
    assert Emit(decls, address)[1..] == own + Emit(decls[1..], address);
    EmittedMethods(d.name, d.methods, address, parents1, methods, "", "");
    ParentsAppend(parents1, own, Emit(decls[1..], address));
    MethodsAppend(methods, own, Emit(decls[1..], address));
  }

  /** After the emitted calls the tables say what the declarations say, class by class. */
  lemma {:induction false} EmittedTables(decls: seq<TypeDecl>, address: string -> nat, parents: Parents,
                                         methods: Methods, c: string, m: string)
    requires Injective(address) && DistinctTypes(decls)
    ensures var after := ParentsAfter(parents, Emit(decls, address));
            match Declared(decls, c)
            case Some(decl) => address(c) in after && after[address(c)] == address(decl.parent)
            case None => (address(c) in after <==> address(c) in parents) &&
                         (address(c) in parents ==> after[address(c)] == parents[address(c)])
    ensures Finds(MethodsAfter(methods, Emit(decls, address)), address(c), address(m)) ==
            if Declares(decls, c, m) then Some(Lowered(c, m)) else Finds(methods, address(c), address(m))
    decreases decls
  {
    hide ParentsAfter, MethodsAfter, Emit, EmitMethods, Lowered, Finds;
    if decls == [] {
      EmitNothing(decls, address, parents, methods);
    } else {
      var d := decls[0];
      var parents1 := parents[address(d.name) := address(d.parent)];
      EmitOne(decls, address, parents, methods);
      EmittedMethods(d.name, d.methods, address, parents1, methods, c, m);
      EmittedTables(decls[1..], address, parents1, MethodsAfter(methods, EmitMethods(d.name, d.methods, address)), c, m);
      Undeclared(decls[1..], d.name);
    }
  }

  lemma EmitNothing(decls: seq<TypeDecl>, address: string -> nat, parents: Parents, methods: Methods)
    requires decls == []
    ensures ParentsAfter(parents, Emit(decls, address)) == parents
    ensures MethodsAfter(methods, Emit(decls, address)) == methods
  {
  }

  lemma {:induction false} EmittedAncestor(decls: seq<TypeDecl>, address: string -> nat, c: string, k: nat)
    requires Injective(address) && DistinctTypes(decls)
    ensures AncestorAt(ParentsAfter(map[], Emit(decls, address)), address(c), k) ==
            match StaticAncestor(decls, c, k)
            case Some(a) => Some(address(a))
            case None => None
    decreases k
  {
    if k > 0 {
      EmittedAncestor(decls, address, c, k - 1);
      match StaticAncestor(decls, c, k - 1)
      case Some(a) => EmittedTables(decls, address, map[], map[], a, "");
      case None =>
    }
  }

  /** Static resolution: `code` is that of the nearest declared ancestor that declares the method, or
      null if none does. */
  ghost predicate StaticCode(decls: seq<TypeDecl>, c: string, m: string, code: Option<string>) {
    match code
    case Some(f) =>
      exists k: nat ::
        && StaticAncestor(decls, c, k).Some? && Declares(decls, StaticAncestor(decls, c, k).value, m)
        && f == Lowered(StaticAncestor(decls, c, k).value, m)
        && forall j: nat | j < k ::
             StaticAncestor(decls, c, j).Some? && !Declares(decls, StaticAncestor(decls, c, j).value, m)
    case None =>
      forall j: nat | StaticAncestor(decls, c, j).Some? ::
        !Declares(decls, StaticAncestor(decls, c, j).value, m)
  }

  /** Dispatch in a running program is static resolution: the method of the nearest declared ancestor
      that declares it, whatever else is declared, and null if none does. */
  lemma DispatchIsStatic(decls: seq<TypeDecl>, address: string -> nat, c: string, m: string, code: Option<string>)
    requires Injective(address) && DistinctTypes(decls)
    requires NearestCode(ParentsAfter(map[], Emit(decls, address)), MethodsAfter(map[], Emit(decls, address)),
                         address(c), address(m), code)
    ensures StaticCode(decls, c, m, code)
  {
    var parents, methods := ParentsAfter(map[], Emit(decls, address)), MethodsAfter(map[], Emit(decls, address));
    forall j: nat
      ensures AncestorAt(parents, address(c), j).Some? <==> StaticAncestor(decls, c, j).Some?
      ensures StaticAncestor(decls, c, j).Some? ==>
                Finds(methods, AncestorAt(parents, address(c), j).value, address(m)) ==
                if Declares(decls, StaticAncestor(decls, c, j).value, m)
                then Some(Lowered(StaticAncestor(decls, c, j).value, m)) else None
    {
      EmittedAncestor(decls, address, c, j);
      if StaticAncestor(decls, c, j).Some? {
        EmittedTables(decls, address, map[], map[], StaticAncestor(decls, c, j).value, m);
      }
    }
    if code.Some? {
      var k: nat :| AncestorAt(parents, address(c), k).Some?
                    && Finds(methods, AncestorAt(parents, address(c), k).value, address(m)) == code
                    && forall j: nat | j < k :: !Stops(parents, methods, address(c), address(m), j);
      forall j: nat | j < k
        ensures StaticAncestor(decls, c, j).Some? && !Declares(decls, StaticAncestor(decls, c, j).value, m)
      {
        assert !Stops(parents, methods, address(c), address(m), j);
      }
    }
  }

  /** No declared type is its own proper ancestor. */
  ghost predicate DeclaredAcyclic(decls: seq<TypeDecl>) {
    forall t, k: nat | k > 0 :: StaticAncestor(decls, t, k) != Some(t)
  }

  lemma {:induction false} RegisteredIsDeclared(decls: seq<TypeDecl>, address: string -> nat, parents: Parents, c: nat)
    requires Injective(address) && c in ParentsAfter(parents, Emit(decls, address))
    ensures c in parents || exists t: string :: c == address(t)
    decreases decls
  {
    hide ParentsAfter, Emit, Injective;
    if decls == [] {
      EmitNothing(decls, address, parents, map[]);
    } else {
      EmitOne(decls, address, parents, map[]);
      RegisteredIsDeclared(decls[1..], address, parents[address(decls[0].name) := address(decls[0].parent)], c);
    }
  }

  /** A program without inheritance cycles registers none, so every search in it ends. */
  lemma SearchesEnd(decls: seq<TypeDecl>, address: string -> nat, methods: Methods, c: nat, m: nat)
    requires Injective(address) && DistinctTypes(decls) && DeclaredAcyclic(decls)
    ensures SearchEnds(ParentsAfter(map[], Emit(decls, address)), methods, c, m)
  {
    var parents := ParentsAfter(map[], Emit(decls, address));
    forall d: nat, k: nat | k > 0 ensures AncestorAt(parents, d, k) != Some(d) {
      if AncestorAt(parents, d, k) == Some(d) {
        AncestorOfAncestor(parents, d, 1, k - 1) by {
          ChainStarts(parents, d, k);
        }
        ChainStarts(parents, d, k);
        RegisteredIsDeclared(decls, address, map[], d);
        var t: string :| d == address(t);
        EmittedAncestor(decls, address, t, k);
      }
    }
    AcyclicStops(parents, methods, c, m);
  }
}
