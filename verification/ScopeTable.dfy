/** Lexical scopes (common/scope_table.hpp): a stack of maps, the innermost scope last. */
module Scoping {
  import opened Wrappers

  datatype VariableInfo<+T> = VariableInfo(register: string, typ: Option<T>)

  type Scopes<T> = seq<map<string, VariableInfo<T>>>

  /** What a name means: its entry in the innermost scope that has one. */
  function Lookup<T>(scopes: Scopes<T>, name: string): Option<VariableInfo<T>> {
    if scopes == [] then None
    else if name in scopes[|scopes| - 1] then Some(scopes[|scopes| - 1][name])
    else Lookup(scopes[..|scopes| - 1], name)
  }

  function Defined<T>(scopes: Scopes<T>, name: string, info: VariableInfo<T>): Scopes<T> {
    if scopes == [] then []
    else scopes[..|scopes| - 1] + [scopes[|scopes| - 1][name := info]]
  }

  function Saved<T>(scopes: Scopes<T>, name: string, typ: Option<T>): Scopes<T> {
    if scopes == [] then []
    else
      var scope := scopes[|scopes| - 1];
      var info := if name in scope then scope[name].(typ := typ) else VariableInfo("", typ);
      scopes[..|scopes| - 1] + [scope[name := info]]
  }

  /** `order` lists every set of names, each name once. */
  ghost predicate Enumerates(order: set<string> -> seq<string>) {
    forall s: set<string> ::
      && (forall x :: x in order(s) <==> x in s)
      && (forall i, j | 0 <= i < j < |order(s)| :: order(s)[i] != order(s)[j])
  }

  function Unseen(names: seq<string>, seen: set<string>): seq<string> {
    if names == [] then []
    else Unseen(names[..|names| - 1], seen) +
         if names[|names| - 1] in seen then [] else [names[|names| - 1]]
  }

  /** The visible names, innermost scope first, without those already seen. */
  function Visible<T>(order: set<string> -> seq<string>, scopes: Scopes<T>, seen: set<string>): seq<string>
    decreases |scopes|
  {
    if scopes == [] then []
    else
      var last := scopes[|scopes| - 1].Keys;
      Unseen(order(last), seen) + Visible(order, scopes[..|scopes| - 1], seen + last)
  }

  function Tracked<T>(scopes: Scopes<T>): set<string> {
    if scopes == [] then {} else Tracked(scopes[..|scopes| - 1]) + scopes[|scopes| - 1].Keys
  }

  function Names<T>(pairs: seq<(string, T)>): (names: seq<string>)
    ensures |names| == |pairs|
  {
    seq(|pairs|, i requires 0 <= i < |pairs| => pairs[i].0)
  }

  lemma NamesAppend<T>(a: seq<(string, T)>, b: seq<(string, T)>)
    ensures Names(a + b) == Names(a) + Names(b)
  {
  }

  lemma {:induction false} UnseenAre(names: seq<string>, seen: set<string>)
    requires forall i, j | 0 <= i < j < |names| :: names[i] != names[j]
    ensures forall x :: x in Unseen(names, seen) <==> x in names && x !in seen
    ensures forall i, j | 0 <= i < j < |Unseen(names, seen)| :: Unseen(names, seen)[i] != Unseen(names, seen)[j]
    decreases names
  {
    if names != [] {
      var n := |names| - 1;
      UnseenAre(names[..n], seen);
      assert names == names[..n] + [names[n]];
      assert names[n] !in names[..n];
    }
  }

  /** Every visible name is listed, and only once. */
  lemma {:induction false} VisibleAre<T>(order: set<string> -> seq<string>, scopes: Scopes<T>, seen: set<string>)
    requires Enumerates(order)
    ensures forall x :: x in Visible(order, scopes, seen) <==> x in Tracked(scopes) && x !in seen
    ensures forall i, j | 0 <= i < j < |Visible(order, scopes, seen)| ::
              Visible(order, scopes, seen)[i] != Visible(order, scopes, seen)[j]
    decreases |scopes|
  {
    if scopes != [] {
      var last := scopes[|scopes| - 1].Keys;
      UnseenAre(order(last), seen);
      VisibleAre(order, scopes[..|scopes| - 1], seen + last);
      var a, b := Unseen(order(last), seen), Visible(order, scopes[..|scopes| - 1], seen + last);
      forall i, j | 0 <= i < j < |a + b| ensures (a + b)[i] != (a + b)[j] {
        if i < |a| && |a| <= j {
          assert a[i] in a && b[j - |a|] in b;
        }
      }
    }
  }

  /** How deep the innermost scope with the name is; the outermost scope has depth one. */
  ghost function Depth<T>(scopes: Scopes<T>, name: string): (n: nat)
    ensures n <= |scopes|
  {
    if scopes == [] then 0
    else if name in scopes[|scopes| - 1] then |scopes|
    else Depth(scopes[..|scopes| - 1], name)
  }

  /** A name means its entry in the innermost scope that has one, and nothing exactly when none has. */
  lemma {:induction false} LookupExactly<T>(scopes: Scopes<T>, name: string)
    ensures var n := Depth(scopes, name);
            && (n == 0 <==> Lookup(scopes, name).None?)
            && (n > 0 ==> name in scopes[n - 1] && Lookup(scopes, name) == Some(scopes[n - 1][name]))
            && forall k | n <= k < |scopes| :: name !in scopes[k]
    decreases |scopes|
  {
    if scopes != [] && name !in scopes[|scopes| - 1] {
      LookupExactly(scopes[..|scopes| - 1], name);
    }
  }

  /** Names of inner scopes stand before names of outer ones. */
  ghost predicate Inward<T>(scopes: Scopes<T>, names: seq<string>) {
    forall i, j | 0 <= i < j < |names| :: Depth(scopes, names[i]) >= Depth(scopes, names[j])
  }

  lemma {:induction false} InnerFirst<T>(order: set<string> -> seq<string>, scopes: Scopes<T>, seen: set<string>)
    requires Enumerates(order)
    ensures Inward(scopes, Visible(order, scopes, seen))
    decreases |scopes|
  {
    if scopes != [] {
      var last, outer := scopes[|scopes| - 1].Keys, scopes[..|scopes| - 1];
      UnseenAre(order(last), seen);
      VisibleAre(order, outer, seen + last);
      InnerFirst(order, outer, seen + last);
      var a, b := Unseen(order(last), seen), Visible(order, outer, seen + last);
      InwardJoined(scopes, a, b);
    }
  }

  lemma InwardJoined<T>(scopes: Scopes<T>, a: seq<string>, b: seq<string>)
    requires scopes != [] && Inward(scopes[..|scopes| - 1], b)
    requires forall x | x in a :: x in scopes[|scopes| - 1]
    requires forall x | x in b :: x !in scopes[|scopes| - 1]
    ensures Inward(scopes, a + b)
  {
    forall i, j | 0 <= i < j < |a + b| ensures Depth(scopes, (a + b)[i]) >= Depth(scopes, (a + b)[j]) {
      if i < |a| {
        assert a[i] in a;
      } else {
        var x, y := b[i - |a|], b[j - |a|];
        assert x in b && y in b;
      }
    }
  }

  /** Saving changes what the saved name means, keeping the register that the innermost scope has for it,
      and no other name. */
  lemma SavedMeans<T>(scopes: Scopes<T>, name: string, typ: Option<T>, other: string)
    requires scopes != []
    ensures var own := scopes[|scopes| - 1];
            Lookup(Saved(scopes, name, typ), other) ==
            if other != name then Lookup(scopes, other)
            else Some(VariableInfo(if name in own then own[name].register else "", typ))
  {
    assert Saved(scopes, name, typ)[..|scopes| - 1] == scopes[..|scopes| - 1];
  }

  class ScopeTable<T> {
    var lexicalScopes: Scopes<T>

    constructor ()
      ensures lexicalScopes == [map[]]
    {
      lexicalScopes := [map[]];
    }

    method EnterScope()
      modifies this
      ensures lexicalScopes == old(lexicalScopes) + [map[]]
    {
      lexicalScopes := lexicalScopes + [map[]];
    }

    method ExitScope()
      modifies this
      ensures lexicalScopes ==
              if old(lexicalScopes) == [] then [] else old(lexicalScopes)[..|old(lexicalScopes)| - 1]
    {
      if lexicalScopes != [] {
        lexicalScopes := lexicalScopes[..|lexicalScopes| - 1];
      }
    }

    method DefineVariable(name: string, register: string, typ: Option<T>)
      modifies this
      ensures lexicalScopes == Defined(old(lexicalScopes), name, VariableInfo(register, typ))
    {
      if lexicalScopes != [] {
        var last := |lexicalScopes| - 1;
        lexicalScopes := lexicalScopes[..last] + [lexicalScopes[last][name := VariableInfo(register, typ)]];
      }
    }

    /** The register of a variable, or `None` where the original throws. */
    method ResolveVariable(name: string) returns (register: Option<string>)
      ensures register == match Lookup(lexicalScopes, name)
                          case Some(info) => Some(info.register)
                          case None => None
    {
      var i := |lexicalScopes|;
      assert lexicalScopes[..i] == lexicalScopes;
      while 0 < i
        invariant 0 <= i <= |lexicalScopes|
        invariant Lookup(lexicalScopes, name) == Lookup(lexicalScopes[..i], name)
      {
        i := i - 1;
        assert lexicalScopes[..i + 1][..i] == lexicalScopes[..i];
        if name in lexicalScopes[i] {
          return Some(lexicalScopes[i][name].register);
        }
      }
      return None;
    }

    /** Gives a type to a variable of the innermost scope, declaring it there if need be. */
    method SaveVariable(name: string, typ: Option<T>)
      modifies this
      ensures lexicalScopes == Saved(old(lexicalScopes), name, typ)
    {
      if lexicalScopes != [] {
        var last := |lexicalScopes| - 1;
        var scope := lexicalScopes[last];
        var info := if name in scope then scope[name].(typ := typ) else VariableInfo("", typ);
        lexicalScopes := lexicalScopes[..last] + [scope[name := info]];
      }
    }

    /** The type of a variable, or `None` where the original throws. */
    method ResolveType(name: string) returns (typ: Option<Option<T>>)
      ensures typ == match Lookup(lexicalScopes, name)
                     case Some(info) => Some(info.typ)
                     case None => None
    {
      var i := |lexicalScopes|;
      assert lexicalScopes[..i] == lexicalScopes;
      while 0 < i
        invariant 0 <= i <= |lexicalScopes|
        invariant Lookup(lexicalScopes, name) == Lookup(lexicalScopes[..i], name)
      {
        i := i - 1;
        assert lexicalScopes[..i + 1][..i] == lexicalScopes[..i];
        if name in lexicalScopes[i] {
          return Some(lexicalScopes[i][name].typ);
        }
      }
      return None;
    }

    /** The visible variables with their types, innermost scope first. The order inside one scope is
        that of the container, `order`. */
    method GetAllVariables(order: set<string> -> seq<string>) returns (result: seq<(string, Option<T>)>)
      requires Enumerates(order)
      ensures Names(result) == Visible(order, lexicalScopes, {})
      ensures forall p | p in result :: Lookup(lexicalScopes, p.0).Some? && Lookup(lexicalScopes, p.0).value.typ == p.1
    {
      hide Enumerates, Unseen, Names;
      result := [];
      var seen: set<string> := {};
      assert Names<Option<T>>([]) == [];
      var i := |lexicalScopes|;
      assert lexicalScopes[..i] == lexicalScopes;
      while 0 < i
        invariant 0 <= i <= |lexicalScopes|
        invariant Names(result) + Visible(order, lexicalScopes[..i], seen) == Visible(order, lexicalScopes, {})
        invariant forall x | x !in seen :: Lookup(lexicalScopes, x) == Lookup(lexicalScopes[..i], x)
        invariant forall p | p in result ::
                    Lookup(lexicalScopes, p.0).Some? && Lookup(lexicalScopes, p.0).value.typ == p.1
      {
        i := i - 1;
        assert lexicalScopes[..i + 1][..i] == lexicalScopes[..i];
        var scope := lexicalScopes[i];
        var more: seq<(string, Option<T>)>;
        more, seen := Unlisted(scope, order, seen);
        NamesAppend(result, more);
        result := result + more;
      }
    }
  }

  /** The variables of one scope that have not been seen yet. */
  method Unlisted<T>(scope: map<string, VariableInfo<T>>, order: set<string> -> seq<string>, before: set<string>)
    returns (result: seq<(string, Option<T>)>, seen: set<string>)
    requires Enumerates(order)
    ensures Names(result) == Unseen(order(scope.Keys), before)
    ensures seen == before + scope.Keys
    ensures forall p | p in result :: p.0 in scope && p.0 !in before && scope[p.0].typ == p.1
  {
    var names := order(scope.Keys);
    result, seen := [], before;
    for j := 0 to |names|
      invariant Names(result) == Unseen(names[..j], before)
      invariant seen == before + (set x | x in names[..j])
      invariant forall p | p in result :: p.0 in scope && p.0 !in before && scope[p.0].typ == p.1
    {
      var name := names[j];
      assert names[..j + 1][..j] == names[..j] && name !in names[..j];
      if name !in seen {
        assert name in scope;
        result := result + [(name, scope[name].typ)];
      }
      seen := seen + {name};
    }
    assert names[..|names|] == names;
  }
}
