/** The symbol table of the semantic phase and its overload resolution (semantic/symbol_table.hpp). */
module Overloads {
  import opened Types
  import opened Wrappers

  datatype Signature = Signature(params: seq<Type>, result: Type)

  datatype SymbolKind = VariableSymbol | ParameterSymbol | FunctionSymbol | SelfSymbol

  datatype SymbolInfo = SymbolInfo(kind: SymbolKind, overloads: seq<Signature>, scopeLevel: int)

  datatype Status = Resolved | SymbolNotFound | NotAFunction | ArityMismatch | TypeMismatch | Ambiguous

  datatype Candidate = Candidate(signature: Signature, arityMatched: bool, matched: bool)

  datatype Resolution = Resolution(status: Status, selected: Option<Signature>, candidates: seq<Candidate>)

  /** May an argument of the first type be passed for a parameter of the second? */
  type Conformance = (Type, Type) -> bool

  // ---------- costs ----------

  predicate Compatible(param: Type, arg: Option<Type>, conforms: Conformance) {
    arg.Some? && conforms(arg.value, param)
  }

  function CompatibilityCost(param: Type, arg: Option<Type>, conforms: Conformance): nat {
    if arg.None? then 1000
    else if param == arg.value then 0
    else if param.UnknownType? then 4
    else if param.AnyType? then 3
    else if conforms(arg.value, param) then 1
    else if param.Number? && arg.value.Number? && param.kind.None? then if arg.value.kind.None? then 0 else 1
    else if arg.value.AnyType? || arg.value.UnknownType? then 1
    else 1000
  }

  predicate Matches(s: Signature, args: seq<Option<Type>>, conforms: Conformance) {
    |s.params| == |args| && forall i | 0 <= i < |args| :: Compatible(s.params[i], args[i], conforms)
  }

  /** The cost of the compatible arguments among the first `n`. */
  function Score(s: Signature, args: seq<Option<Type>>, conforms: Conformance, n: nat): nat
    requires n <= |args| == |s.params|
  {
    if n == 0 then 0
    else
      Score(s, args, conforms, n - 1) +
      if Compatible(s.params[n - 1], args[n - 1], conforms) then CompatibilityCost(s.params[n - 1], args[n - 1], conforms)
      else 0
  }

  function Cost(s: Signature, args: seq<Option<Type>>, conforms: Conformance): nat {
    if |s.params| == |args| then Score(s, args, conforms, |args|) else 0
  }

  // ---------- what resolution means ----------

  /** The overloads that match. */
  function Matching(os: seq<Signature>, args: seq<Option<Type>>, conforms: Conformance): seq<Signature> {
    if os == [] then []
    else
      Matching(os[..|os| - 1], args, conforms) +
      if Matches(os[|os| - 1], args, conforms) then [os[|os| - 1]] else []
  }

  /** Those of a given cost. */
  function Costing(os: seq<Signature>, args: seq<Option<Type>>, conforms: Conformance, cost: nat): seq<Signature> {
    if os == [] then []
    else
      Costing(os[..|os| - 1], args, conforms, cost) +
      if Cost(os[|os| - 1], args, conforms) == cost then [os[|os| - 1]] else []
  }

  function LeastCost(os: seq<Signature>, args: seq<Option<Type>>, conforms: Conformance): (c: nat)
    requires os != []
    ensures forall o | o in os :: c <= Cost(o, args, conforms)
    ensures exists o | o in os :: c == Cost(o, args, conforms)
  {
    var last := Cost(os[|os| - 1], args, conforms);
    if |os| == 1 then
      assert os[0] in os;
      last
    else
      var before := LeastCost(os[..|os| - 1], args, conforms);
      assert os == os[..|os| - 1] + [os[|os| - 1]];
      assert os[|os| - 1] in os;
      if last < before then last else before
  }

  /** The matching overloads of least cost. */
  function Best(os: seq<Signature>, args: seq<Option<Type>>, conforms: Conformance): seq<Signature> {
    var matching := Matching(os, args, conforms);
    if matching == [] then [] else Costing(matching, args, conforms, LeastCost(matching, args, conforms))
  }

  function StatusOf(os: seq<Signature>, args: seq<Option<Type>>, conforms: Conformance): Status {
    var best := Best(os, args, conforms);
    if |best| == 1 then Resolved
    else if |best| > 1 then Ambiguous
    else if exists o | o in os :: |o.params| == |args| then TypeMismatch
    else ArityMismatch
  }

  function SelectedOf(os: seq<Signature>, args: seq<Option<Type>>, conforms: Conformance): Option<Signature> {
    var best := Best(os, args, conforms);
    if |best| == 1 then Some(best[0]) else None
  }

  function CandidateOf(s: Signature, args: seq<Option<Type>>, conforms: Conformance): Candidate {
    Candidate(s, |s.params| == |args|, Matches(s, args, conforms))
  }

  function CandidatesOf(os: seq<Signature>, args: seq<Option<Type>>, conforms: Conformance): (cs: seq<Candidate>)
    ensures |cs| == |os| && forall i | 0 <= i < |os| :: cs[i] == CandidateOf(os[i], args, conforms)
  {
    seq(|os|, i requires 0 <= i < |os| => CandidateOf(os[i], args, conforms))
  }

  // ---------- the table ----------

  type SymbolScopes = seq<map<string, SymbolInfo>>

  function Find(scopes: SymbolScopes, name: string): Option<SymbolInfo> {
    if scopes == [] then None
    else if name in scopes[|scopes| - 1] then Some(scopes[|scopes| - 1][name])
    else Find(scopes[..|scopes| - 1], name)
  }

  /** Scope `i` has the name, and no scope further in does. */
  ghost predicate InnermostAt(scopes: SymbolScopes, name: string, i: nat) {
    i < |scopes| && name in scopes[i] && forall j | i < j < |scopes| :: name !in scopes[j]
  }

  /** The symbol found is that of the innermost scope with the name; none is found exactly when no scope
      has it. */
  lemma {:induction false} FindExactly(scopes: SymbolScopes, name: string)
    ensures Find(scopes, name).None? <==> forall i | 0 <= i < |scopes| :: name !in scopes[i]
    ensures forall i: nat | InnermostAt(scopes, name, i) :: Find(scopes, name) == Some(scopes[i][name])
    decreases scopes
  {
    if scopes != [] {
      var n := |scopes| - 1;
      FindExactly(scopes[..n], name);
      forall i: nat | InnermostAt(scopes, name, i) && i < n
        ensures InnermostAt(scopes[..n], name, i)
      {
      }
    }
  }

  class SemanticSymbolTable {
    var scopes: SymbolScopes
    var currentLevel: int

    constructor ()
      ensures scopes == [] && currentLevel == 0
    {
      scopes, currentLevel := [], 0;
    }

    method EnterScope()
      modifies this
      ensures scopes == old(scopes) + [map[]] && currentLevel == old(currentLevel) + 1
    {
      scopes := scopes + [map[]];
      currentLevel := currentLevel + 1;
    }

    method ExitScope()
      requires scopes != []
      modifies this
      ensures scopes == old(scopes)[..|old(scopes)| - 1] && currentLevel == old(currentLevel) - 1
    {
      scopes := scopes[..|scopes| - 1];
      currentLevel := currentLevel - 1;
    }

    /** Adds an overload to the innermost scope; refuses one it already has, and a name that is not a
        function there. */
    method InsertFunction(name: string, signature: Signature) returns (inserted: bool)
      modifies this
      ensures currentLevel == old(currentLevel)
      ensures var before: SymbolScopes := if old(scopes) == [] then [map[]] else old(scopes);
              var scope := before[|before| - 1];
              && inserted == (name in scope ==> scope[name].kind == FunctionSymbol && signature !in scope[name].overloads)
              && scopes == if !inserted then before
                           else if name in scope then
                             before[|before| - 1 := scope[name := scope[name].(overloads := scope[name].overloads + [signature])]]
                           else before[|before| - 1 := scope[name := SymbolInfo(FunctionSymbol, [signature], old(currentLevel))]]
    {
      if scopes == [] {
        scopes := [map[]];
      }
      var last := |scopes| - 1;
      var scope := scopes[last];
      if name in scope {
        var existing := scope[name];
        if existing.kind != FunctionSymbol {
          return false;
        }
        for i := 0 to |existing.overloads|
          invariant signature !in existing.overloads[..i]
        {
          if existing.overloads[i] == signature {
            return false;
          }
        }
        assert existing.overloads[..|existing.overloads|] == existing.overloads;
        scopes := scopes[last := scope[name := existing.(overloads := existing.overloads + [signature])]];
      } else {
        scopes := scopes[last := scope[name := SymbolInfo(FunctionSymbol, [signature], currentLevel)]];
      }
      inserted := true;
    }

    /** The innermost symbol of a name. */
    method Lookup(name: string) returns (info: Option<SymbolInfo>)
      ensures info == Find(scopes, name)
    {
      var i := |scopes|;
      assert scopes[..i] == scopes;
      while 0 < i
        invariant 0 <= i <= |scopes| && Find(scopes, name) == Find(scopes[..i], name)
      {
        i := i - 1;
        assert scopes[..i + 1][..i] == scopes[..i];
        if name in scopes[i] {
          return Some(scopes[i][name]);
        }
      }
      info := None;
    }

    /** Chooses among the overloads that the innermost scope with the name has. */
    method ResolveFunction(name: string, args: seq<Option<Type>>, conforms: Conformance) returns (r: Resolution)
      ensures match Find(scopes, name)
              case None => r == Resolution(SymbolNotFound, None, [])
              case Some(info) =>
                if info.kind != FunctionSymbol then r == Resolution(NotAFunction, None, [])
                else r == Resolution(StatusOf(info.overloads, args, conforms), SelectedOf(info.overloads, args, conforms),
                                     CandidatesOf(info.overloads, args, conforms))
    {
      var info := Lookup(name);
      if info.None? {
        return Resolution(SymbolNotFound, None, []);
      }
      if info.value.kind != FunctionSymbol {
        return Resolution(NotAFunction, None, []);
      }
      var os := info.value.overloads;
      var matched, sawArityMatch, candidates := MatchAll(os, args, conforms);
      var selected: Option<Signature> := None;
      var status := if sawArityMatch then TypeMismatch else ArityMismatch;
      if |matched| == 1 {
        status, selected := Resolved, Some(matched[0].0);
        SingleMatch(os, args, conforms, matched[0].0);
      } else if |matched| > 1 {
        var best := PickBest(matched, os, args, conforms);
        if |best| == 1 {
          status, selected := Resolved, Some(best[0]);
        } else {
          status := Ambiguous;
        }
      }
      r := Resolution(status, selected, candidates);
    }

    /** Matches every overload, with its score. */
    method MatchAll(os: seq<Signature>, args: seq<Option<Type>>, conforms: Conformance)
      returns (matched: seq<(Signature, int)>, sawArityMatch: bool, candidates: seq<Candidate>)
      ensures Firsts(matched) == Matching(os, args, conforms)
      ensures forall i | 0 <= i < |matched| :: matched[i].1 == Cost(matched[i].0, args, conforms)
      ensures sawArityMatch <==> exists o | o in os :: |o.params| == |args|
      ensures candidates == CandidatesOf(os, args, conforms)
    {
      hide Matches, Cost, Matching;
      NoneMatch(args, conforms);
      matched, sawArityMatch, candidates := [], false, [];
      for k := 0 to |os|
        invariant Firsts(matched) == Matching(os[..k], args, conforms)
        invariant forall i | 0 <= i < |matched| :: matched[i].1 == Cost(matched[i].0, args, conforms)
        invariant sawArityMatch <==> exists o | o in os[..k] :: |o.params| == |args|
        invariant candidates == CandidatesOf(os[..k], args, conforms)
      {
        var s := os[k];
        assert os[..k + 1] == os[..k] + [s];
        NextMatches(os[..k], s, args, conforms);
        if |s.params| != |args| {
          ArityFirst(s, args, conforms);
          candidates := candidates + [Candidate(s, false, false)];
        } else {
          sawArityMatch := true;
          var ok, score := MatchOne(s, args, conforms);
          if ok {
            FirstsSnoc(matched, (s, score));
            matched := matched + [(s, score)];
          }
          candidates := candidates + [Candidate(s, true, ok)];
        }
      }
      assert os[..|os|] == os;
    }

    method MatchOne(s: Signature, args: seq<Option<Type>>, conforms: Conformance) returns (ok: bool, score: nat)
      requires |s.params| == |args|
      ensures ok == Matches(s, args, conforms) && score == Cost(s, args, conforms)
    {
      ok, score := true, 0;
      for i := 0 to |args|
        invariant ok == forall k | 0 <= k < i :: Compatible(s.params[k], args[k], conforms)
        invariant score == Score(s, args, conforms, i)
      {
        if Compatible(s.params[i], args[i], conforms) {
          score := score + CompatibilityCost(s.params[i], args[i], conforms);
        } else {
          ok := false;
        }
      }
    }

    method PickBest(matched: seq<(Signature, int)>, ghost os: seq<Signature>, args: seq<Option<Type>>,
                    conforms: Conformance)
      returns (best: seq<Signature>)
      requires matched != [] && Firsts(matched) == Matching(os, args, conforms)
      requires forall i | 0 <= i < |matched| :: matched[i].1 == Cost(matched[i].0, args, conforms)
      ensures best == Best(os, args, conforms) && best != []
    {
      hide Cost, Matching, LeastCost;
      ghost var all := Firsts(matched);
      var bestScore := LeastScore(matched, args, conforms);
      best := [];
      for i := 0 to |matched|
        invariant best == Costing(all[..i], args, conforms, bestScore)
      {
        assert all[..i + 1][..i] == all[..i];
        if matched[i].1 == bestScore {
          best := best + [matched[i].0];
        }
      }
      assert all[..|all|] == all;
      ghost var w :| w in all && bestScore == Cost(w, args, conforms);
      CostingHas(all, args, conforms, bestScore, w);
    }

    method LeastScore(matched: seq<(Signature, int)>, args: seq<Option<Type>>, conforms: Conformance)
      returns (bestScore: nat)
      requires matched != [] && forall i | 0 <= i < |matched| :: matched[i].1 == Cost(matched[i].0, args, conforms)
      ensures bestScore == LeastCost(Firsts(matched), args, conforms)
    {
      hide Cost;
      ghost var all := Firsts(matched);
      ghost var at := 0;
      bestScore := matched[0].1;
      for i := 0 to |matched|
        invariant forall k | 0 <= k < i :: bestScore <= matched[k].1
        invariant 0 <= at < |matched| && bestScore == matched[at].1
      {
        if matched[i].1 < bestScore {
          bestScore := matched[i].1;
          at := i;
        }
      }
      assert all[at] in all;
      assert LeastCost(all, args, conforms) <= Cost(all[at], args, conforms);
      assert forall o | o in all :: bestScore <= Cost(o, args, conforms);
    }
  }

  function Firsts(ps: seq<(Signature, int)>): (os: seq<Signature>)
    ensures |os| == |ps| && forall i | 0 <= i < |ps| :: os[i] == ps[i].0
  {
    seq(|ps|, i requires 0 <= i < |ps| => ps[i].0)
  }

  lemma NoneMatch(args: seq<Option<Type>>, conforms: Conformance)
    ensures Matching([], args, conforms) == []
  {
  }

  lemma NextMatches(os: seq<Signature>, s: Signature, args: seq<Option<Type>>, conforms: Conformance)
    ensures Matching(os + [s], args, conforms) ==
            if Matches(s, args, conforms) then Matching(os, args, conforms) + [s] else Matching(os, args, conforms)
    ensures CandidatesOf(os + [s], args, conforms) == CandidatesOf(os, args, conforms) + [CandidateOf(s, args, conforms)]
  {
    assert (os + [s])[..|os|] == os;
  }

  lemma ArityFirst(s: Signature, args: seq<Option<Type>>, conforms: Conformance)
    requires |s.params| != |args|
    ensures !Matches(s, args, conforms)
  {
  }

  lemma FirstsSnoc(ps: seq<(Signature, int)>, p: (Signature, int))
    ensures Firsts(ps + [p]) == Firsts(ps) + [p.0]
  {
  }

  lemma SingleMatch(os: seq<Signature>, args: seq<Option<Type>>, conforms: Conformance, s: Signature)
    requires Matching(os, args, conforms) == [s]
    ensures Best(os, args, conforms) == [s]
  {
    var all := [s];
    assert all[..0] == [];
    assert s in all;
    assert LeastCost(all, args, conforms) == Cost(s, args, conforms);
    assert Costing([], args, conforms, Cost(s, args, conforms)) == [];
  }

  // ---------- properties ----------

  lemma {:induction false} MatchingCounts(os: seq<Signature>, args: seq<Option<Type>>, conforms: Conformance, o: Signature)
    ensures multiset(Matching(os, args, conforms))[o] ==
            if Matches(o, args, conforms) then multiset(os)[o] else 0
    decreases os
  {
    if os != [] {
      var n := |os| - 1;
      MatchingCounts(os[..n], args, conforms, o);
      assert os == os[..n] + [os[n]];
    }
  }

  lemma {:induction false} CostingCounts(os: seq<Signature>, args: seq<Option<Type>>, conforms: Conformance, cost: nat,
                                         o: Signature)
    ensures multiset(Costing(os, args, conforms, cost))[o] ==
            if Cost(o, args, conforms) == cost then multiset(os)[o] else 0
    decreases os
  {
    if os != [] {
      var n := |os| - 1;
      CostingCounts(os[..n], args, conforms, cost, o);
      assert os == os[..n] + [os[n]];
    }
  }

  lemma CostingHas(os: seq<Signature>, args: seq<Option<Type>>, conforms: Conformance, cost: nat, o: Signature)
    requires o in os && Cost(o, args, conforms) == cost
    ensures o in Costing(os, args, conforms, cost)
  {
    CostingCounts(os, args, conforms, cost, o);
    assert o in multiset(os);
    assert o in multiset(Costing(os, args, conforms, cost));
  }

  /** `o` matches and costs no more than any other matching overload. */
  ghost predicate Minimal(os: seq<Signature>, args: seq<Option<Type>>, conforms: Conformance, o: Signature) {
    o in os && Matches(o, args, conforms) &&
    forall p | p in os && Matches(p, args, conforms) :: Cost(o, args, conforms) <= Cost(p, args, conforms)
  }

  /** How often each overload is among the best. */
  lemma BestCounts(os: seq<Signature>, args: seq<Option<Type>>, conforms: Conformance, o: Signature)
    ensures multiset(Best(os, args, conforms))[o] == if Minimal(os, args, conforms, o) then multiset(os)[o] else 0
  {
    var matching := Matching(os, args, conforms);
    forall p ensures p in matching <==> p in os && Matches(p, args, conforms) {
      MatchingCounts(os, args, conforms, p);
      assert p in matching <==> p in multiset(matching);
      assert p in os <==> p in multiset(os);
    }
    MatchingCounts(os, args, conforms, o);
    if matching == [] {
      assert o !in matching;
    } else {
      var least := LeastCost(matching, args, conforms);
      CostingCounts(matching, args, conforms, least, o);
      var w :| w in matching && least == Cost(w, args, conforms);
      assert multiset(os)[o] > 0 <==> o in os;
    }
  }

  /** Resolution finds `o` exactly when `o` matches, occurs once, and costs strictly less than every
      other matching overload. */
  lemma ResolvedExactly(os: seq<Signature>, args: seq<Option<Type>>, conforms: Conformance, o: Signature)
    ensures StatusOf(os, args, conforms) == Resolved && SelectedOf(os, args, conforms) == Some(o) <==>
            && multiset(os)[o] == 1 && Matches(o, args, conforms)
            && forall p | p in os && p != o && Matches(p, args, conforms) :: Cost(o, args, conforms) < Cost(p, args, conforms)
  {
    hide Matches, Cost, Best;
    var best := Best(os, args, conforms);
    BestCounts(os, args, conforms, o);
    if |best| == 1 && best[0] == o {
      assert multiset(best) == multiset{o} by {
        assert best == [o];
      }
      forall p | p in os && p != o && Matches(p, args, conforms)
        ensures Cost(o, args, conforms) < Cost(p, args, conforms)
      {
        BestCounts(os, args, conforms, p);
        assert multiset(os)[p] > 0;
      }
    }
    if multiset(os)[o] == 1 && Matches(o, args, conforms) &&
       forall p | p in os && p != o && Matches(p, args, conforms) :: Cost(o, args, conforms) < Cost(p, args, conforms)
    {
      assert o in multiset(os);
      forall p ensures multiset(best)[p] == multiset{o}[p] {
        BestCounts(os, args, conforms, p);
        if p in os && p != o && Matches(p, args, conforms) {
          NotMinimal(os, args, conforms, p, o);
        }
      }
      OnlyOne(best, o);
    }
  }

  lemma NotMinimal(os: seq<Signature>, args: seq<Option<Type>>, conforms: Conformance, p: Signature, o: Signature)
    requires o in os && Matches(o, args, conforms) && Cost(o, args, conforms) < Cost(p, args, conforms)
    ensures !Minimal(os, args, conforms, p)
  {
  }

  lemma OnlyOne(best: seq<Signature>, o: Signature)
    requires multiset(best) == multiset{o}
    ensures best == [o]
  {
    assert |multiset(best)| == |best|;
    assert best[0] in multiset(best);
  }

  /** A call is ambiguous exactly when the least cost is reached more than once. */
  lemma AmbiguousExactly(os: seq<Signature>, args: seq<Option<Type>>, conforms: Conformance)
    ensures StatusOf(os, args, conforms) == Ambiguous <==>
            exists i, j :: 0 <= i < j < |os| && Minimal(os, args, conforms, os[i]) && Minimal(os, args, conforms, os[j])
  {
    hide Matches, Cost, Best, Minimal;
    var best := Best(os, args, conforms);
    if exists i, j :: 0 <= i < j < |os| && Minimal(os, args, conforms, os[i]) && Minimal(os, args, conforms, os[j]) {
      var i, j :| 0 <= i < j < |os| && Minimal(os, args, conforms, os[i]) && Minimal(os, args, conforms, os[j]);
      BestCounts(os, args, conforms, os[i]);
      BestCounts(os, args, conforms, os[j]);
      TwoCount(os, best, i, j);
    }
    if |best| > 1 {
      var a, b := best[0], best[1];
      BestCounts(os, args, conforms, a);
      BestCounts(os, args, conforms, b);
      assert a in multiset(best) && b in multiset(best);
      var i, j := TwoPlaces(os, best);
      if j < i {
        assert 0 <= j < i < |os| && Minimal(os, args, conforms, os[j]) && Minimal(os, args, conforms, os[i]);
      }
    }
  }

  lemma TwoCount(os: seq<Signature>, best: seq<Signature>, i: nat, j: nat)
    requires i < j < |os|
    requires multiset(best)[os[i]] == multiset(os)[os[i]] && multiset(best)[os[j]] == multiset(os)[os[j]]
    ensures |best| > 1
  {
    var rest := os[..i] + os[i + 1..];
    assert os == os[..i] + [os[i]] + os[i + 1..];
    assert multiset(os) == multiset(rest) + multiset{os[i]};
    assert rest[j - 1] == os[j] && rest[j - 1] in multiset(rest);
    var both := multiset{os[i], os[j]};
    assert both <= multiset(best);
    assert multiset(best) == both + (multiset(best) - both);
    assert |multiset(best)| == |best|;
  }

  lemma TwoPlaces(os: seq<Signature>, best: seq<Signature>) returns (i: nat, j: nat)
    requires |best| > 1
    requires multiset(best)[best[0]] == multiset(os)[best[0]] && multiset(best)[best[1]] == multiset(os)[best[1]]
    ensures i < |os| && j < |os| && i != j && os[i] == best[0] && os[j] == best[1]
  {
    assert best[0] in multiset(best) && best[1] in multiset(best);
    assert best[0] in multiset(os) && best[1] in multiset(os);
    i :| 0 <= i < |os| && os[i] == best[0];
    if best[0] != best[1] {
      j :| 0 <= j < |os| && os[j] == best[1];
    } else {
      assert best == [best[0], best[1]] + best[2..];
      j := SecondPlace(os, i);
    }
  }

  lemma SecondPlace(os: seq<Signature>, i: nat) returns (j: nat)
    requires i < |os| && multiset(os)[os[i]] >= 2
    ensures j < |os| && j != i && os[j] == os[i]
  {
    var rest := os[..i] + os[i + 1..];
    assert os == os[..i] + [os[i]] + os[i + 1..];
    assert multiset(os) == multiset(rest) + multiset{os[i]};
    assert os[i] in multiset(rest);
    var k :| 0 <= k < |rest| && rest[k] == os[i];
    j := if k < i then k else k + 1;
  }

  /** The order of the overloads does not matter. */
  lemma OrderDoesNotMatter(a: seq<Signature>, b: seq<Signature>, args: seq<Option<Type>>, conforms: Conformance)
    requires multiset(a) == multiset(b)
    ensures StatusOf(a, args, conforms) == StatusOf(b, args, conforms)
    ensures SelectedOf(a, args, conforms) == SelectedOf(b, args, conforms)
  {
    hide Matches, Cost, Best;
    var p, q := Best(a, args, conforms), Best(b, args, conforms);
    assert forall o :: o in a <==> o in multiset(a);
    assert forall o :: o in b <==> o in multiset(b);
    forall o ensures multiset(p)[o] == multiset(q)[o] {
      BestCounts(a, args, conforms, o);
      BestCounts(b, args, conforms, o);
    }
    assert multiset(p) == multiset(q);
    assert |multiset(p)| == |p| && |multiset(q)| == |q|;
    if |p| == 1 {
      assert p[0] in multiset(p);
      assert q == [q[0]];
      assert multiset(q) == multiset{q[0]};
    }
  }

  lemma {:induction false} ExactCostsNothing(s: Signature, args: seq<Option<Type>>, conforms: Conformance, n: nat)
    requires n <= |args| == |s.params|
    requires forall i | 0 <= i < |args| :: args[i] == Some(s.params[i])
    ensures Score(s, args, conforms, n) == 0
    decreases n
  {
    if n > 0 {
      ExactCostsNothing(s, args, conforms, n - 1);
    }
  }

  lemma {:induction false} OthersCost(s: Signature, args: seq<Option<Type>>, conforms: Conformance, n: nat, i: nat)
    requires n <= |args| == |s.params| && i < n && Matches(s, args, conforms) && args[i] != Some(s.params[i])
    ensures Score(s, args, conforms, n) > 0
    decreases n
  {
    assert Compatible(s.params[i], args[i], conforms);
    if i < n - 1 {
      OthersCost(s, args, conforms, n - 1, i);
    }
  }

  /** An overload whose parameters are exactly the argument types wins, if no other overload has the
      same parameters and every type conforms to itself. */
  lemma ExactOverloadWins(os: seq<Signature>, args: seq<Option<Type>>, conforms: Conformance, o: Signature)
    requires multiset(os)[o] == 1 && |o.params| == |args| && forall i | 0 <= i < |args| :: args[i] == Some(o.params[i])
    requires forall t :: conforms(t, t)
    requires forall p | p in os && p.params == o.params :: p == o
    ensures StatusOf(os, args, conforms) == Resolved && SelectedOf(os, args, conforms) == Some(o)
  {
    hide StatusOf, SelectedOf;
    ExactCostsNothing(o, args, conforms, |args|);
    forall p | p in os && p != o && Matches(p, args, conforms)
      ensures Cost(o, args, conforms) < Cost(p, args, conforms)
    {
      var i :| 0 <= i < |args| && p.params[i] != o.params[i];
      OthersCost(p, args, conforms, |args|, i);
    }
    ResolvedExactly(os, args, conforms, o);
  }
}
