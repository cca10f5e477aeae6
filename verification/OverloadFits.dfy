/** Overload resolution by how well arguments fit, without costs: which overload wins, and which calls
    are refused. */
module OverloadFits {
  import opened Types
  import opened Wrappers
  import opened Overloads

  /** How an argument fits a parameter to which it may be passed, best first. */
  datatype Fit = Exact | Conforming | ToAny | ToUnknown

  function FitOf(param: Type, arg: Type): Fit {
    if param == arg then Exact
    else if param == UnknownType then ToUnknown
    else if param == AnyType then ToAny
    else Conforming
  }

  predicate AtLeast(a: Fit, b: Fit) {
    a == b || a == Exact || b == ToUnknown || (a == Conforming && b == ToAny)
  }

  /** Each argument may be passed for its parameter. */
  ghost predicate Accepts(s: Signature, args: seq<Option<Type>>, conforms: Conformance) {
    |s.params| == |args| && forall i | 0 <= i < |args| :: args[i].Some? && conforms(args[i].value, s.params[i])
  }

  /** How `s` takes argument `i`. */
  ghost function FitAt(s: Signature, args: seq<Option<Type>>, conforms: Conformance, i: nat): Fit
    requires Accepts(s, args, conforms) && i < |args|
  {
    FitOf(s.params[i], args[i].value)
  }

  /** The arguments that fit in one way. */
  ghost function Fitting(s: Signature, args: seq<Option<Type>>, conforms: Conformance, fit: Fit): set<int>
    requires Accepts(s, args, conforms)
  {
    set i | 0 <= i < |args| && FitAt(s, args, conforms, i) == fit
  }

  /** One for each conforming argument, three for each passed as `Any`, four for each passed as an unknown
      type. */
  ghost function Total(s: Signature, args: seq<Option<Type>>, conforms: Conformance): int
    requires Accepts(s, args, conforms)
  {
    |Fitting(s, args, conforms, Conforming)| + 3 * |Fitting(s, args, conforms, ToAny)| +
    4 * |Fitting(s, args, conforms, ToUnknown)|
  }

  // ---------- costs are these totals ----------

  lemma AcceptsMatches(s: Signature, args: seq<Option<Type>>, conforms: Conformance)
    ensures Accepts(s, args, conforms) <==> Matches(s, args, conforms)
  {
    if Accepts(s, args, conforms) {
      assert forall i | 0 <= i < |args| :: Compatible(s.params[i], args[i], conforms);
    }
    if Matches(s, args, conforms) {
      forall i | 0 <= i < |args| ensures args[i].Some? && conforms(args[i].value, s.params[i]) {
        assert Compatible(s.params[i], args[i], conforms);
      }
    }
  }

  /** The arguments before `n` that fit in one way. */
  ghost function FittingBefore(s: Signature, args: seq<Option<Type>>, conforms: Conformance, fit: Fit, n: nat): set<int>
    requires Accepts(s, args, conforms) && n <= |args|
  {
    set i | 0 <= i < n && FitAt(s, args, conforms, i) == fit
  }

  lemma NextFitting(s: Signature, args: seq<Option<Type>>, conforms: Conformance, fit: Fit, n: nat)
    requires Accepts(s, args, conforms) && n < |args|
    ensures |FittingBefore(s, args, conforms, fit, n + 1)| ==
            |FittingBefore(s, args, conforms, fit, n)| + if FitAt(s, args, conforms, n) == fit then 1 else 0
  {
    assert FittingBefore(s, args, conforms, fit, n + 1) ==
           FittingBefore(s, args, conforms, fit, n) + if FitAt(s, args, conforms, n) == fit then {n} else {};
  }

  lemma {:induction false} ScoreCounted(s: Signature, args: seq<Option<Type>>, conforms: Conformance, n: nat)
    requires Accepts(s, args, conforms) && n <= |args|
    ensures Score(s, args, conforms, n) ==
            |FittingBefore(s, args, conforms, Conforming, n)| + 3 * |FittingBefore(s, args, conforms, ToAny, n)| +
            4 * |FittingBefore(s, args, conforms, ToUnknown, n)|
    decreases n
  {
    hide FittingBefore;
    if n == 0 {
      NothingFits(s, args, conforms);
    } else {
      ScoreCounted(s, args, conforms, n - 1);
      NextFitting(s, args, conforms, Conforming, n - 1);
      NextFitting(s, args, conforms, ToAny, n - 1);
      NextFitting(s, args, conforms, ToUnknown, n - 1);
      assert Compatible(s.params[n - 1], args[n - 1], conforms);
    }
  }

  lemma NothingFits(s: Signature, args: seq<Option<Type>>, conforms: Conformance)
    requires Accepts(s, args, conforms)
    ensures forall fit :: FittingBefore(s, args, conforms, fit, 0) == {}
  {
  }

  lemma CostIsTotal(s: Signature, args: seq<Option<Type>>, conforms: Conformance)
    requires Accepts(s, args, conforms)
    ensures Cost(s, args, conforms) == Total(s, args, conforms)
  {
    ScoreCounted(s, args, conforms, |args|);
    assert forall fit :: FittingBefore(s, args, conforms, fit, |args|) == Fitting(s, args, conforms, fit);
  }

  // ---------- who wins ----------

  ghost predicate Chosen(os: seq<Signature>, args: seq<Option<Type>>, conforms: Conformance, o: Signature) {
    StatusOf(os, args, conforms) == Resolved && SelectedOf(os, args, conforms) == Some(o)
  }

  /** An overload is chosen exactly when it takes the arguments, is listed once, and its total is below
      that of every other overload that takes them. */
  lemma ChosenExactly(os: seq<Signature>, args: seq<Option<Type>>, conforms: Conformance, o: Signature)
    ensures Chosen(os, args, conforms, o) <==>
            && multiset(os)[o] == 1 && Accepts(o, args, conforms)
            && forall p | p in os && p != o && Accepts(p, args, conforms) ::
                 Total(o, args, conforms) < Total(p, args, conforms)
  {
    hide StatusOf, SelectedOf, Total, Accepts, Matches, Cost;
    ResolvedExactly(os, args, conforms, o);
    AcceptsMatches(o, args, conforms);
    if Accepts(o, args, conforms) {
      CostIsTotal(o, args, conforms);
    }
    forall p ensures Accepts(p, args, conforms) <==> Matches(p, args, conforms)
      ensures Accepts(p, args, conforms) ==> Cost(p, args, conforms) == Total(p, args, conforms)
    {
      AcceptsMatches(p, args, conforms);
      if Accepts(p, args, conforms) {
        CostIsTotal(p, args, conforms);
      }
    }
  }

  /** A call is ambiguous exactly when two entries of the list take the arguments with one total and none
      has a lower one. */
  lemma SharedExactly(os: seq<Signature>, args: seq<Option<Type>>, conforms: Conformance)
    ensures StatusOf(os, args, conforms) == Ambiguous <==>
            exists i, j :: 0 <= i < j < |os| && Lowest(os, args, conforms, os[i]) && Lowest(os, args, conforms, os[j])
  {
    hide StatusOf, Minimal, Lowest;
    AmbiguousExactly(os, args, conforms);
    forall o ensures Lowest(os, args, conforms, o) <==> Minimal(os, args, conforms, o) {
      LowestIsMinimal(os, args, conforms, o);
    }
  }

  ghost predicate Lowest(os: seq<Signature>, args: seq<Option<Type>>, conforms: Conformance, o: Signature) {
    o in os && Accepts(o, args, conforms) &&
    forall p | p in os && Accepts(p, args, conforms) :: Total(o, args, conforms) <= Total(p, args, conforms)
  }

  lemma LowestIsMinimal(os: seq<Signature>, args: seq<Option<Type>>, conforms: Conformance, o: Signature)
    ensures Lowest(os, args, conforms, o) <==> Minimal(os, args, conforms, o)
  {
    hide Total, Accepts, Matches, Cost;
    forall p ensures Accepts(p, args, conforms) <==> Matches(p, args, conforms)
      ensures Accepts(p, args, conforms) ==> Cost(p, args, conforms) == Total(p, args, conforms)
    {
      AcceptsMatches(p, args, conforms);
      if Accepts(p, args, conforms) {
        CostIsTotal(p, args, conforms);
      }
    }
  }

  /** `o` takes every argument at least as well as `p`, and one better. */
  ghost predicate Better(o: Signature, p: Signature, args: seq<Option<Type>>, conforms: Conformance)
    requires Accepts(o, args, conforms) && Accepts(p, args, conforms)
  {
    && (forall i | 0 <= i < |args| :: AtLeast(FitAt(o, args, conforms, i), FitAt(p, args, conforms, i)))
    && exists i | 0 <= i < |args| :: FitAt(o, args, conforms, i) != FitAt(p, args, conforms, i)
  }

  /** An overload that takes every argument at least as well as each other that takes them, and one
      better, is chosen. */
  lemma BetterWins(os: seq<Signature>, args: seq<Option<Type>>, conforms: Conformance, o: Signature)
    requires multiset(os)[o] == 1 && Accepts(o, args, conforms)
    requires forall p | p in os && p != o && Accepts(p, args, conforms) :: Better(o, p, args, conforms)
    ensures Chosen(os, args, conforms, o)
  {
    hide Chosen, Total, Accepts, Better;
    forall p | p in os && p != o && Accepts(p, args, conforms)
      ensures Total(o, args, conforms) < Total(p, args, conforms)
    {
      BetterIsLower(o, p, args, conforms);
    }
    ChosenExactly(os, args, conforms, o);
  }

  lemma BetterIsLower(o: Signature, p: Signature, args: seq<Option<Type>>, conforms: Conformance)
    requires Accepts(o, args, conforms) && Accepts(p, args, conforms) && Better(o, p, args, conforms)
    ensures Total(o, args, conforms) < Total(p, args, conforms)
  {
    hide Total, FittingBefore;
    var i :| 0 <= i < |args| && FitAt(o, args, conforms, i) != FitAt(p, args, conforms, i);
    ScoresCompare(o, p, args, conforms, |args|, i);
    CostIsTotal(o, args, conforms);
    CostIsTotal(p, args, conforms);
  }

  function Weight(fit: Fit): nat {
    match fit
    case Exact => 0
    case Conforming => 1
    case ToAny => 3
    case ToUnknown => 4
  }

  lemma NextScore(o: Signature, args: seq<Option<Type>>, conforms: Conformance, n: nat)
    requires Accepts(o, args, conforms) && n < |args|
    ensures Score(o, args, conforms, n + 1) == Score(o, args, conforms, n) + Weight(FitAt(o, args, conforms, n))
  {
    assert Compatible(o.params[n], args[n], conforms);
  }

  lemma {:induction false} ScoresCompare(o: Signature, p: Signature, args: seq<Option<Type>>, conforms: Conformance,
                                         n: nat, at: nat)
    requires Accepts(o, args, conforms) && Accepts(p, args, conforms) && Better(o, p, args, conforms)
    requires n <= |args| && at < |args| && FitAt(o, args, conforms, at) != FitAt(p, args, conforms, at)
    ensures Score(o, args, conforms, n) <= Score(p, args, conforms, n)
    ensures at < n ==> Score(o, args, conforms, n) < Score(p, args, conforms, n)
    decreases n
  {
    hide FitAt;
    if n > 0 {
      ScoresCompare(o, p, args, conforms, n - 1, at);
      var i := n - 1;
      NextScore(o, args, conforms, i);
      NextScore(p, args, conforms, i);
      assert AtLeast(FitAt(o, args, conforms, i), FitAt(p, args, conforms, i));
    }
  }

  // ---------- what is refused ----------

  /** Without an overload that takes the arguments, the answer tells whether one has as many parameters. */
  lemma RefusedExactly(os: seq<Signature>, args: seq<Option<Type>>, conforms: Conformance)
    ensures StatusOf(os, args, conforms) == ArityMismatch <==> forall o | o in os :: |o.params| != |args|
    ensures StatusOf(os, args, conforms) == TypeMismatch <==>
            && (exists o | o in os :: |o.params| == |args|)
            && forall o | o in os :: !Accepts(o, args, conforms)
  {
    hide Best, Accepts, Minimal, Lowest;
    var best := Best(os, args, conforms);
    if best != [] {
      BestCounts(os, args, conforms, best[0]);
      assert best[0] in multiset(best);
      LowestIsMinimal(os, args, conforms, best[0]);
      LowestAccepts(os, args, conforms, best[0]);
    } else {
      forall o | o in os ensures !Accepts(o, args, conforms) {
        if Accepts(o, args, conforms) {
          SomethingBest(os, args, conforms, o);
        }
      }
    }
    forall o: Signature | |o.params| != |args| ensures !Accepts(o, args, conforms) {
      TooFew(o, args, conforms);
    }
  }

  /** The report names every overload in order, says which have as many parameters as there are arguments
      and which take them. */
  lemma CandidatesSay(os: seq<Signature>, args: seq<Option<Type>>, conforms: Conformance)
    ensures var cs := CandidatesOf(os, args, conforms);
            |cs| == |os| && forall i | 0 <= i < |os| ::
              && cs[i].signature == os[i] && (cs[i].arityMatched <==> |os[i].params| == |args|)
              && (cs[i].matched <==> Accepts(os[i], args, conforms))
  {
    hide Accepts, Matches;
    forall i | 0 <= i < |os| ensures CandidatesOf(os, args, conforms)[i].matched <==> Accepts(os[i], args, conforms) {
      AcceptsMatches(os[i], args, conforms);
    }
  }

  lemma TooFew(o: Signature, args: seq<Option<Type>>, conforms: Conformance)
    requires |o.params| != |args|
    ensures !Accepts(o, args, conforms)
  {
  }

  lemma LowestAccepts(os: seq<Signature>, args: seq<Option<Type>>, conforms: Conformance, o: Signature)
    requires Lowest(os, args, conforms, o)
    ensures o in os && Accepts(o, args, conforms) && |o.params| == |args|
  {
  }

  lemma SomethingBest(os: seq<Signature>, args: seq<Option<Type>>, conforms: Conformance, o: Signature)
    requires o in os && Accepts(o, args, conforms)
    ensures Best(os, args, conforms) != []
  {
    hide Matches, Cost, Accepts;
    AcceptsMatches(o, args, conforms);
    var matching := Matching(os, args, conforms);
    MatchingCounts(os, args, conforms, o);
    assert o in multiset(os);
    assert o in multiset(matching);
    var least := LeastCost(matching, args, conforms);
    var w :| w in matching && least == Cost(w, args, conforms);
    CostingHas(matching, args, conforms, least, w);
  }
}
