/** Chains of parents: class inheritance, by name or by address. */
module Chains {
  import opened Wrappers

  /** The `k`-th element up the chain from `c`; `c` itself is the zeroth. */
  function AncestorAt<T>(parents: map<T, T>, c: T, k: nat): Option<T> {
    if k == 0 then Some(c)
    else
      var below :- AncestorAt(parents, c, k - 1);
      if below in parents then Some(parents[below]) else None
  }

  /** Nothing is its own proper ancestor. */
  ghost predicate Acyclic<T(!new)>(parents: map<T, T>) {
    forall c: T, k: nat | k > 0 :: AncestorAt(parents, c, k) != Some(c)
  }

  lemma {:induction false} AncestorOfAncestor<T>(parents: map<T, T>, c: T, i: nat, j: nat)
    requires AncestorAt(parents, c, i).Some?
    ensures AncestorAt(parents, c, i + j) == AncestorAt(parents, AncestorAt(parents, c, i).value, j)
    decreases j
  {
    if j != 0 {
      AncestorOfAncestor(parents, c, i, j - 1);
    }
  }

  lemma {:induction false} NoAncestor<T>(parents: map<T, T>, c: T, k: nat, j: nat)
    requires AncestorAt(parents, c, k).None? && k <= j
    ensures AncestorAt(parents, c, j).None?
    decreases j
  {
    if k < j {
      NoAncestor(parents, c, k, j - 1);
    }
  }

  lemma {:induction false} ChainStarts<T>(parents: map<T, T>, c: T, k: nat)
    requires k > 0 && AncestorAt(parents, c, k).Some?
    ensures c in parents
    decreases k
  {
    if k > 1 {
      ChainStarts(parents, c, k - 1);
    }
  }

  /** The chain comes to an end. */
  ghost predicate Ends<T>(parents: map<T, T>, c: T) {
    exists n: nat :: AncestorAt(parents, c, n).None?
  }

  /** Once a chain comes back to an element, it only repeats itself. */
  lemma {:induction false} ChainRepeats<T>(parents: map<T, T>, c: T, j: nat, k: nat, i: nat) returns (i': nat)
    requires j < k && AncestorAt(parents, c, k).Some? && AncestorAt(parents, c, j) == AncestorAt(parents, c, k)
    ensures i' < k && i' <= i && AncestorAt(parents, c, i') == AncestorAt(parents, c, i)
    decreases i
  {
    if i < k {
      i' := i;
    } else {
      AncestorOfAncestor(parents, c, k, i - k);
      AncestorOfAncestor(parents, c, j, i - k);
      i' := ChainRepeats(parents, c, j, k, j + (i - k));
    }
  }

  /** So it never ends. */
  lemma RepeatingChainNeverEnds<T>(parents: map<T, T>, c: T, j: nat, k: nat)
    requires j < k && AncestorAt(parents, c, k).Some? && AncestorAt(parents, c, j) == AncestorAt(parents, c, k)
    ensures !Ends(parents, c)
  {
    forall n: nat ensures AncestorAt(parents, c, n).Some? {
      var i := ChainRepeats(parents, c, j, k, n);
      if AncestorAt(parents, c, i).None? {
        NoAncestor(parents, c, i, k);
      }
    }
  }

  /** The first `n` elements of a chain, when they differ: all of them have parents. */
  lemma {:induction false} ChainDistinct<T>(parents: map<T, T>, c: T, n: nat) returns (seen: set<T>)
    requires AncestorAt(parents, c, n).Some?
    requires forall i: nat, j: nat | i < j < n :: AncestorAt(parents, c, i) != AncestorAt(parents, c, j)
    ensures forall j: nat | j <= n :: AncestorAt(parents, c, j).Some?
    ensures seen == set j: nat | j < n && AncestorAt(parents, c, j).Some? :: AncestorAt(parents, c, j).value
    ensures |seen| == n && seen <= parents.Keys
    decreases n
  {
    if n == 0 {
      seen := {};
    } else {
      var before := ChainDistinct(parents, c, n - 1);
      var last := AncestorAt(parents, c, n - 1).value;
      seen := before + {last};
    }
  }

  lemma SubsetSize<T>(a: set<T>, b: set<T>)
    requires a <= b
    ensures |a| <= |b|
  {
    assert b == a + (b - a);
  }

  /** A chain that has more elements than there are parents comes back to one of them. */
  lemma LongChainRepeats<T>(parents: map<T, T>, c: T) returns (i: nat, j: nat)
    requires AncestorAt(parents, c, |parents| + 1).Some?
    ensures i < j <= |parents| && AncestorAt(parents, c, i) == AncestorAt(parents, c, j)
    ensures AncestorAt(parents, c, j).Some?
  {
    var n := |parents| + 1;
    if forall i: nat, j: nat | i < j < n :: AncestorAt(parents, c, i) != AncestorAt(parents, c, j) {
      var seen := ChainDistinct(parents, c, n);
      SubsetSize(seen, parents.Keys);
      assert false;
    }
    i, j :| i < j < n && AncestorAt(parents, c, i) == AncestorAt(parents, c, j);
    if AncestorAt(parents, c, j).None? {
      NoAncestor(parents, c, j, n);
    }
  }

  /** A chain ends within as many steps as there are parents, or never. */
  lemma ChainBounded<T>(parents: map<T, T>, c: T)
    ensures Ends(parents, c) <==> AncestorAt(parents, c, |parents| + 1).None?
  {
    if AncestorAt(parents, c, |parents| + 1).Some? {
      var i, j := LongChainRepeats(parents, c);
      RepeatingChainNeverEnds(parents, c, i, j);
    }
  }

  /** Without cycles every chain ends. */
  lemma AcyclicEnds<T(!new)>(parents: map<T, T>, c: T)
    requires Acyclic(parents)
    ensures AncestorAt(parents, c, |parents| + 1).None?
  {
    var n := |parents| + 1;
    if AncestorAt(parents, c, n).Some? {
      forall i: nat, j: nat | i < j < n ensures AncestorAt(parents, c, i) != AncestorAt(parents, c, j) {
        EarlierToo(parents, c, i, n);
        AncestorOfAncestor(parents, c, i, j - i);
      }
      var seen := ChainDistinct(parents, c, n);
      SubsetSize(seen, parents.Keys);
      assert false;
    }
  }

  lemma EarlierToo<T>(parents: map<T, T>, c: T, i: nat, n: nat)
    requires AncestorAt(parents, c, n).Some? && i <= n
    ensures AncestorAt(parents, c, i).Some?
  {
    if AncestorAt(parents, c, i).None? {
      NoAncestor(parents, c, i, n);
    }
  }
}
