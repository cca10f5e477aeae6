/** The slots of the runtime's hash table as values: homes, probe windows, and why moving every entry
    to a table of twice the capacity cannot fail. */
module HashSlots {
  import opened Wrappers

  /** The slots looked at for one key. */
  const PROBES: nat := 8

  /** The bytes of a key. */
  type Key = string

  datatype Slot<T> = Free | Used(key: Key, value: Option<T>)

  function Pow2(n: nat): (p: nat)
    ensures p > 0
  {
    if n == 0 then 1 else 2 * Pow2(n - 1)
  }

  lemma {:induction false} Pow2Sum(a: nat, b: nat)
    ensures Pow2(a) * Pow2(b) == Pow2(a + b)
  {
    if a != 0 {
      Pow2Sum(a - 1, b);
      assert Pow2(a) * Pow2(b) == 2 * (Pow2(a - 1) * Pow2(b));
    }
  }

  lemma {:induction false} Pow2Grows(a: nat, b: nat)
    requires a <= b
    ensures Pow2(a) <= Pow2(b)
    ensures a < b ==> 2 * Pow2(a) <= Pow2(b)
    decreases b - a
  {
    if a < b {
      Pow2Grows(a + 1, b);
    }
  }

  /** Fibonacci hashing in 32-bit arithmetic. */
  function Scrambled(hash: nat): (bits: nat)
    ensures bits < 0x1_0000_0000
  {
    hash * 2654435769 % 0x1_0000_0000
  }

  function Quotient(x: nat, d: nat): nat
    requires 0 < d
  {
    x / d
  }

  /** The first slot probed for a key: the leading `log2` bits of its scrambled hash. */
  function Home(hasher: Key -> nat, log2: nat, key: Key): nat
    requires log2 <= 32
  {
    Quotient(Scrambled(hasher(key)), Pow2(32 - log2))
  }

  lemma MulMonotone(a: nat, b: int, c: int)
    requires b <= c
    ensures a * b <= a * c
  {
  }

  lemma DivLess(x: nat, a: nat, q: int)
    requires 0 < a
    ensures x / a < q <==> x < a * q
  {
    if x / a < q {
      MulMonotone(a, x / a + 1, q);
    } else {
      MulMonotone(a, q, x / a);
    }
  }

  lemma TwoTo32()
    ensures Pow2(32) == 0x1_0000_0000
  {
    assert Pow2(8) == 256;
    Pow2Sum(8, 8);
    Pow2Sum(16, 16);
  }

  lemma HomeBelow(hasher: Key -> nat, log2: nat, key: Key)
    requires log2 <= 32
    ensures Home(hasher, log2, key) < Pow2(log2)
  {
    hide Scrambled, Pow2;
    Pow2Sum(32 - log2, log2);
    TwoTo32();
    DivLess(Scrambled(hasher(key)), Pow2(32 - log2), Pow2(log2));
  }

  lemma HalfDiv(x: nat, a: nat)
    requires 0 < a
    ensures 2 * (x / (2 * a)) <= x / a <= 2 * (x / (2 * a)) + 1
  {
    var q := x / (2 * a);
    DivLess(x, 2 * a, q);
    DivLess(x, 2 * a, q + 1);
    DivLess(x, a, 2 * q);
    DivLess(x, a, 2 * q + 2);
    assert 2 * a * q == a * (2 * q) && 2 * a * (q + 1) == a * (2 * q + 2);
  }

  /** In a table of twice the capacity a key's home is twice its old home, or one more. */
  lemma HomeDoubles(hasher: Key -> nat, log2: nat, key: Key)
    requires log2 < 32
    ensures 2 * Home(hasher, log2, key) <= Home(hasher, log2 + 1, key) <= 2 * Home(hasher, log2, key) + 1
  {
    HalfDiv(Scrambled(hasher(key)), Pow2(31 - log2));
  }

  // ---------- tables ----------

  function Count<T>(slots: seq<Slot<T>>): (n: nat)
    ensures n <= |slots|
  {
    if slots == [] then 0
    else Count(slots[..|slots| - 1]) + if slots[|slots| - 1].Used? then 1 else 0
  }

  ghost predicate UniqueKeys<T>(slots: seq<Slot<T>>) {
    forall i, j | 0 <= i < |slots| && 0 <= j < |slots| && slots[i].Used? && slots[j].Used? ::
      slots[i].key == slots[j].key ==> i == j
  }

  ghost predicate NoEmptyKey<T>(slots: seq<Slot<T>>) {
    forall i | 0 <= i < |slots| && slots[i].Used? :: slots[i].key != ""
  }

  /** Each entry lies in the probe window of its key. */
  ghost predicate NearHome<T>(slots: seq<Slot<T>>, hasher: Key -> nat, log2: nat)
    requires log2 <= 32
  {
    forall i | 0 <= i < |slots| && slots[i].Used? ::
      Home(hasher, log2, slots[i].key) <= i < Home(hasher, log2, slots[i].key) + PROBES
  }

  /** The finite map that a table stands for. */
  ghost function Contents<T>(slots: seq<Slot<T>>): map<Key, Option<T>> {
    if UniqueKeys(slots) then map i | 0 <= i < |slots| && slots[i].Used? :: slots[i].key := slots[i].value
    else map[]
  }

  /** The invariant of a table: its capacity is a power of two, its keys are different and near their
      homes, and `size` counts its entries. */
  ghost predicate Ok<T>(slots: seq<Slot<T>>, hasher: Key -> nat, log2: nat, size: nat) {
    && 1 <= log2 <= 31
    && |slots| == Pow2(log2) + PROBES
    && UniqueKeys(slots) && NoEmptyKey(slots) && NearHome(slots, hasher, log2)
    && size == Count(slots) <= Pow2(log2)
  }

  lemma {:induction false} CountUpdate<T>(slots: seq<Slot<T>>, i: nat, s: Slot<T>)
    requires i < |slots|
    ensures Count(slots[i := s]) ==
            Count(slots) - (if slots[i].Used? then 1 else 0) + (if s.Used? then 1 else 0)
  {
    var n := |slots| - 1;
    if i == n {
      assert slots[i := s][..n] == slots[..n];
    } else {
      assert slots[i := s][..n] == slots[..n][i := s];
      CountUpdate(slots[..n], i, s);
    }
  }

  lemma {:induction false} CountNone<T>(slots: seq<Slot<T>>)
    requires forall i | 0 <= i < |slots| :: slots[i].Free?
    ensures Count(slots) == 0
  {
    if slots != [] {
      CountNone(slots[..|slots| - 1]);
    }
  }

  /** Storing an entry where its key is, or where nothing is, updates the map. */
  lemma ContentsPut<T>(slots: seq<Slot<T>>, i: nat, key: Key, value: Option<T>)
    requires i < |slots| && UniqueKeys(slots)
    requires slots[i].Used? ==> slots[i].key == key
    requires slots[i].Free? ==> forall j | 0 <= j < |slots| && slots[j].Used? :: slots[j].key != key
    ensures var after := slots[i := Used(key, value)];
            UniqueKeys(after) && Contents(after) == Contents(slots)[key := value]
  {
    var after := slots[i := Used(key, value)];
    assert forall j | 0 <= j < |slots| && j != i :: after[j] == slots[j];
    assert after[i].key == key;
    forall k | k in Contents(slots)[key := value] ensures k in Contents(after) {
      if k != key {
        var j :| 0 <= j < |slots| && slots[j].Used? && slots[j].key == k;
        assert after[j].key == k;
      }
    }
  }

  lemma ContentsRemove<T>(slots: seq<Slot<T>>, i: nat)
    requires i < |slots| && UniqueKeys(slots) && slots[i].Used?
    ensures UniqueKeys(slots[i := Free]) && Contents(slots[i := Free]) == Contents(slots) - {slots[i].key}
  {
    var after: seq<Slot<T>> := slots[i := Free];
    assert forall j | 0 <= j < |slots| && j != i :: after[j] == slots[j];
    forall k | k in Contents(slots) && k != slots[i].key ensures k in Contents(after) {
      var j :| 0 <= j < |slots| && slots[j].Used? && slots[j].key == k;
      assert after[j].key == k;
    }
  }

  // ---------- where a key goes ----------

  /** `i` is the slot a put of `key` uses: the key's own, or else the first free one of its window. */
  ghost predicate Spot<T>(slots: seq<Slot<T>>, home: nat, key: Key, i: nat) {
    && home <= i < home + PROBES && home + PROBES <= |slots|
    && if slots[i].Used? then slots[i].key == key
       else (forall j | home <= j < i :: slots[j].Used?) &&
            (forall j | home <= j < home + PROBES && slots[j].Used? :: slots[j].key != key)
  }

  /** A put of `key` needs no larger table. */
  ghost predicate Fits<T>(slots: seq<Slot<T>>, hasher: Key -> nat, log2: nat, size: nat, key: Key)
    requires log2 <= 32
  {
    size != Pow2(log2) && exists i: nat :: Spot(slots, Home(hasher, log2, key), key, i)
  }

  lemma WindowInTable<T>(slots: seq<Slot<T>>, hasher: Key -> nat, log2: nat, size: nat, key: Key)
    requires Ok(slots, hasher, log2, size)
    ensures log2 <= 31 && Home(hasher, log2, key) + PROBES < |slots| <= 0x8000_0000 + PROBES
  {
    HomeBelow(hasher, log2, key);
    Pow2Grows(log2, 31);
    TwoTo32();
  }

  /** A stored key is found in its window, wherever there are free slots. */
  lemma KeyInWindow<T>(slots: seq<Slot<T>>, hasher: Key -> nat, log2: nat, size: nat, key: Key)
    requires Ok(slots, hasher, log2, size)
    ensures key in Contents(slots) <==>
            exists i | Home(hasher, log2, key) <= i < Home(hasher, log2, key) + PROBES ::
              0 <= i < |slots| && slots[i].Used? && slots[i].key == key
  {
    if key in Contents(slots) {
      var i :| 0 <= i < |slots| && slots[i].Used? && slots[i].key == key;
    }
  }

  lemma ValueInWindow<T>(slots: seq<Slot<T>>, hasher: Key -> nat, log2: nat, size: nat, i: nat)
    requires Ok(slots, hasher, log2, size) && i < |slots| && slots[i].Used?
    ensures slots[i].key in Contents(slots) && Contents(slots)[slots[i].key] == slots[i].value
  {
  }

  lemma StoreOk<T>(slots: seq<Slot<T>>, hasher: Key -> nat, log2: nat, size: nat, key: Key, value: Option<T>, i: nat)
    requires Ok(slots, hasher, log2, size) && size != Pow2(log2) && key != ""
    requires Spot(slots, Home(hasher, log2, key), key, i)
    ensures var after := slots[i := Used(key, value)];
            && Ok(after, hasher, log2, if slots[i].Used? then size else size + 1)
            && Contents(after) == Contents(slots)[key := value]
  {
    var after := slots[i := Used(key, value)];
    if slots[i].Free? {
      forall j | 0 <= j < |slots| && slots[j].Used? ensures slots[j].key != key {
        assert Home(hasher, log2, slots[j].key) <= j < Home(hasher, log2, slots[j].key) + PROBES;
      }
    }
    ContentsPut(slots, i, key, value);
    CountUpdate(slots, i, Used(key, value));
    assert forall j | 0 <= j < |slots| && j != i :: after[j] == slots[j];
  }

  lemma RemoveOk<T>(slots: seq<Slot<T>>, hasher: Key -> nat, log2: nat, size: nat, i: nat)
    requires Ok(slots, hasher, log2, size) && i < |slots| && slots[i].Used?
    ensures size > 0 && Ok(slots[i := Free], hasher, log2, size - 1)
    ensures Contents(slots[i := Free]) == Contents(slots) - {slots[i].key}
  {
    var after: seq<Slot<T>> := slots[i := Free];
    ContentsRemove(slots, i);
    CountUpdate(slots, i, Free);
    assert forall j | 0 <= j < |slots| && j != i :: after[j] == slots[j];
  }

  lemma SizeIsCount<T>(slots: seq<Slot<T>>, hasher: Key -> nat, log2: nat, size: nat)
    requires Ok(slots, hasher, log2, size)
    ensures size == Count(slots)
  {
  }

  lemma EmptyOk<T>(slots: seq<Slot<T>>, hasher: Key -> nat, log2: nat)
    requires 1 <= log2 <= 31 && |slots| == Pow2(log2) + PROBES
    requires forall i | 0 <= i < |slots| :: slots[i].Free?
    ensures Ok(slots, hasher, log2, 0) && Contents(slots) == map[]
  {
    CountNone(slots);
  }

  // ---------- moving to a larger table ----------

  /** Different numbers from a range of `high - low` are at most that many. */
  lemma {:induction false} Pigeonhole(numbers: seq<int>, low: int, high: int)
    requires low <= high && forall i | 0 <= i < |numbers| :: low <= numbers[i] < high
    requires forall i, j | 0 <= i < j < |numbers| :: numbers[i] != numbers[j]
    ensures |numbers| <= high - low
    decreases high - low
  {
    if numbers != [] {
      assert low <= numbers[0] < high;
      var top := high - 1;
      if top in numbers {
        var k :| 0 <= k < |numbers| && numbers[k] == top;
        var rest := numbers[..k] + numbers[k + 1..];
        Pigeonhole(rest, low, top);
      } else {
        Pigeonhole(numbers, low, top);
      }
    }
  }

  /** The entries of the first `n` slots have moved, each from slot `s` to at most slot `2 s + 1`. */
  ghost predicate Moved<T>(source: seq<Slot<T>>, n: nat, target: seq<Slot<T>>) {
    n <= |source| && Sourced(source, n, target) && Kept(source, n, target)
  }

  ghost predicate Sourced<T>(source: seq<Slot<T>>, n: nat, target: seq<Slot<T>>)
    requires n <= |source|
  {
    forall j | 0 <= j < |target| && target[j].Used? ::
      exists s | 0 <= s < n :: source[s] == target[j] && j <= 2 * s + 1
  }

  ghost predicate Kept<T>(source: seq<Slot<T>>, n: nat, target: seq<Slot<T>>)
    requires n <= |source|
  {
    forall s | 0 <= s < n && source[s].Used? :: exists j | 0 <= j < |target| :: target[j] == source[s]
  }

  /** Slots of the target that are taken at and after the new home of an entry were filled from
      slots between the entry's old home and its old slot. */
  lemma TakenBound<T>(source: seq<Slot<T>>, n: nat, target: seq<Slot<T>>, home: nat, newHome: nat, taken: nat)
    requires Moved(source, n, target) && UniqueKeys(target) && home <= n && 2 * home <= newHome
    requires newHome + taken <= |target|
    requires forall j | newHome <= j < newHome + taken :: target[j].Used?
    ensures taken <= n - home
  {
    var origins: seq<int> := seq(taken, k requires 0 <= k < taken =>
      var s :| 0 <= s < n && source[s] == target[newHome + k] && newHome + k <= 2 * s + 1; s);
    forall i, k | 0 <= i < k < taken ensures origins[i] != origins[k] {
      assert target[newHome + i].key != target[newHome + k].key;
    }
    Pigeonhole(origins, home, n);
  }

  /** The next entry finds a free slot in its new window, and lands no further than the bound. */
  lemma RoomForNext<T>(source: seq<Slot<T>>, n: nat, target: seq<Slot<T>>, hasher: Key -> nat, log2: nat)
    requires log2 < 32 && n < |source| && source[n].Used?
    requires UniqueKeys(source) && NearHome(source, hasher, log2)
    requires Moved(source, n, target) && UniqueKeys(target)
    requires |target| == Pow2(log2 + 1) + PROBES
    ensures var newHome := Home(hasher, log2 + 1, source[n].key);
            && newHome + PROBES <= |target|
            && (forall j | 0 <= j < |target| && target[j].Used? :: target[j].key != source[n].key)
            && (exists i :: Spot(target, newHome, source[n].key, i))
            && (forall i: nat | Spot(target, newHome, source[n].key, i) :: target[i].Free? && i <= 2 * n + 1)
  {
    var key := source[n].key;
    var home, newHome := Home(hasher, log2, key), Home(hasher, log2 + 1, key);
    HomeDoubles(hasher, log2, key);
    HomeBelow(hasher, log2 + 1, key);
    assert home <= n < home + PROBES;
    var taken := 0;
    while taken < PROBES && target[newHome + taken].Used?
      invariant 0 <= taken <= PROBES
      invariant forall j | newHome <= j < newHome + taken :: target[j].Used?
    {
      taken := taken + 1;
    }
    TakenBound(source, n, target, home, newHome, taken);
    assert Spot(target, newHome, key, newHome + taken);
  }

  lemma MovedOne<T>(source: seq<Slot<T>>, n: nat, target: seq<Slot<T>>, i: nat)
    requires Moved(source, n, target) && n < |source| && source[n].Used?
    requires i < |target| && target[i].Free? && i <= 2 * n + 1
    ensures Moved(source, n + 1, target[i := source[n]])
  {
    hide Sourced, Kept;
    SourcedOne(source, n, target, i);
    KeptOne(source, n, target, i);
  }

  lemma SourcedOne<T>(source: seq<Slot<T>>, n: nat, target: seq<Slot<T>>, i: nat)
    requires n < |source| && Sourced(source, n, target)
    requires i < |target| && i <= 2 * n + 1
    ensures Sourced(source, n + 1, target[i := source[n]])
  {
    var after := target[i := source[n]];
    forall j | 0 <= j < |after| && after[j].Used?
      ensures exists s | 0 <= s < n + 1 :: source[s] == after[j] && j <= 2 * s + 1
    {
      if j != i {
        var s :| 0 <= s < n && source[s] == target[j] && j <= 2 * s + 1;
        assert source[s] == after[j];
      }
    }
  }

  lemma KeptOne<T>(source: seq<Slot<T>>, n: nat, target: seq<Slot<T>>, i: nat)
    requires n < |source| && Kept(source, n, target)
    requires i < |target| && target[i].Free?
    ensures Kept(source, n + 1, target[i := source[n]])
  {
    var after := target[i := source[n]];
    forall s | 0 <= s < n + 1 && source[s].Used?
      ensures exists j | 0 <= j < |after| :: after[j] == source[s]
    {
      if s == n {
        assert after[i] == source[s];
      } else {
        var j :| 0 <= j < |target| && target[j] == source[s];
        assert after[j] == source[s];
      }
    }
  }

  lemma MovedAll<T>(source: seq<Slot<T>>, target: seq<Slot<T>>, hasher: Key -> nat, log2: nat, newLog2: nat, size: nat)
    requires Moved(source, |source|, target)
    requires Ok(source, hasher, log2, size) && Ok(target, hasher, newLog2, size)
    ensures Contents(target) == Contents(source)
  {
    forall k | k in Contents(source) ensures k in Contents(target) && Contents(target)[k] == Contents(source)[k] {
      var s :| 0 <= s < |source| && source[s].Used? && source[s].key == k;
      var j :| 0 <= j < |target| && target[j] == source[s];
      assert target[j].key == k;
    }
    forall k | k in Contents(target) ensures k in Contents(source) {
      var j :| 0 <= j < |target| && target[j].Used? && target[j].key == k;
      var s :| 0 <= s < |source| && source[s] == target[j] && j <= 2 * s + 1;
      assert source[s].key == k;
    }
  }

  /** Putting the next entry into the larger table never makes that table grow, and never fails. */
  lemma NextFits<T>(source: seq<Slot<T>>, n: nat, target: seq<Slot<T>>, hasher: Key -> nat, log2: nat, size: nat)
    requires Ok(source, hasher, log2, size) && log2 < 31 && n < |source| && source[n].Used?
    requires Moved(source, n, target) && Ok(target, hasher, log2 + 1, Count(source[..n]))
    ensures source[n].key != ""
    ensures Fits(target, hasher, log2 + 1, Count(source[..n]), source[n].key)
  {
    hide Moved;
    RoomForNext(source, n, target, hasher, log2);
    CountPrefix(source, n);
  }

  lemma NextMoved<T>(source: seq<Slot<T>>, n: nat, target: seq<Slot<T>>, hasher: Key -> nat, log2: nat, size: nat,
                     i: nat)
    requires Ok(source, hasher, log2, size) && log2 < 31 && n < |source| && source[n].Used?
    requires Moved(source, n, target) && Ok(target, hasher, log2 + 1, Count(source[..n]))
    requires i < |target| && Spot(target, Home(hasher, log2 + 1, source[n].key), source[n].key, i)
    ensures Moved(source, n + 1, target[i := source[n]])
    ensures Count(target[i := source[n]]) == Count(source[..n]) + 1
  {
    hide Moved;
    RoomForNext(source, n, target, hasher, log2);
    MovedOne(source, n, target, i);
    CountUpdate(target, i, source[n]);
  }

  lemma {:induction false} CountPrefix<T>(slots: seq<Slot<T>>, n: nat)
    requires n <= |slots|
    ensures Count(slots[..n]) <= Count(slots)
    decreases |slots|
  {
    if n < |slots| {
      CountPrefix(slots[..|slots| - 1], n);
      assert slots[..|slots| - 1][..n] == slots[..n];
    } else {
      assert slots[..n] == slots;
    }
  }

  lemma CountNext<T>(slots: seq<Slot<T>>, n: nat)
    requires n < |slots|
    ensures Count(slots[..n + 1]) == Count(slots[..n]) + if slots[n].Used? then 1 else 0
  {
    assert slots[..n + 1][..n] == slots[..n];
  }

  lemma MovedNothing<T>(source: seq<Slot<T>>, target: seq<Slot<T>>)
    requires forall i | 0 <= i < |target| :: target[i].Free?
    ensures Moved(source, 0, target)
  {
  }

  lemma SkipFree<T>(source: seq<Slot<T>>, n: nat, target: seq<Slot<T>>)
    requires Moved(source, n, target) && n < |source| && source[n].Free?
    ensures Moved(source, n + 1, target)
  {
    forall j | 0 <= j < |target| && target[j].Used?
      ensures exists s | 0 <= s < n + 1 :: source[s] == target[j] && j <= 2 * s + 1
    {
      var s :| 0 <= s < n && source[s] == target[j] && j <= 2 * s + 1;
    }
  }
}
