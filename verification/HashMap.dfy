/** The runtime's hash table (runtime/hashmap.h): open addressing with a probe window of eight slots,
    doubling when a key finds no place. */
module HashMaps {
  import opened Wrappers
  import opened HashSlots

  const NO_SLOT: nat := 0xFFFF_FFFF
  const MAX_CAPACITY: nat := 0x8000_0000

  /** The position of the highest bit set. */
  function FloorLog2(n: nat): (e: nat)
    requires 0 < n
    ensures Pow2(e) <= n < Pow2(e + 1)
  {
    if n == 1 then 0 else 1 + FloorLog2(n / 2)
  }

  /** Leading zeros of a 32-bit word. */
  function CountLeadingZeros(n: nat): (zeros: int)
    requires 0 < n
    ensures zeros <= 31
  {
    31 - FloorLog2(n)
  }

  predicate PowerOfTwo(n: nat) {
    0 < n && n == Pow2(FloorLog2(n))
  }

  /** The capacity a table gets for a requested one. */
  function Rounded(requested: nat): (capacity: nat)
    requires requested <= MAX_CAPACITY
  {
    if requested < 2 then 2
    else if !PowerOfTwo(requested) then
      Pow2(32 - CountLeadingZeros(requested))
    else requested
  }

  lemma Pow2Unique(a: nat, b: nat)
    requires Pow2(a) <= Pow2(b) < 2 * Pow2(a)
    ensures a == b
  {
    if a < b {
      Pow2Grows(a, b);
    } else {
      Pow2Grows(b, a);
    }
  }

  lemma LogAtMost(a: nat, b: nat, n: nat)
    requires Pow2(a) <= n <= Pow2(b)
    ensures a <= b
  {
    if b < a {
      Pow2Grows(b, a);
    }
  }

  /** The capacity is the least power of two that is at least two and at least what was asked for. */
  lemma RoundedIsLeast(requested: nat)
    requires requested <= MAX_CAPACITY
    ensures var c := Rounded(requested);
            && c == Pow2(FloorLog2(c)) && 1 <= FloorLog2(c) <= 31
            && 2 <= c && requested <= c
            && forall e: nat | 2 <= Pow2(e) && requested <= Pow2(e) :: c <= Pow2(e)
  {
    var c := Rounded(requested);
    TwoTo32();
    if requested < 2 {
      assert c == Pow2(1);
      Pow2Unique(FloorLog2(c), 1);
    } else {
      var l := FloorLog2(requested);
      LogAtMost(l, 31, requested);
      var k := if PowerOfTwo(requested) then l else l + 1;
      assert k <= 31 by {
        if l == 31 {
          assert Pow2(31) <= requested <= Pow2(31);
        }
      }
      assert c == Pow2(k) && requested <= c;
      Pow2Unique(FloorLog2(c), k);
      forall e: nat | requested <= Pow2(e) ensures c <= Pow2(e) {
        if e < k {
          Pow2Grows(e, l);
        } else {
          Pow2Grows(k, e);
        }
      }
    }
  }

  /** A key that can be stored: not the null pointer, and not empty. */
  predicate ValidKey(key: Option<Key>) {
    key.Some? && key.value != ""
  }

  class HashMap<T> {
    const hasher: Key -> nat
    var data: array<Slot<T>>
    var log2: nat
    var size: nat

    ghost predicate Valid()
      reads this, data
    {
      1 <= log2 <= 31 && Ok(data[..], hasher, log2, size)
    }

    /** The finite map that the table stands for. */
    ghost function Contents(): map<Key, Option<T>>
      reads this, data
    {
      HashSlots.Contents(data[..])
    }

    function Capacity(): nat
      reads this
    {
      Pow2(log2)
    }

    /** There is a place for `key` without growing. */
    ghost predicate Accepts(key: Key)
      requires Valid()
      reads this, data
    {
      Fits(data[..], hasher, log2, size, key)
    }

    constructor (requested: nat, hasher: Key -> nat)
      requires requested <= MAX_CAPACITY
      ensures Valid() && fresh(data) && this.hasher == hasher
      ensures Capacity() == Rounded(requested) && size == 0
      ensures Contents() == map[] && forall i | 0 <= i < data.Length :: data[i].Free?
    {
      hide Rounded, Pow2, FloorLog2, Ok, HashSlots.Contents;
      RoundedIsLeast(requested);
      var capacity := Rounded(requested);
      this.hasher := hasher;
      data := new Slot<T>[capacity + PROBES](_ => Free);
      log2 := FloorLog2(capacity);
      size := 0;
      new;
      EmptyOk(data[..], hasher, log2);
    }

    method HashHelper(key: Key) returns (found: bool, index: nat)
      requires Valid()
      ensures found <==> Accepts(key)
      ensures found ==> index < data.Length && Spot(data[..], Home(hasher, log2, key), key, index)
    {
      hide Ok, Pow2, Home;
      index := 0;
      if size == Capacity() {
        return false, index;
      }
      WindowInTable(data[..], hasher, log2, size, key);
      var curr := Home(hasher, log2, key);
      var firstFree := NO_SLOT;
      for i := 0 to PROBES
        invariant forall j | curr <= j < curr + i && data[j].Used? :: data[j].key != key
        invariant firstFree == NO_SLOT ==> forall j | curr <= j < curr + i :: data[j].Used?
        invariant firstFree != NO_SLOT ==>
                    && curr <= firstFree < curr + i && data[firstFree].Free?
                    && forall j | curr <= j < firstFree :: data[j].Used?
      {
        var slot := curr + i;
        if data[slot].Free? {
          firstFree := if firstFree < slot then firstFree else slot;
        } else if data[slot].key == key {
          assert Spot(data[..], curr, key, slot);
          return true, slot;
        }
      }
      if firstFree == NO_SLOT {
        return false, index;
      }
      assert Spot(data[..], curr, key, firstFree);
      return true, firstFree;
    }

    /** Stores `value` under `key`. Only a table of the largest capacity in which the key has no place
        refuses a valid key, and a refusal loses nothing. */
    method Put(key: Option<Key>, value: Option<T>) returns (status: int)
      requires Valid()
      modifies this, data
      ensures Valid() && (data == old(data) || fresh(data))
      ensures status == 0 || status == 1
      ensures status == 0 ==> ValidKey(key) && Contents() == old(Contents())[key.value := value]
      ensures status == 1 ==> Contents() == old(Contents())
      ensures status == 1 && ValidKey(key) ==> log2 == 31 && !Accepts(key.value)
      ensures !ValidKey(key) ==> status == 1
      ensures ValidKey(key) && old(Accepts(key.value)) ==> StoredInPlace(old(data[..]), key.value, value, status)
      ensures ValidKey(key) && old(Accepts(key.value)) ==> data == old(data) && log2 == old(log2)
      ensures old(log2) <= log2
      decreases 31 - log2, 2
    {
      hide Ok, Spot, HashSlots.Contents, Pow2, Home;
      if !ValidKey(key) {
        return 1;
      }
      var k := key.value;
      var found: bool, index: nat;
      found, index := HashHelper(k);
      while !found
        invariant Valid() && (data == old(data) || fresh(data))
        invariant Contents() == old(Contents())
        invariant found <==> Accepts(k)
        invariant found ==> index < data.Length && Spot(data[..], Home(hasher, log2, k), k, index)
        invariant old(Accepts(k)) ==> found && data == old(data) && log2 == old(log2) && data[..] == old(data[..])
        invariant old(log2) <= log2
        decreases 31 - log2
      {
        var failed := Rehash();
        if failed != 0 {
          return 1;
        }
        found, index := HashHelper(k);
      }
      Store(k, value, index);
      status := 0;
    }

    /** The entry is in the slot where `before` had room for it, and nothing else has changed. */
    ghost predicate StoredInPlace(before: seq<Slot<T>>, key: Key, value: Option<T>, status: int)
      requires log2 <= 32
      reads this, data
    {
      status == 0 &&
      exists i: nat :: i < |before| && Spot(before, Home(hasher, log2, key), key, i) &&
                       data[..] == before[i := Used(key, value)]
    }

    method Store(key: Key, value: Option<T>, index: nat)
      requires Valid() && Accepts(key) && key != "" && Spot(data[..], Home(hasher, log2, key), key, index)
      modifies this`size, data
      ensures Valid() && data[..] == old(data[..])[index := Used(key, value)]
      ensures Contents() == old(Contents())[key := value]
      ensures size == old(size) + if old(data[index]).Used? then 0 else 1
    {
      hide Ok, HashSlots.Contents, Pow2, Home;
      ghost var slots := data[..];
      StoreOk(slots, hasher, log2, size, key, value, index);
      var used := data[index].Used?;
      data[index] := Used(key, value);
      assert data[..] == slots[index := Used(key, value)];
      if !used {
        size := size + 1;
      }
    }

    /** Doubles the capacity. Every entry finds a place in the larger table, so this fails only when
        there is no larger capacity, and then nothing has changed. */
    method Rehash() returns (status: int)
      requires Valid()
      modifies this, data
      ensures Valid() && (data == old(data) || fresh(data))
      ensures Contents() == old(Contents()) && size == old(size)
      ensures status == if old(log2) < 31 then 0 else 1
      ensures status == 0 ==> log2 == old(log2) + 1
      ensures status != 0 ==> log2 == old(log2) && data == old(data) && data[..] == old(data[..])
      decreases 31 - log2, 1
    {
      hide Ok, HashSlots.Contents, Rounded, Pow2;
      CapacityDoubles(data[..], hasher, log2, size);
      var requested := Capacity() * 2 % 0x1_0000_0000;
      if requested == 0 {
        return 1;
      }
      var larger := new HashMap<T>(requested, hasher);
      SameLog(larger.data[..], hasher, larger.log2, larger.size, log2 + 1);
      status := MoveEntries(larger);
      if status != 0 {
        return;
      }
      data, log2, size := larger.data, larger.log2, larger.size;
    }

    /** Puts every entry into the larger table and clears its old slot. */
    method MoveEntries(larger: HashMap<T>) returns (status: int)
      requires Valid() && log2 < 31 && larger.Valid() && larger != this && larger.data != data
      requires larger.hasher == hasher && larger.log2 == log2 + 1 && larger.size == 0
      requires forall i | 0 <= i < larger.data.Length :: larger.data[i].Free?
      modifies this`size, data, larger, larger.data
      ensures status == 0 && larger.Valid() && larger.data == old(larger.data) && larger.log2 == old(larger.log2)
      ensures larger.Contents() == old(Contents()) && larger.size == old(size)
      decreases 31 - log2, 0
    {
      hide Ok, HashSlots.Contents, Pow2, Home, Spot, Count, Moved;
      ghost var source, total: nat := data[..], size;
      MovedNothing(source, larger.data[..]);
      assert source[..0] == [];
      for i := 0 to data.Length
        invariant larger.Valid() && larger.data == old(larger.data) && larger.log2 == old(larger.log2)
        invariant Moved(source, i, larger.data[..])
        invariant larger.size == Count(source[..i]) && size == total - Count(source[..i])
        invariant forall j | i <= j < data.Length :: data[j] == source[j]
      {
        CountNext(source, i);
        CountPrefix(source, i + 1);
        SizeIsCount(source, hasher, log2, total);
        if data[i].Used? {
          ghost var before := larger.data[..];
          NextFits(source, i, before, hasher, log2, total);
          status := RehashIterator(larger, data[i]);
          assert larger.StoredInPlace(before, source[i].key, source[i].value, 0);
          ghost var k: nat :| k < |before| && Spot(before, Home(hasher, log2 + 1, source[i].key), source[i].key, k) &&
                              larger.data[..] == before[k := source[i]];
          NextMoved(source, i, before, hasher, log2, total, k);
          SizeIsCount(larger.data[..], hasher, larger.log2, larger.size);
          if status == -1 {
            data[i] := Free;
            size := size - 1;
          } else if status != 0 {
            return 1;
          }
        } else {
          SkipFree(source, i, larger.data[..]);
        }
      }
      assert source[..|source|] == source;
      SizeIsCount(source, hasher, log2, total);
      MovedAll(source, larger.data[..], hasher, log2, larger.log2, total);
      status := 0;
    }

    method RehashIterator(larger: HashMap<T>, entry: Slot<T>) returns (status: int)
      requires larger.Valid() && entry.Used?
      modifies larger, larger.data
      ensures larger.Valid() && (larger.data == old(larger.data) || fresh(larger.data))
      ensures status == 1 || status == -1
      ensures entry.key != "" && old(larger.Accepts(entry.key)) ==>
                && status == -1 && larger.data == old(larger.data) && larger.log2 == old(larger.log2)
                && larger.StoredInPlace(old(larger.data[..]), entry.key, entry.value, 0)
      decreases 31 - larger.log2, 3
    {
      hide Ok, Spot, Home;
      var failed := larger.Put(Some(entry.key), entry.value);
      status := if 0 < failed then 1 else -1;
    }

    method Get(key: Option<Key>) returns (value: Option<T>)
      requires Valid()
      ensures value == if ValidKey(key) && key.value in Contents() then Contents()[key.value] else None
    {
      hide Ok, HashSlots.Contents, Pow2, Home;
      if !ValidKey(key) {
        return None;
      }
      var k := key.value;
      WindowInTable(data[..], hasher, log2, size, k);
      KeyInWindow(data[..], hasher, log2, size, k);
      var curr := Home(hasher, log2, k);
      for i := 0 to PROBES
        invariant forall j | curr <= j < curr + i && data[j].Used? :: data[j].key != k
      {
        if data[curr + i].Used? && data[curr + i].key == k {
          ValueInWindow(data[..], hasher, log2, size, curr + i);
          return data[curr + i].value;
        }
      }
      value := None;
    }

    method Remove(key: Option<Key>) returns (status: int)
      requires Valid()
      modifies this`size, data
      ensures Valid()
      ensures status == if ValidKey(key) && key.value in old(Contents()) then 0 else 1
      ensures Contents() == if status == 0 then old(Contents()) - {key.value} else old(Contents())
    {
      hide Ok, HashSlots.Contents, Pow2, Home;
      if !ValidKey(key) {
        return 1;
      }
      var k := key.value;
      ghost var slots := data[..];
      WindowInTable(slots, hasher, log2, size, k);
      KeyInWindow(slots, hasher, log2, size, k);
      var curr := Home(hasher, log2, k);
      for i := 0 to PROBES
        invariant data[..] == slots && size == old(size)
        invariant forall j | curr <= j < curr + i && data[j].Used? :: data[j].key != k
      {
        if data[curr + i].Used? && data[curr + i].key == k {
          ValueInWindow(slots, hasher, log2, size, curr + i);
          RemoveOk(slots, hasher, log2, size, curr + i);
          data[curr + i] := Free;
          assert data[..] == slots[curr + i := Free];
          size := size - 1;
          return 0;
        }
      }
      status := 1;
    }
  }

  /** Twice the capacity is the next capacity, or zero in 32-bit arithmetic. */
  lemma CapacityDoubles<T>(slots: seq<Slot<T>>, hasher: Key -> nat, log2: nat, size: nat)
    requires Ok(slots, hasher, log2, size)
    ensures 1 <= log2 <= 31
    ensures Pow2(log2) * 2 % 0x1_0000_0000 == if log2 < 31 then Pow2(log2 + 1) else 0
    ensures log2 < 31 ==>
              && Pow2(log2 + 1) <= MAX_CAPACITY && Rounded(Pow2(log2 + 1)) == Pow2(log2 + 1)
  {
    hide Ok, Rounded;
    OkLog(slots, hasher, log2, size);
    if log2 < 31 {
      NextCapacity(log2);
    } else {
      TwoTo32();
    }
  }

  lemma NextCapacity(log2: nat)
    requires 1 <= log2 < 31
    ensures Pow2(log2) * 2 == Pow2(log2 + 1) <= MAX_CAPACITY && Rounded(Pow2(log2 + 1)) == Pow2(log2 + 1)
  {
    hide FloorLog2;
    TwoTo32();
    Pow2Grows(log2 + 1, 31);
    Pow2Grows(1, log2 + 1);
    Pow2Unique(FloorLog2(Pow2(log2 + 1)), log2 + 1);
  }

  lemma OkLog<T>(slots: seq<Slot<T>>, hasher: Key -> nat, log2: nat, size: nat)
    requires Ok(slots, hasher, log2, size)
    ensures 1 <= log2 <= 31
  {
  }

  lemma SameLog<T>(slots: seq<Slot<T>>, hasher: Key -> nat, log2: nat, size: nat, expected: nat)
    requires Ok(slots, hasher, log2, size) && Pow2(log2) == Pow2(expected)
    ensures log2 == expected
  {
    Pow2Unique(log2, expected);
  }
}
