/** Objects as bytes: every attribute is exactly as wide as the machine word that is stored in it, so a
    store changes nothing else. */
module LayoutStores {
  import opened Wrappers
  import opened Layouts

  /** The machines compiled for: 64 and 32 bits. */
  predicate Supported(target: Target) {
    target == Target(8, "l") || target == Target(4, "w")
  }

  /** The bytes that a store of each machine type writes. */
  function Width(word: string): nat {
    if word == "w" || word == "s" then 4 else if word == "l" || word == "d" then 8 else 0
  }

  predicate IsFloating(word: string) {
    word == "s" || word == "d"
  }

  /** The machine type of an attribute is as wide as its place: 4 bytes for a Bool, a pointer's size
      otherwise. It is a floating one exactly for numbers. */
  lemma WordExactly(target: Target, t: FieldType)
    requires Supported(target)
    ensures Width(QbeType(target, t)) == ByteSize(target, t)
    ensures Width(QbeType(target, t)) == if t.BoolField? then 4 else target.pointerSize
    ensures IsFloating(QbeType(target, t)) <==> t.NumberField?
  {
    assert "w"[0] != "s"[0] && "w"[0] != "d"[0] && "l"[0] != "s"[0] && "l"[0] != "d"[0] && "s"[0] != "d"[0];
  }

  // ---------- sizes by counting ----------

  function BoolPlaces(members: seq<Member>): set<int> {
    set i | 0 <= i < |members| && members[i].Attribute? && members[i].fieldType.BoolField?
  }

  function OtherPlaces(members: seq<Member>): set<int> {
    set i | 0 <= i < |members| && members[i].Attribute? && !members[i].fieldType.BoolField?
  }

  function Bools(members: seq<Member>): nat {
    |BoolPlaces(members)|
  }

  function Others(members: seq<Member>): nat {
    |OtherPlaces(members)|
  }

  /** The members of a type and of all its ancestors. */
  function ChainMembers(decls: Declarations, name: string, n: nat): seq<Member>
    decreases n
  {
    if name == "Object" || name !in decls || n == 0 then []
    else ChainMembers(decls, decls[name].parentType, n - 1) + decls[name].members
  }

  lemma CountsSnoc(members: seq<Member>, m: Member)
    ensures Bools(members + [m]) == Bools(members) + if m.Attribute? && m.fieldType.BoolField? then 1 else 0
    ensures Others(members + [m]) == Others(members) + if m.Attribute? && !m.fieldType.BoolField? then 1 else 0
  {
    var all, k := members + [m], |members|;
    assert BoolPlaces(all) == BoolPlaces(members) + if m.Attribute? && m.fieldType.BoolField? then {k} else {};
    assert OtherPlaces(all) == OtherPlaces(members) + if m.Attribute? && !m.fieldType.BoolField? then {k} else {};
  }

  lemma {:induction false} CountsAppend(a: seq<Member>, b: seq<Member>)
    ensures Bools(a + b) == Bools(a) + Bools(b) && Others(a + b) == Others(a) + Others(b)
    decreases b
  {
    hide Bools, Others;
    if b == [] {
      assert a + b == a;
      NoCounts();
    } else {
      var n := |b| - 1;
      CountsAppend(a, b[..n]);
      CountsSnoc(a + b[..n], b[n]);
      CountsSnoc(b[..n], b[n]);
      assert b == b[..n] + [b[n]];
      assert a + b == a + b[..n] + [b[n]];
    }
  }

  lemma NoCounts()
    ensures Bools([]) == 0 && Others([]) == 0
  {
    assert BoolPlaces([]) == {} && OtherPlaces([]) == {};
  }

  lemma {:induction false} OwnSizeCounted(target: Target, members: seq<Member>)
    requires Supported(target)
    ensures OwnSize(target, members) == 4 * Bools(members) + target.pointerSize * Others(members)
    decreases members
  {
    hide Bools, Others;
    if members == [] {
      NoCounts();
    } else {
      var n := |members| - 1;
      OwnSizeCounted(target, members[..n]);
      CountsSnoc(members[..n], members[n]);
      assert members == members[..n] + [members[n]];
      if members[n].Attribute? {
        WordExactly(target, members[n].fieldType);
      }
    }
  }

  /** An object takes a pointer, 4 bytes for each Bool and a pointer's size for each other attribute of
      its type and the types above. */
  lemma {:induction false} SizeCounted(target: Target, decls: Declarations, name: string, n: nat)
    requires Supported(target) && SizeWithin(target, decls, name, n).Some?
    ensures SizeWithin(target, decls, name, n).value ==
            target.pointerSize + 4 * Bools(ChainMembers(decls, name, n)) +
            target.pointerSize * Others(ChainMembers(decls, name, n))
    decreases n
  {
    hide Bools, Others, OwnSize;
    if name == "Object" {
      NoCounts();
    } else {
      SizeCounted(target, decls, decls[name].parentType, n - 1);
      OwnSizeCounted(target, decls[name].members);
      CountsAppend(ChainMembers(decls, decls[name].parentType, n - 1), decls[name].members);
    }
  }

  // ---------- stores ----------

  type Bytes = seq<bv8>

  /** The object after `word` has been written at `at`. */
  function Stored(object_: Bytes, at: nat, word: Bytes): (after: Bytes)
    requires at + |word| <= |object_|
    ensures |after| == |object_|
  {
    object_[..at] + word + object_[at + |word|..]
  }

  lemma {:induction false} FieldWords(target: Target, owner: string, members: seq<Member>, start: nat, f: Field)
    requires Supported(target) && DistinctAttributes(members) && f in OwnFields(target, owner, members, start)
    ensures f.name in Words(target, members) && f.size == Width(Words(target, members)[f.name])
    decreases members
  {
    var n := |members| - 1;
    var last := members[n];
    if last.Attribute? {
      WordExactly(target, last.fieldType);
    }
    if f in OwnFields(target, owner, members[..n], start) {
      FieldWords(target, owner, members[..n], start, f);
      OwnNames(target, owner, members[..n], start, f);
      var i :| 0 <= i < n && members[..n][i].Attribute? && members[..n][i].name == f.name;
      assert members[i].Attribute? && members[i].name == f.name;
    }
  }

  lemma {:induction false} OwnNames(target: Target, owner: string, members: seq<Member>, start: nat, f: Field)
    requires f in OwnFields(target, owner, members, start)
    ensures f.owner == owner
    ensures exists i | 0 <= i < |members| :: members[i].Attribute? && members[i].name == f.name
    decreases members
  {
    var n := |members| - 1;
    if f in OwnFields(target, owner, members[..n], start) {
      OwnNames(target, owner, members[..n], start, f);
      var i :| 0 <= i < n && members[..n][i].Attribute? && members[..n][i].name == f.name;
      assert members[i].Attribute? && members[i].name == f.name;
    } else {
      assert members[n].Attribute? && members[n].name == f.name;
    }
  }

  /** Every attribute of an object takes exactly the bytes of its machine type. */
  lemma {:induction false} FieldsAreWords(target: Target, decls: Declarations, name: string, n: nat, f: Field)
    requires Supported(target) && f in AllFields(target, decls, name, n)
    requires forall t | t in decls :: DistinctAttributes(decls[t].members)
    ensures f.owner in decls && f.name in Words(target, decls[f.owner].members)
    ensures f.size == Width(Words(target, decls[f.owner].members)[f.name])
    decreases n
  {
    hide Words, Width, OwnFields;
    var parent := decls[name].parentType;
    var start := SizeWithin(target, decls, parent, n - 1).value;
    if f in AllFields(target, decls, parent, n - 1) {
      FieldsAreWords(target, decls, parent, n - 1, f);
    } else {
      OwnNames(target, name, decls[name].members, start, f);
      FieldWords(target, name, decls[name].members, start, f);
    }
  }

  /** Storing a word of an attribute's machine type at its offset stays within the object, gives the
      attribute these bytes, and changes no byte of another attribute or of the object's header. */
  lemma StoreKeepsOthers(target: Target, decls: Declarations, name: string, n: nat, i: nat, j: nat, object_: Bytes,
                         word: Bytes)
    requires Supported(target) && SizeWithin(target, decls, name, n) == Some(|object_|)
    requires forall t | t in decls :: DistinctAttributes(decls[t].members)
    requires i < |AllFields(target, decls, name, n)| && j < |AllFields(target, decls, name, n)| && i != j
    requires var f := AllFields(target, decls, name, n)[i];
             f.owner in decls && |word| == Width(WordOf(Words(target, decls[f.owner].members), f.name))
    ensures var f, g := AllFields(target, decls, name, n)[i], AllFields(target, decls, name, n)[j];
            && f.size == |word| && f.offset + |word| <= |object_| && g.offset + g.size <= |object_|
            && var after := Stored(object_, f.offset, word);
               && after[f.offset..f.offset + |word|] == word
               && after[g.offset..g.offset + g.size] == object_[g.offset..g.offset + g.size]
               && target.pointerSize <= |object_| && after[..target.pointerSize] == object_[..target.pointerSize]
  {
    hide AllFields, Words, Width;
    var fields := AllFields(target, decls, name, n);
    var f, g := fields[i], fields[j];
    FieldsTileObject(target, decls, name, n);
    TileSpan(fields, target.pointerSize, |object_|);
    assert f in fields && g in fields;
    FieldsAreWords(target, decls, name, n, f);
    if i < j {
      FieldsDisjoint(fields, target.pointerSize, |object_|, i, j);
    } else {
      FieldsDisjoint(fields, target.pointerSize, |object_|, j, i);
    }
    StoreBeside(object_, f.offset, word, g.offset, g.size);
    StoreBeside(object_, f.offset, word, 0, target.pointerSize);
  }

  /** A store changes no bytes beside it. */
  lemma StoreBeside(object_: Bytes, at: nat, word: Bytes, from: nat, size: nat)
    requires at + |word| <= |object_| && from + size <= |object_| && (from + size <= at || at + |word| <= from)
    ensures Stored(object_, at, word)[from..from + size] == object_[from..from + size]
    ensures Stored(object_, at, word)[at..at + |word|] == word
  {
    var after := Stored(object_, at, word);
    assert forall k | from <= k < from + size :: after[k] == object_[k];
  }
}
