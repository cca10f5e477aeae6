/** The layout of objects in memory (ir_generator/type_register.hpp): sizes and field offsets, computed
    once per type and kept. */
module Layouts {
  import opened Chains
  import opened Wrappers

  datatype FieldType = BoolField | NumberField | OtherField

  datatype Member = Attribute(name: string, fieldType: FieldType) | Method(name: string)

  datatype TypeDecl = TypeDecl(name: string, parentType: string, members: seq<Member>)

  type Declarations = map<string, TypeDecl>

  /** The machine compiled for. */
  datatype Target = Target(pointerSize: nat, pointerType: string)

  function ByteSize(target: Target, t: FieldType): nat {
    if t.BoolField? then 4 else target.pointerSize
  }

  function QbeType(target: Target, t: FieldType): string {
    match t
    case BoolField => "w"
    case NumberField => if target.pointerSize == 4 then "s" else "d"
    case OtherField => target.pointerType
  }

  // ---------- layouts ----------

  /** The bytes that the attributes among `members` take. */
  function OwnSize(target: Target, members: seq<Member>): nat {
    if members == [] then 0
    else
      var last := members[|members| - 1];
      OwnSize(target, members[..|members| - 1]) + if last.Attribute? then ByteSize(target, last.fieldType) else 0
  }

  /** The size of a type, if all its ancestors up to `Object` are declared and found within `n` steps. */
  function SizeWithin(target: Target, decls: Declarations, name: string, n: nat): Option<nat>
    decreases n
  {
    if name == "Object" then Some(target.pointerSize)
    else if name !in decls || n == 0 then None
    else
      var parent :- SizeWithin(target, decls, decls[name].parentType, n - 1);
      Some(parent + OwnSize(target, decls[name].members))
  }

  ghost predicate HasSize(target: Target, decls: Declarations, name: string, size: nat) {
    exists n: nat :: SizeWithin(target, decls, name, n) == Some(size)
  }

  /** One attribute of an object: the type that declares it, and the bytes it occupies. */
  datatype Field = Field(owner: string, name: string, offset: nat, size: nat)

  function OwnFields(target: Target, owner: string, members: seq<Member>, start: nat): seq<Field> {
    if members == [] then []
    else
      var rest := members[..|members| - 1];
      var last := members[|members| - 1];
      OwnFields(target, owner, rest, start) +
      if last.Attribute? then
        [Field(owner, last.name, start + OwnSize(target, rest), ByteSize(target, last.fieldType))]
      else []
  }

  /** All attributes of an object, from the root of the inheritance chain down. */
  function AllFields(target: Target, decls: Declarations, name: string, n: nat): seq<Field>
    decreases n
  {
    if name == "Object" || name !in decls || n == 0 then []
    else
      var parent := decls[name].parentType;
      match SizeWithin(target, decls, parent, n - 1)
      case None => []
      case Some(start) =>
        AllFields(target, decls, parent, n - 1) + OwnFields(target, name, decls[name].members, start)
  }

  /** The fields follow one another without gap from `from` to `to`. */
  ghost predicate Tile(fields: seq<Field>, from: nat, to: nat) {
    if fields == [] then from == to
    else
      var last := fields[|fields| - 1];
      last.offset + last.size == to && Tile(fields[..|fields| - 1], from, last.offset)
  }

  lemma {:induction false} TileAppend(a: seq<Field>, b: seq<Field>, from: nat, mid: nat, to: nat)
    requires Tile(a, from, mid) && Tile(b, mid, to)
    ensures Tile(a + b, from, to)
    decreases |b|
  {
    if b == [] {
      assert a + b == a;
    } else {
      var n := |b| - 1;
      assert (a + b)[..|a + b| - 1] == a + b[..n];
      TileAppend(a, b[..n], from, mid, b[n].offset);
    }
  }

  lemma {:induction false} OwnFieldsTile(target: Target, owner: string, members: seq<Member>, start: nat)
    ensures Tile(OwnFields(target, owner, members, start), start, start + OwnSize(target, members))
    decreases members
  {
    if members != [] {
      var rest := members[..|members| - 1];
      OwnFieldsTile(target, owner, rest, start);
      var before := OwnFields(target, owner, rest, start);
      if members[|members| - 1].Attribute? {
        var all := OwnFields(target, owner, members, start);
        assert all[..|all| - 1] == before;
      } else {
        assert OwnFields(target, owner, members, start) == before;
      }
    }
  }

  /** The attributes along the inheritance chain fill an object exactly from the end of the pointer at
      its beginning to its total size, those of each type starting where its parent ends. */
  lemma {:induction false} FieldsTileObject(target: Target, decls: Declarations, name: string, n: nat)
    requires SizeWithin(target, decls, name, n).Some?
    ensures Tile(AllFields(target, decls, name, n), target.pointerSize, SizeWithin(target, decls, name, n).value)
    decreases n
  {
    if name != "Object" {
      var parent := decls[name].parentType;
      FieldsTileObject(target, decls, parent, n - 1);
      var start := SizeWithin(target, decls, parent, n - 1).value;
      OwnFieldsTile(target, name, decls[name].members, start);
      TileAppend(AllFields(target, decls, parent, n - 1), OwnFields(target, name, decls[name].members, start),
                 target.pointerSize, start, SizeWithin(target, decls, name, n).value);
    }
  }

  lemma {:induction false} TileSpan(fields: seq<Field>, from: nat, to: nat)
    requires Tile(fields, from, to)
    ensures from <= to && forall f | f in fields :: from <= f.offset && f.offset + f.size <= to
    decreases |fields|
  {
    if fields != [] {
      var n := |fields| - 1;
      TileSpan(fields[..n], from, fields[n].offset);
      assert fields == fields[..n] + [fields[n]];
    }
  }

  /** No two attributes of an object share a byte. */
  lemma {:induction false} FieldsDisjoint(fields: seq<Field>, from: nat, to: nat, i: nat, j: nat)
    requires Tile(fields, from, to) && i < j < |fields|
    ensures fields[i].offset + fields[i].size <= fields[j].offset
    decreases |fields|
  {
    var n := |fields| - 1;
    if j == n {
      TileSpan(fields[..n], from, fields[n].offset);
      assert fields[..n][i] in fields[..n];
    } else {
      FieldsDisjoint(fields[..n], from, fields[n].offset, i, j);
    }
  }

  // ---------- offsets by name ----------

  /** The offset of each attribute of a type, a later attribute replacing an earlier one of its name. */
  function Offsets(target: Target, members: seq<Member>, start: nat): map<string, int> {
    if members == [] then map[]
    else
      var rest := members[..|members| - 1];
      var last := members[|members| - 1];
      if last.Attribute? then Offsets(target, rest, start)[last.name := start + OwnSize(target, rest)]
      else Offsets(target, rest, start)
  }

  function Words(target: Target, members: seq<Member>): map<string, string> {
    if members == [] then map[]
    else
      var last := members[|members| - 1];
      if last.Attribute? then Words(target, members[..|members| - 1])[last.name := QbeType(target, last.fieldType)]
      else Words(target, members[..|members| - 1])
  }

  /** No type declares two attributes of one name. */
  ghost predicate DistinctAttributes(members: seq<Member>) {
    forall i, j | 0 <= i < j < |members| ::
      members[i].Attribute? && members[j].Attribute? ==> members[i].name != members[j].name
  }

  /** With distinct names the offset found by name is the attribute's own; a name the type does not
      declare itself has none, even if it is inherited. */
  lemma {:induction false} OffsetsAreFields(target: Target, owner: string, members: seq<Member>, start: nat)
    requires DistinctAttributes(members)
    ensures forall f | f in OwnFields(target, owner, members, start) ::
              f.owner == owner && f.name in Offsets(target, members, start) &&
              Offsets(target, members, start)[f.name] == f.offset
    ensures forall x :: x in Offsets(target, members, start) <==> exists m | m in members :: m.Attribute? && m.name == x
    decreases members
  {
    if members != [] {
      var rest := members[..|members| - 1];
      var last := members[|members| - 1];
      assert members == rest + [last];
      OffsetsAreFields(target, owner, rest, start);
      if last.Attribute? {
        assert last.name !in Offsets(target, rest, start);
      }
    }
  }

  // ---------- sizes do not depend on the bound ----------

  lemma {:induction false} SizeGrows(target: Target, decls: Declarations, name: string, n: nat, m: nat)
    requires SizeWithin(target, decls, name, n).Some? && n <= m
    ensures SizeWithin(target, decls, name, m) == SizeWithin(target, decls, name, n)
    decreases n
  {
    if name != "Object" {
      SizeGrows(target, decls, decls[name].parentType, n - 1, m - 1);
    }
  }

  lemma SizeUnique(target: Target, decls: Declarations, name: string, a: nat, b: nat)
    requires HasSize(target, decls, name, a) && HasSize(target, decls, name, b)
    ensures a == b
  {
    var n: nat :| SizeWithin(target, decls, name, n) == Some(a);
    var m: nat :| SizeWithin(target, decls, name, m) == Some(b);
    if n <= m {
      SizeGrows(target, decls, name, n, m);
    } else {
      SizeGrows(target, decls, name, m, n);
    }
  }

  /** A new declaration changes no size that is already determined. */
  lemma {:induction false} SizeStays(target: Target, decls: Declarations, d: TypeDecl, name: string, n: nat)
    requires d.name !in decls && SizeWithin(target, decls, name, n).Some?
    ensures SizeWithin(target, decls[d.name := d], name, n) == SizeWithin(target, decls, name, n)
    decreases n
  {
    if name != "Object" {
      SizeStays(target, decls, d, decls[name].parentType, n - 1);
    }
  }

  lemma HasSizeStays(target: Target, before: Declarations, d: TypeDecl, name: string, size: nat)
    requires d.name !in before && HasSize(target, before, name, size)
    ensures HasSize(target, before[d.name := d], name, size)
  {
    var n: nat :| SizeWithin(target, before, name, n) == Some(size);
    SizeStays(target, before, d, name, n);
  }

  /** No size: the chain of parents leaves the declared types before it reaches `Object`. */
  ghost predicate NoSize(target: Target, decls: Declarations, name: string) {
    forall n: nat :: SizeWithin(target, decls, name, n).None?
  }

  function WordOf(words: map<string, string>, field: string): string {
    if field in words then words[field] else ""
  }

  /** The same answers to all queries: asking for a missing field leaves an empty entry behind. */
  ghost predicate SameWords(a: map<string, string>, b: map<string, string>) {
    forall field :: WordOf(a, field) == WordOf(b, field)
  }

  /** `offsets` and `words` are what a type of this size has. */
  ghost predicate Laid(target: Target, decls: Declarations, name: string, size: int, offsets: map<string, int>,
                       words: map<string, string>) {
    && size >= 0 && HasSize(target, decls, name, size)
    && if name == "Object" then offsets == map[] && SameWords(words, map[])
       else
         && name in decls
         && SameWords(words, Words(target, decls[name].members))
         && exists start: nat ::
              HasSize(target, decls, decls[name].parentType, start) && offsets == Offsets(target, decls[name].members, start)
  }

  lemma LaidStays(target: Target, before: Declarations, d: TypeDecl, name: string, size: int,
                  offsets: map<string, int>, words: map<string, string>)
    requires d.name !in before && Laid(target, before, name, size, offsets, words)
    ensures Laid(target, before[d.name := d], name, size, offsets, words)
  {
    HasSizeStays(target, before, d, name, size);
    if name != "Object" {
      var start: nat :| HasSize(target, before, before[name].parentType, start)
                        && offsets == Offsets(target, before[name].members, start);
      HasSizeStays(target, before, d, before[name].parentType, start);
    }
  }

  // ---------- types registered again ----------

  /** The declaration `d` gives its type the layout remembered: its parent, found without passing through
      the type itself, has the size that the attributes started at. */
  ghost predicate SameLayout(target: Target, decls: Declarations, d: TypeDecl, size: int, offsets: map<string, int>,
                             words: map<string, string>) {
    && SameWords(words, Words(target, d.members))
    && exists start: nat ::
         && HasSize(target, decls - {d.name}, d.parentType, start)
         && offsets == Offsets(target, d.members, start) && size == start + OwnSize(target, d.members)
  }

  lemma {:induction false} SizeAvoids(target: Target, decls: Declarations, name: string, x: string, n: nat)
    requires name != "Object" && forall m: nat | m <= n :: SizeWithin(target, decls, name, m).None?
    ensures SizeWithin(target, decls - {name}, x, n) == SizeWithin(target, decls, x, n)
    decreases n
  {
    if x != "Object" && x != name && x in decls && n > 0 {
      SizeAvoids(target, decls, name, decls[x].parentType, n - 1);
    }
  }

  lemma {:induction false} SizeRestored(target: Target, decls: Declarations, d: TypeDecl, x: string, n: nat)
    requires SizeWithin(target, decls - {d.name}, x, n).Some?
    ensures SizeWithin(target, decls[d.name := d], x, n) == SizeWithin(target, decls - {d.name}, x, n)
    decreases n
  {
    if x != "Object" {
      SizeRestored(target, decls, d, decls[x].parentType, n - 1);
    }
  }

  lemma {:induction false} LeastBound(target: Target, decls: Declarations, name: string, n: nat) returns (least: nat)
    requires SizeWithin(target, decls, name, n).Some?
    ensures least <= n && SizeWithin(target, decls, name, least).Some?
    ensures forall m: nat | m < least :: SizeWithin(target, decls, name, m).None?
  {
    if m: nat :| m < n && SizeWithin(target, decls, name, m).Some? {
      least := LeastBound(target, decls, name, m);
    } else {
      least := n;
    }
  }

  /** A new declaration lays its type out as before exactly when it gives the same layout. */
  lemma RelaidExactly(target: Target, decls: Declarations, d: TypeDecl, size: int, offsets: map<string, int>,
                      words: map<string, string>)
    requires d.name != "Object"
    ensures Laid(target, decls[d.name := d], d.name, size, offsets, words) <==>
            SameLayout(target, decls, d, size, offsets, words)
  {
    var after := decls[d.name := d];
    assert after - {d.name} == decls - {d.name};
    if Laid(target, after, d.name, size, offsets, words) {
      var n: nat :| SizeWithin(target, after, d.name, n) == Some(size);
      var least := LeastBound(target, after, d.name, n);
      SizeGrows(target, after, d.name, least, n);
      var start := SizeWithin(target, after, d.parentType, least - 1).value;
      SizeAvoids(target, after, d.name, d.parentType, least - 1);
      assert HasSize(target, decls - {d.name}, d.parentType, start) && HasSize(target, after, d.parentType, start);
      var used: nat :| HasSize(target, after, d.parentType, used) && offsets == Offsets(target, d.members, used);
      SizeUnique(target, after, d.parentType, start, used);
    }
    if SameLayout(target, decls, d, size, offsets, words) {
      var start: nat :| HasSize(target, decls - {d.name}, d.parentType, start)
                        && offsets == Offsets(target, d.members, start) && size == start + OwnSize(target, d.members);
      var n: nat :| SizeWithin(target, decls - {d.name}, d.parentType, n) == Some(start);
      SizeRestored(target, decls, d, d.parentType, n);
      assert SizeWithin(target, after, d.name, n + 1) == Some(size);
      assert HasSize(target, after, d.parentType, start);
    }
  }

  /** If the type keeps its size, so do all types below it. */
  lemma {:induction false} SizeTransfers(target: Target, decls: Declarations, d: TypeDecl, size: nat, x: string, n: nat)
    requires d.name == "Object" || (HasSize(target, decls, d.name, size) && HasSize(target, decls[d.name := d], d.name, size))
    requires SizeWithin(target, decls, x, n).Some?
    ensures HasSize(target, decls[d.name := d], x, SizeWithin(target, decls, x, n).value)
    decreases n
  {
    var after := decls[d.name := d];
    if x == "Object" {
      assert SizeWithin(target, after, x, 0) == Some(target.pointerSize);
    } else if x == d.name {
      assert HasSize(target, decls, x, SizeWithin(target, decls, x, n).value);
      SizeUnique(target, decls, x, size, SizeWithin(target, decls, x, n).value);
    } else {
      var parent := decls[x].parentType;
      SizeTransfers(target, decls, d, size, parent, n - 1);
      var m: nat :| SizeWithin(target, after, parent, m) == SizeWithin(target, decls, parent, n - 1);
      assert SizeWithin(target, after, x, m + 1) == SizeWithin(target, decls, x, n);
    }
  }

  lemma LaidTransfers(target: Target, decls: Declarations, d: TypeDecl, size: nat, k: string, s: int,
                      offsets: map<string, int>, words: map<string, string>)
    requires d.name == "Object" || (HasSize(target, decls, d.name, size) && HasSize(target, decls[d.name := d], d.name, size))
    requires k != d.name || k == "Object"
    requires Laid(target, decls, k, s, offsets, words)
    ensures Laid(target, decls[d.name := d], k, s, offsets, words)
  {
    var n: nat :| SizeWithin(target, decls, k, n) == Some(s);
    SizeTransfers(target, decls, d, size, k, n);
    if k != "Object" {
      var start: nat :| HasSize(target, decls, decls[k].parentType, start) && offsets == Offsets(target, decls[k].members, start);
      var m: nat :| SizeWithin(target, decls, decls[k].parentType, m) == Some(start);
      SizeTransfers(target, decls, d, size, decls[k].parentType, m);
    }
  }

  predicate Done(memo: map<string, bool>, name: string) {
    name in memo && memo[name]
  }

  /** Whatever is done, so are its ancestors. */
  ghost predicate Upwards(decls: Declarations, memo: map<string, bool>) {
    forall k | Done(memo, k) && k != "Object" :: k in decls && Done(memo, decls[k].parentType)
  }

  lemma UpwardsMore(decls: Declarations, memo: map<string, bool>, name: string)
    requires Upwards(decls, memo) && (name == "Object" || (name in decls && Done(memo, decls[name].parentType)))
    ensures Upwards(decls, memo[name := true])
  {
    forall k | Done(memo[name := true], k) && k != "Object"
      ensures k in decls && Done(memo[name := true], decls[k].parentType)
    {
      assert k != name ==> Done(memo, k);
    }
  }

  lemma UpwardsNotYet(decls: Declarations, memo: map<string, bool>, name: string)
    requires Upwards(decls, memo) && name !in memo
    ensures Upwards(decls, memo[name := false])
  {
    forall k | Done(memo[name := false], k) && k != "Object"
      ensures k in decls && Done(memo[name := false], decls[k].parentType)
    {
      assert Done(memo, k);
    }
  }

  lemma {:induction false} SizeUntouched(target: Target, decls: Declarations, d: TypeDecl, memo: map<string, bool>,
                                         x: string, n: nat)
    requires Upwards(decls, memo) && !Done(memo, d.name) && Done(memo, x) && SizeWithin(target, decls, x, n).Some?
    ensures SizeWithin(target, decls[d.name := d], x, n) == SizeWithin(target, decls, x, n)
    decreases n
  {
    if x != "Object" {
      SizeUntouched(target, decls, d, memo, decls[x].parentType, n - 1);
    }
  }

  lemma LaidUntouched(target: Target, decls: Declarations, d: TypeDecl, memo: map<string, bool>, k: string, s: int,
                      offsets: map<string, int>, words: map<string, string>)
    requires Upwards(decls, memo) && !Done(memo, d.name) && Done(memo, k) && Laid(target, decls, k, s, offsets, words)
    ensures Laid(target, decls[d.name := d], k, s, offsets, words)
  {
    var n: nat :| SizeWithin(target, decls, k, n) == Some(s);
    SizeUntouched(target, decls, d, memo, k, n);
    if k != "Object" {
      var start: nat :| HasSize(target, decls, decls[k].parentType, start) && offsets == Offsets(target, decls[k].members, start);
      var m: nat :| SizeWithin(target, decls, decls[k].parentType, m) == Some(start);
      SizeUntouched(target, decls, d, memo, decls[k].parentType, m);
    }
  }

  lemma ObjectLaid(target: Target, decls: Declarations)
    ensures Laid(target, decls, "Object", target.pointerSize, map[], map[])
  {
    assert SizeWithin(target, decls, "Object", 0) == Some(target.pointerSize);
  }

  lemma ChildLaid(target: Target, decls: Declarations, name: string, start: nat)
    requires name in decls && name != "Object" && HasSize(target, decls, decls[name].parentType, start)
    ensures var ms := decls[name].members;
            Laid(target, decls, name, start + OwnSize(target, ms), Offsets(target, ms, start), Words(target, ms))
  {
    var n: nat :| SizeWithin(target, decls, decls[name].parentType, n) == Some(start);
    assert SizeWithin(target, decls, name, n + 1) == Some(start + OwnSize(target, decls[name].members));
  }

  lemma NoParentSize(target: Target, decls: Declarations, name: string)
    requires name in decls && name != "Object" && NoSize(target, decls, decls[name].parentType)
    ensures NoSize(target, decls, name)
  {
  }

  /** The parents of declared types. `Object` is never looked up. */
  function Parents(decls: Declarations): map<string, string> {
    map k | k in decls && k != "Object" :: decls[k].parentType
  }

  /** The chain of parents of `name` has exactly `n` elements. */
  ghost predicate ChainLength(decls: Declarations, name: string, n: nat) {
    n > 0 && AncestorAt(Parents(decls), name, n - 1).Some? && AncestorAt(Parents(decls), name, n).None?
  }

  ghost predicate ChainEnds(decls: Declarations, name: string) {
    exists n: nat :: ChainLength(decls, name, n)
  }

  /** Without cycles of inheritance every chain ends. */
  lemma AcyclicChainEnds(decls: Declarations, name: string)
    requires Acyclic(Parents(decls))
    ensures ChainEnds(decls, name)
  {
    AcyclicEnds(Parents(decls), name);
    var n: nat := |Parents(decls)| + 1;
    while n > 0 && AncestorAt(Parents(decls), name, n - 1).None?
      invariant AncestorAt(Parents(decls), name, n).None?
    {
      n := n - 1;
    }
    assert n > 0;
    assert ChainLength(decls, name, n);
  }

  lemma ParentChain(decls: Declarations, name: string, n: nat)
    requires ChainLength(decls, name, n) && name in decls && name != "Object"
    ensures n > 1 && ChainLength(decls, decls[name].parentType, n - 1)
  {
    var parents := Parents(decls);
    assert AncestorAt(parents, name, 0) == Some(name);
    assert AncestorAt(parents, name, 1) == Some(decls[name].parentType);
    AncestorOfAncestor(parents, name, 1, n - 1);
    AncestorOfAncestor(parents, name, 1, n - 2);
  }

  /** What a query for an attribute's offset must give: -1 if the type itself does not declare it. */
  ghost predicate OffsetIs(target: Target, decls: Declarations, name: string, field: string, offset: int) {
    if name == "Object" then offset == -1
    else
      && name in decls
      && exists start: nat ::
           && HasSize(target, decls, decls[name].parentType, start)
           && offset == (var found := Offsets(target, decls[name].members, start);
                         if field in found then found[field] else -1)
  }

  /** The attributes that fill an object are found at their places, each by asking for the type that
      declares it. */
  lemma {:induction false} FieldsAnswered(target: Target, decls: Declarations, name: string, n: nat, f: Field)
    requires SizeWithin(target, decls, name, n).Some? && f in AllFields(target, decls, name, n)
    requires forall k | k in decls :: DistinctAttributes(decls[k].members)
    ensures OffsetIs(target, decls, f.owner, f.name, f.offset)
    decreases n
  {
    var parent := decls[name].parentType;
    var start := SizeWithin(target, decls, parent, n - 1).value;
    if f in AllFields(target, decls, parent, n - 1) {
      FieldsAnswered(target, decls, parent, n - 1, f);
    } else {
      assert f in OwnFields(target, name, decls[name].members, start);
      OffsetsAreFields(target, name, decls[name].members, start);
      assert HasSize(target, decls, parent, start);
    }
  }

  lemma NoMembers(target: Target, start: nat)
    ensures OwnSize(target, []) == 0 && Offsets(target, [], start) == map[] && Words(target, []) == map[]
  {
  }

  lemma NextMember(target: Target, members: seq<Member>, i: nat, start: nat)
    requires i < |members|
    ensures var done, more, m := members[..i], members[..i + 1], members[i];
            if m.Attribute? then
              && OwnSize(target, more) == OwnSize(target, done) + ByteSize(target, m.fieldType)
              && Offsets(target, more, start) == Offsets(target, done, start)[m.name := start + OwnSize(target, done)]
              && Words(target, more) == Words(target, done)[m.name := QbeType(target, m.fieldType)]
            else
              && OwnSize(target, more) == OwnSize(target, done) && Offsets(target, more, start) == Offsets(target, done, start)
              && Words(target, more) == Words(target, done)
  {
    assert members[..i + 1][..i] == members[..i];
  }

  // ---------- the register ----------

  class TypeRegister {
    const target: Target
    var declarations: Declarations
    var sizes: map<string, int>
    var offsets: map<string, map<string, int>>
    var wordSizes: map<string, map<string, string>>
    var computedLayout: map<string, bool>

    constructor (target: Target)
      ensures this.target == target && declarations == map[] && Valid() && Closed() && forall name :: !Computed(name)
    {
      this.target := target;
      declarations, sizes, offsets, wordSizes, computedLayout := map[], map[], map[], map[], map[];
    }

    predicate Computed(name: string)
      reads this`computedLayout
    {
      Done(computedLayout, name)
    }

    /** The ancestors of what has been computed have been computed. */
    ghost predicate Closed()
      reads this`declarations, this`computedLayout
    {
      Upwards(declarations, computedLayout)
    }

    function SizeFound(name: string): int
      reads this`sizes
    {
      if name in sizes then sizes[name] else 0
    }

    function OffsetsFound(name: string): map<string, int>
      reads this`offsets
    {
      if name in offsets then offsets[name] else map[]
    }

    function WordsFound(name: string): map<string, string>
      reads this`wordSizes
    {
      if name in wordSizes then wordSizes[name] else map[]
    }

    /** What has been computed is right, and nothing is half computed. */
    ghost predicate Valid()
      reads this
    {
      forall name :: ValidAt(name)
    }

    ghost predicate ValidAt(name: string)
      reads this
    {
      RightFor(declarations, name)
    }

    /** What the tables have for a type is its layout under the declarations `decls`. */
    ghost predicate RightFor(decls: Declarations, name: string)
      reads this`sizes, this`offsets, this`wordSizes, this`computedLayout
    {
      if Computed(name)
      then name in sizes && Laid(target, decls, name, sizes[name], OffsetsFound(name), WordsFound(name))
      else OffsetsFound(name) == map[] && WordsFound(name) == map[]
    }

    /** Registers a type. What has been computed stays right exactly when nothing was computed for the
        type, and so for no type below it, or the new declaration gives it the same layout. */
    method RegisterFromDeclaration(decl: TypeDecl)
      requires Valid()
      modifies this`declarations
      ensures declarations == old(declarations)[decl.name := decl]
      ensures decl.name !in old(declarations) ==> Valid()
      ensures old(Closed()) ==>
                (Valid() <==>
                 decl.name == "Object" || !Computed(decl.name) ||
                 SameLayout(target, old(declarations), decl, SizeFound(decl.name), OffsetsFound(decl.name),
                            WordsFound(decl.name)))
      ensures old(Closed()) ==>
                (Closed() <==> decl.name == "Object" || !Computed(decl.name) || Computed(decl.parentType))
    {
      hide Laid, SameLayout;
      ghost var before := declarations;
      forall k ensures RightFor(before, k) {
        assert ValidAt(k);
      }
      declarations := declarations[decl.name := decl];
      if decl.name !in before {
        forall name ensures ValidAt(name) {
          assert RightFor(before, name);
          if Computed(name) {
            LaidStays(target, before, decl, name, sizes[name], OffsetsFound(name), WordsFound(name));
          }
        }
      }
      if Upwards(before, computedLayout) {
        KeptExactly(before, decl);
      }
    }

    lemma KeptExactly(before: Declarations, decl: TypeDecl)
      requires declarations == before[decl.name := decl] && Upwards(before, computedLayout)
      requires forall k :: RightFor(before, k)
      ensures Valid() <==>
              decl.name == "Object" || !Computed(decl.name) ||
              SameLayout(target, before, decl, SizeFound(decl.name), OffsetsFound(decl.name), WordsFound(decl.name))
    {
      hide SameLayout, Laid;
      var name := decl.name;
      assert RightFor(before, name);
      if name != "Object" && Computed(name) {
        RelaidExactly(target, before, decl, sizes[name], OffsetsFound(name), WordsFound(name));
        assert ValidAt(name) <==> Laid(target, declarations, name, sizes[name], OffsetsFound(name), WordsFound(name));
      }
      if name != "Object" && !Computed(name) {
        forall k ensures ValidAt(k) {
          assert RightFor(before, k);
          if Computed(k) {
            LaidUntouched(target, before, decl, computedLayout, k, sizes[k], OffsetsFound(k), WordsFound(k));
          }
        }
      } else if name == "Object" || Laid(target, declarations, name, sizes[name], OffsetsFound(name), WordsFound(name)) {
        forall k ensures ValidAt(k) {
          assert RightFor(before, k);
          if Computed(k) && (k != name || k == "Object") {
            if name != "Object" {
              SizesKept(before, decl);
            }
            LaidTransfers(target, before, decl, if name == "Object" then 0 else sizes[name], k, sizes[k],
                          OffsetsFound(k), WordsFound(k));
          }
        }
      }
    }

    lemma SizesKept(before: Declarations, decl: TypeDecl)
      requires declarations == before[decl.name := decl] && decl.name in sizes
      requires Laid(target, before, decl.name, sizes[decl.name], OffsetsFound(decl.name), WordsFound(decl.name))
      requires Laid(target, declarations, decl.name, sizes[decl.name], OffsetsFound(decl.name), WordsFound(decl.name))
      ensures sizes[decl.name] >= 0 && HasSize(target, before, decl.name, sizes[decl.name])
      ensures HasSize(target, declarations, decl.name, sizes[decl.name])
    {
    }

    /** Computes the layout of a type unless it is known; `false` where the original throws, because a
        type is not declared. */
    method ComputeLayout(name: string, ghost length: nat) returns (ok: bool)
      requires Computed(name) || (Valid() && ChainLength(declarations, name, length))
      modifies this`sizes, this`offsets, this`wordSizes, this`computedLayout
      ensures old(Valid()) ==> Valid()
      ensures old(Closed()) ==> Closed()
      ensures ok ==> Computed(name)
      ensures old(Computed(name)) ==>
                ok && sizes == old(sizes) && offsets == old(offsets) && wordSizes == old(wordSizes) &&
                computedLayout == old(computedLayout)
      ensures !ok ==> NoSize(target, declarations, name)
      ensures forall k | Computed(k) && !old(Computed(k)) :: AncestorAt(Parents(declarations), k, length).None?
      decreases length
    {
      hide Laid, NoSize, Upwards;
      if name !in computedLayout {
        if Closed() {
          UpwardsNotYet(declarations, computedLayout, name);
        }
        computedLayout := computedLayout[name := false];
        assert forall k :: old(ValidAt(k)) ==> ValidAt(k);
      }
      if computedLayout[name] {
        return true;
      }
      if name == "Object" {
        LayObject();
        return true;
      }
      if name !in declarations {
        UndeclaredHasNoSize(target, declarations, name);
        return false;
      }
      var decl := declarations[name];
      ParentChain(declarations, name, length);
      ok := ComputeLayout(decl.parentType, length - 1);
      forall k | AncestorAt(Parents(declarations), k, length - 1).None?
        ensures AncestorAt(Parents(declarations), k, length).None?
      {
        NoAncestor(Parents(declarations), k, length - 1, length);
      }
      if !ok {
        NoParentSize(target, declarations, name);
        return;
      }
      LayChild(name, decl);
    }

    method LayObject()
      requires Valid() && !Computed("Object")
      modifies this`sizes, this`computedLayout
      ensures Valid() && (old(Closed()) ==> Closed()) && computedLayout == old(computedLayout)["Object" := true]
    {
      hide Laid, Upwards;
      assert ValidAt("Object");
      ObjectLaid(target, declarations);
      if Closed() {
        UpwardsMore(declarations, computedLayout, "Object");
      }
      sizes := sizes["Object" := target.pointerSize];
      computedLayout := computedLayout["Object" := true];
      assert forall k :: old(ValidAt(k)) ==> ValidAt(k);
    }

    method LayChild(name: string, decl: TypeDecl)
      requires Valid() && !Computed(name) && name != "Object" && name in declarations && declarations[name] == decl
      requires Computed(decl.parentType)
      modifies this`sizes, this`offsets, this`wordSizes, this`computedLayout
      ensures Valid() && (old(Closed()) ==> Closed()) && computedLayout == old(computedLayout)[name := true]
    {
      hide Laid, Upwards;
      assert ValidAt(decl.parentType) && ValidAt(name);
      LaidHasSize(target, declarations, decl.parentType, sizes[decl.parentType], OffsetsFound(decl.parentType),
                  WordsFound(decl.parentType));
      if Closed() {
        UpwardsMore(declarations, computedLayout, name);
      }
      FillOwn(name, decl, sizes[decl.parentType]);
    }

    /** The loop over the members of a type whose parent's size is known. */
    method FillOwn(name: string, decl: TypeDecl, start: nat)
      requires Valid() && !Computed(name) && name != "Object" && name in declarations && declarations[name] == decl
      requires HasSize(target, declarations, decl.parentType, start)
      modifies this`sizes, this`offsets, this`wordSizes, this`computedLayout
      ensures Valid()
      ensures computedLayout == old(computedLayout)[name := true]
    {
      hide HasSize, Laid, Offsets, Words, OwnSize;
      var currentOffset := start;
      assert ValidAt(name);
      NoMembers(target, start);
      for i := 0 to |decl.members|
        invariant currentOffset == start + OwnSize(target, decl.members[..i])
        invariant OffsetsFound(name) == Offsets(target, decl.members[..i], start)
        invariant WordsFound(name) == Words(target, decl.members[..i])
        invariant sizes == old(sizes) && computedLayout == old(computedLayout)
        invariant forall k | k != name :: OffsetsFound(k) == old(OffsetsFound(k)) && WordsFound(k) == old(WordsFound(k))
      {
        var member := decl.members[i];
        NextMember(target, decl.members, i, start);
        if member.Attribute? {
          offsets := offsets[name := OffsetsFound(name)[member.name := currentOffset]];
          wordSizes := wordSizes[name := WordsFound(name)[member.name := QbeType(target, member.fieldType)]];
          currentOffset := currentOffset + ByteSize(target, member.fieldType);
        }
      }
      assert decl.members[..|decl.members|] == decl.members;
      ChildLaid(target, declarations, name, start);
      sizes := sizes[name := currentOffset];
      computedLayout := computedLayout[name := true];
      assert forall k :: old(ValidAt(k)) ==> ValidAt(k);
    }

    /** The size of an object, whatever was asked before; `None` where the original throws. What has been
        computed once is not looked at again, even if it is no longer right. */
    method TotalSize(name: string) returns (size: Option<int>)
      requires Computed(name) || (Valid() && ChainEnds(declarations, name))
      modifies this`sizes, this`offsets, this`wordSizes, this`computedLayout
      ensures old(Valid()) ==> Valid() && SizeIs(target, declarations, name, size)
      ensures old(Closed()) ==> Closed()
      ensures size.Some? ==> Computed(name) && size == Some(SizeFound(name))
      ensures old(Computed(name)) ==> size == Some(old(SizeFound(name)))
    {
      hide HasSize, NoSize;
      ghost var length: nat := 0;
      if !Computed(name) {
        length :| ChainLength(declarations, name, length);
      }
      var ok := ComputeLayout(name, length);
      if !ok {
        return None;
      }
      assert Valid() ==> ValidAt(name);
      size := Some(SizeFound(name));
    }

    /** The offset of an attribute, -1 if the type itself does not declare it. */
    method GetOffset(name: string, field: string) returns (offset: Option<int>)
      requires Valid() && ChainEnds(declarations, name)
      modifies this`sizes, this`offsets, this`wordSizes, this`computedLayout
      ensures Valid() && (old(Closed()) ==> Closed())
      ensures match offset
              case None => NoSize(target, declarations, name)
              case Some(o) => OffsetIs(target, declarations, name, field, o)
    {
      hide HasSize, NoSize, Offsets, Words;
      ghost var length: nat :| ChainLength(declarations, name, length);
      var ok := ComputeLayout(name, length);
      if !ok {
        return None;
      }
      assert ValidAt(name);
      var found := OffsetsFound(name);
      offset := Some(if field in found then found[field] else -1);
    }

    /** The machine type of an attribute, empty if the type itself does not declare it. */
    method GetWordSize(name: string, field: string) returns (word: Option<string>)
      requires Valid() && ChainEnds(declarations, name)
      modifies this`sizes, this`offsets, this`wordSizes, this`computedLayout
      ensures Valid() && (old(Closed()) ==> Closed())
      ensures match word
              case None => NoSize(target, declarations, name)
              case Some(w) => WordIs(target, declarations, name, field, w)
    {
      hide Laid, NoSize, WordIs;
      ghost var length: nat :| ChainLength(declarations, name, length);
      var ok := ComputeLayout(name, length);
      if !ok {
        return None;
      }
      assert ValidAt(name);
      AskedWord(target, declarations, name, sizes[name], OffsetsFound(name), WordsFound(name), field);
      label Found:
      if field !in WordsFound(name) {
        wordSizes := wordSizes[name := WordsFound(name)[field := ""]];
      }
      forall k ensures ValidAt(k) {
        assert old@Found(ValidAt(k));
        assert k != name ==> WordsFound(k) == old@Found(WordsFound(k));
      }
      word := Some(WordsFound(name)[field]);
    }
  }

  /** A type's layout answers a query for a machine type and stays right when a missing entry is added. */
  lemma AskedWord(target: Target, decls: Declarations, name: string, size: int, offsets: map<string, int>,
                  words: map<string, string>, field: string)
    requires Laid(target, decls, name, size, offsets, words)
    ensures WordIs(target, decls, name, field, WordOf(words, field))
    ensures field !in words ==> Laid(target, decls, name, size, offsets, words[field := ""])
  {
    assert field !in words ==> forall f :: WordOf(words[field := ""], f) == WordOf(words, f);
  }

  lemma UndeclaredHasNoSize(target: Target, decls: Declarations, name: string)
    requires name !in decls && name != "Object"
    ensures NoSize(target, decls, name)
  {
  }

  lemma LaidHasSize(target: Target, decls: Declarations, name: string, size: int, offsets: map<string, int>,
                    words: map<string, string>)
    requires Laid(target, decls, name, size, offsets, words)
    ensures size >= 0 && HasSize(target, decls, name, size)
  {
  }

  ghost predicate WordIs(target: Target, decls: Declarations, name: string, field: string, word: string) {
    if name == "Object" then word == "" else name in decls && word == WordOf(Words(target, decls[name].members), field)
  }

  ghost predicate SizeIs(target: Target, decls: Declarations, name: string, size: Option<int>) {
    match size
    case Some(s) => s >= 0 && HasSize(target, decls, name, s)
    case None => NoSize(target, decls, name)
  }

  /** A type asked for, registered again and asked for once more: the answer stays what it was, and is
      the size of the new declaration exactly when that is the same. */
  method AskRegisterAsk(register: TypeRegister, decl: TypeDecl) returns (before: Option<int>, after: Option<int>)
    requires register.Valid() && ChainEnds(register.declarations, decl.name) && decl.name != "Object"
    modifies register
    ensures register.declarations == old(register.declarations)[decl.name := decl]
    ensures SizeIs(register.target, old(register.declarations), decl.name, before)
    ensures before.Some? ==> after == before
    ensures before.Some? ==>
              (SizeIs(register.target, register.declarations, decl.name, after) <==>
               exists start: nat :: HasSize(register.target, old(register.declarations) - {decl.name}, decl.parentType, start) &&
                                    start + OwnSize(register.target, decl.members) == before.value)
  {
    hide HasSize;
    before := register.TotalSize(decl.name);
    register.RegisterFromDeclaration(decl);
    after := None;
    if before.Some? {
      after := register.TotalSize(decl.name);
      NewSizeExactly(register.target, old(register.declarations), decl, after.value);
    }
  }

  lemma NewSizeExactly(target: Target, decls: Declarations, d: TypeDecl, size: int)
    requires d.name != "Object" && size >= 0
    ensures HasSize(target, decls[d.name := d], d.name, size) <==>
            exists start: nat :: HasSize(target, decls - {d.name}, d.parentType, start) &&
                                 start + OwnSize(target, d.members) == size
  {
    var after := decls[d.name := d];
    assert after - {d.name} == decls - {d.name};
    if HasSize(target, after, d.name, size) {
      var n: nat :| SizeWithin(target, after, d.name, n) == Some(size);
      var least := LeastBound(target, after, d.name, n);
      SizeGrows(target, after, d.name, least, n);
      SizeAvoids(target, after, d.name, d.parentType, least - 1);
      assert HasSize(target, decls - {d.name}, d.parentType, SizeWithin(target, after, d.parentType, least - 1).value);
    }
    if start: nat :| HasSize(target, decls - {d.name}, d.parentType, start) && start + OwnSize(target, d.members) == size {
      var n: nat :| SizeWithin(target, decls - {d.name}, d.parentType, n) == Some(start);
      SizeRestored(target, decls, d, d.parentType, n);
      assert SizeWithin(target, after, d.name, n + 1) == Some(size);
    }
  }
}
