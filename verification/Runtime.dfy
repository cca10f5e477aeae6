/** The inheritance and method tables of a running program (runtime/runtime.c), kept in hash tables. */
module Runtime {
  import opened Chains
  import opened Wrappers
  import opened HashSlots
  import opened HashMaps
  import opened Dispatch

  const WORD: nat := 8

  function Pow256(n: nat): (p: nat)
    ensures p > 0
  {
    if n == 0 then 1 else 256 * Pow256(n - 1)
  }

  /** A class or method id: a 64-bit word. */
  predicate IsId(n: nat) {
    n < Pow256(WORD)
  }

  /** The bytes of a word in memory, lowest first. */
  function BytesOf(n: nat, count: nat): (s: Key)
    ensures |s| == count
    decreases count
  {
    if count == 0 then "" else [(n % 256) as char] + BytesOf(n / 256, count - 1)
  }

  function Bytes(id: nat): (key: Key)
    ensures key != ""
  {
    BytesOf(id, WORD)
  }

  /** Different words are different keys. */
  lemma {:induction false} BytesInjective(a: nat, b: nat, count: nat)
    requires a < Pow256(count) && b < Pow256(count) && BytesOf(a, count) == BytesOf(b, count)
    ensures a == b
    decreases count
  {
    if count != 0 {
      assert BytesOf(a, count)[0] == BytesOf(b, count)[0];
      assert BytesOf(a, count)[1..] == BytesOf(b, count)[1..];
      BytesInjective(a / 256, b / 256, count - 1);
    }
  }

  /** The regions of memory: one for the inheritance table, one for the table of method maps, and one
      for the method map of each class. */
  datatype Region = Inheritance | Vtables | MethodMap(class_: nat)

  /** The table stands for `view` on word keys. */
  ghost predicate Shows<T>(contents: map<Key, Option<T>>, view: map<nat, Option<T>>) {
    forall c: nat | IsId(c) ::
      && (Bytes(c) in contents <==> c in view)
      && (c in view ==> contents[Bytes(c)] == view[c])
  }

  ghost function Present<T>(view: map<nat, T>): map<nat, Option<T>> {
    map c | c in view :: Some(view[c])
  }

  lemma PresentUpdate<T>(view: map<nat, T>, c: nat, value: T)
    ensures Present(view[c := value]) == Present(view)[c := Some(value)]
  {
  }

  lemma ShowsPut<T>(contents: map<Key, Option<T>>, view: map<nat, Option<T>>, c: nat, value: Option<T>)
    requires Shows(contents, view) && IsId(c)
    ensures Shows(contents[Bytes(c) := value], view[c := value])
  {
    hide Pow256;
    forall d: nat | IsId(d)
      ensures (Bytes(d) in contents[Bytes(c) := value] <==> d in view[c := value])
      ensures d in view[c := value] ==> contents[Bytes(c) := value][Bytes(d)] == view[c := value][d]
    {
      if Bytes(d) == Bytes(c) {
        BytesInjective(c, d, WORD);
      }
    }
  }

  ghost function MethodsOf(methods: Methods, c: nat): map<nat, Option<string>> {
    map k | k in methods && k.0 == c :: k.1 := methods[k]
  }

  lemma MethodsOfUpdate(methods: Methods, c: nat, m: nat, code: Option<string>, d: nat)
    ensures MethodsOf(methods[(c, m) := code], d) ==
            if d == c then MethodsOf(methods, d)[m := code] else MethodsOf(methods, d)
  {
    var after := methods[(c, m) := code];
    forall k | k in (if d == c then MethodsOf(methods, d)[m := code] else MethodsOf(methods, d))
      ensures k in MethodsOf(after, d)
    {
      assert (d, k) in after;
    }
  }

  lemma NoMethods(methods: Methods, c: nat)
    requires forall m: nat :: (c, m) !in methods
    ensures MethodsOf(methods, c) == map[] && Shows<string>(map[], MethodsOf(methods, c))
  {
  }

  class RuntimeTables {
    const hasher: Key -> nat
    var inheritanceMap: HashMap<nat>
    var vtableMap: HashMap<HashMap<string>>
    ghost var parents: Parents
    ghost var methods: Methods
    /** The method map of each class that has one. */
    ghost var tables: map<nat, HashMap<string>>
    /** The region that each object belongs to. */
    ghost var region: map<object, Region>

    ghost predicate Owned<T>(table: HashMap<T>, r: Region)
      reads this, table
    {
      && (table as object) in region && region[table as object] == r
      && (table.data as object) in region && region[table.data as object] == r
    }

    ghost predicate Separate()
      reads this, region.Keys
    {
      && (this as object) !in region
      && (inheritanceMap as object) in region && (vtableMap as object) in region
      && Owned(inheritanceMap, Inheritance) && Owned(vtableMap, Vtables)
      && (forall c | c in tables :: (tables[c] as object) in region && Owned(tables[c], MethodMap(c)))
    }

    /** The method maps show the methods of their classes. */
    ghost predicate MethodsShown()
      requires Separate()
      reads this, region.Keys
    {
      && (forall c | c in tables :: IsId(c) && tables[c].Valid() && Shows(tables[c].Contents(), MethodsOf(methods, c)))
      && (forall c, m: nat | (c, m) in methods :: c in tables)
    }

    ghost predicate ParentsShown()
      reads this, inheritanceMap, inheritanceMap.data
    {
      && inheritanceMap.Valid() && Shows(inheritanceMap.Contents(), Present(parents))
      && forall c | c in parents :: IsId(parents[c])
    }

    ghost predicate TablesShown()
      reads this, vtableMap, vtableMap.data
    {
      vtableMap.Valid() && Shows(vtableMap.Contents(), Present(tables))
    }

    ghost predicate Valid()
      reads this, region.Keys
    {
      Separate() && ParentsShown() && TablesShown() && MethodsShown()
    }

    /** Changes outside the method maps leave what they show. */
    twostate lemma MethodsKept()
      requires old(Separate()) && old(MethodsShown())
      requires tables == old(tables) && methods == old(methods) && Separate()
      requires forall o: object | o in old(region) && old(region)[o].MethodMap? :: unchanged(o)
      ensures MethodsShown()
    {
      hide HashMap.Valid, HashMap.Contents, Shows, MethodsOf;
      forall c | c in tables
        ensures IsId(c) && tables[c].Valid() && Shows(tables[c].Contents(), MethodsOf(methods, c))
      {
        var table: object := tables[c];
        var data: object := old(tables[c].data);
        assert table in old(region) && old(region)[table].MethodMap? && unchanged(table);
        assert data in old(region) && old(region)[data].MethodMap? && unchanged(data);
      }
    }

    /** Changes to at most the method map of `c` leave what the others show. */
    twostate lemma MethodsKeptExcept(c: nat)
      requires old(Separate()) && old(MethodsShown()) && Separate()
      requires forall d | d in tables && d != c ::
                 d in old(tables) && tables[d] == old(tables[d]) && MethodsOf(methods, d) == MethodsOf(old(methods), d)
      requires forall o: object | o in old(region) && old(region)[o].MethodMap? && old(region)[o].class_ != c ::
                 unchanged(o)
      requires c in tables ==> IsId(c) && tables[c].Valid() && Shows(tables[c].Contents(), MethodsOf(methods, c))
      requires forall d, m: nat | (d, m) in methods :: d in tables
      ensures MethodsShown()
    {
      hide HashMap.Valid, HashMap.Contents, Shows, MethodsOf;
      forall d | d in tables
        ensures IsId(d) && tables[d].Valid() && Shows(tables[d].Contents(), MethodsOf(methods, d))
      {
        if d != c {
          var table: object := tables[d];
          var data: object := old(tables[d].data);
          assert table in old(region) && old(region)[table] == MethodMap(d) && unchanged(table);
          assert data in old(region) && old(region)[data] == MethodMap(d) && unchanged(data);
        }
      }
    }

    constructor (hasher: Key -> nat)
      ensures Valid() && fresh(region.Keys)
      ensures parents == map[] && methods == map[]
    {
      hide HashMap.Valid, HashMap.Contents, Rounded, Pow2, Pow256, BytesOf;
      this.hasher := hasher;
      var inheritance := new HashMap<nat>(64, hasher);
      var vtables := new HashMap<HashMap<string>>(64, hasher);
      inheritanceMap, vtableMap := inheritance, vtables;
      parents, methods, tables := map[], map[], map[];
      region := map[inheritance := Inheritance, inheritance.data := Inheritance,
                    vtables := Vtables, vtables.data := Vtables];
    }

    /** Records the parent of a class; only a full inheritance table loses it. */
    method RegisterInheritance(child: nat, base: nat) returns (ghost stored: bool)
      requires Valid() && IsId(child) && IsId(base)
      modifies this, region.Keys
      ensures Valid() && fresh(region.Keys - old(region.Keys))
      ensures methods == old(methods)
      ensures parents == if stored then old(parents)[child := base] else old(parents)
      ensures !stored ==> inheritanceMap.log2 == 31
    {
      hide HashMap.Valid, HashMap.Contents, HashMap.Accepts, HashMap.StoredInPlace, Shows, Pow256, BytesOf, MethodsOf,
        Present;
      ghost var contents := inheritanceMap.Contents();
      var status := inheritanceMap.Put(Some(Bytes(child)), Some(base));
      stored := status == 0;
      region := region[inheritanceMap.data := Inheritance];
      if stored {
        ShowsPut(contents, Present(parents), child, Some(base));
        PresentUpdate(parents, child, base);
        parents := parents[child := base];
      }
      assert Separate();
      assert ParentsShown();
      assert TablesShown();
      MethodsKept();
    }

    /** Failing to add a method map keeps everything. */
    twostate lemma ValidAfterRefusal()
      requires old(Valid())
      requires inheritanceMap == old(inheritanceMap) && vtableMap == old(vtableMap)
      requires methods == old(methods) && parents == old(parents) && tables == old(tables)
      requires region == old(region)[vtableMap.data := Vtables] && (this as object) !in region
      requires (vtableMap.data as object) in old(region) ==> old(region)[vtableMap.data as object] == Vtables
      requires forall o: object | o in old(region) && old(region)[o] != Vtables :: unchanged(o)
      requires TablesShown()
      ensures Valid()
    {
      hide HashMap.Valid, HashMap.Contents, Shows, MethodsOf, Present, Pow256, TablesShown, MethodsShown;
      assert unchanged(inheritanceMap);
      forall d | d in tables ensures (tables[d] as object) in region && Owned(tables[d], MethodMap(d)) {
        var other: object := tables[d];
        assert old(region)[other] == MethodMap(d) && unchanged(other);
      }
      assert ParentsShown();
      MethodsKept();
    }

    /** Adding a method map keeps everything. */
    twostate lemma ValidAfterTable(c: nat, new table: HashMap<string>)
      requires old(Valid()) && c !in old(tables) && IsId(c)
      requires inheritanceMap == old(inheritanceMap) && vtableMap == old(vtableMap)
      requires methods == old(methods) && parents == old(parents) && tables == old(tables)[c := table]
      requires region == old(region)[vtableMap.data := Vtables][table := MethodMap(c)][table.data := MethodMap(c)]
      requires (this as object) !in region
      requires fresh(table) && fresh(table.data) && table.Valid() && table.Contents() == map[]
      requires (vtableMap.data as object) in old(region) ==> old(region)[vtableMap.data as object] == Vtables
      requires (vtableMap.data as object) != table.data
      requires forall o: object | o in old(region) && old(region)[o] != Vtables :: unchanged(o)
      requires TablesShown()
      ensures Valid()
    {
      hide HashMap.Valid, HashMap.Contents, Shows, MethodsOf, Present, Pow256, TablesShown, MethodsShown, Separate,
        Owned;
      SeparateAfterTable(c, table);
      assert ParentsShown() by {
        ParentsAfterTable(c, table);
      }
      NoMethods(methods, c) by {
        Undefined(c);
      }
      assert forall d, m: nat | (d, m) in methods :: d in tables by {
        Undefined(c);
      }
      MethodsKeptExcept(c);
    }

    twostate lemma ParentsAfterTable(c: nat, new table: HashMap<string>)
      requires old(Valid()) && inheritanceMap == old(inheritanceMap) && parents == old(parents)
      requires forall o: object | o in old(region) && old(region)[o] != Vtables :: unchanged(o)
      ensures ParentsShown()
    {
      hide HashMap.Valid, HashMap.Contents, Shows, Present;
      var data: object := old(inheritanceMap.data);
      assert unchanged(inheritanceMap) && unchanged(data);
    }

    twostate lemma SeparateAfterTable(c: nat, new table: HashMap<string>)
      requires old(Separate()) && c !in old(tables)
      requires inheritanceMap == old(inheritanceMap) && vtableMap == old(vtableMap)
      requires tables == old(tables)[c := table]
      requires region == old(region)[vtableMap.data := Vtables][table := MethodMap(c)][table.data := MethodMap(c)]
      requires (this as object) !in region && fresh(table) && fresh(table.data)
      requires (vtableMap.data as object) in old(region) ==> old(region)[vtableMap.data as object] == Vtables
      requires (vtableMap.data as object) != table.data
      requires forall o: object | o in old(region) && old(region)[o] != Vtables :: unchanged(o)
      ensures Separate()
    {
      assert unchanged(inheritanceMap);
      forall d | d in tables ensures (tables[d] as object) in region && Owned(tables[d], MethodMap(d)) {
        if d in old(tables) {
          var other: object := tables[d];
          assert old(region)[other] == MethodMap(d) && unchanged(other);
        }
      }
    }

    twostate lemma Undefined(c: nat)
      requires old(Separate()) && old(MethodsShown()) && methods == old(methods)
      ensures c !in old(tables) ==> forall m: nat :: (c, m) !in methods
      ensures forall d, m: nat | (d, m) in methods :: d in old(tables)
    {
    }

    /** Makes the method map of a class that has none; only a full table of method maps loses it. */
    method AddMethodMap(c: nat) returns (table: HashMap<string>, ghost stored: bool)
      requires Valid() && IsId(c) && c !in tables
      modifies this, region.Keys
      ensures Valid() && fresh(region.Keys - old(region.Keys))
      ensures methods == old(methods) && parents == old(parents)
      ensures table.Valid() && table.Contents() == map[] && fresh(table) && fresh(table.data)
      ensures stored ==> tables == old(tables)[c := table]
      ensures !stored ==> tables == old(tables) && vtableMap.log2 == 31
      ensures !stored ==> (table as object) !in region && (table.data as object) !in region
      ensures table != this as object
    {
      hide HashMap.Valid, HashMap.Contents, HashMap.Accepts, HashMap.StoredInPlace, Shows, Pow256, BytesOf, MethodsOf,
        Present, Rounded, Pow2, Separate, Owned, ParentsShown, MethodsShown;
      Own();
      table := new HashMap<string>(16, hasher);
      ghost var contents := vtableMap.Contents();
      var status := vtableMap.Put(Some(Bytes(c)), Some(table));
      stored := status == 0;
      region := region[vtableMap.data := Vtables];
      if stored {
        ShowsPut(contents, Present(tables), c, Some(table));
        PresentUpdate(tables, c, table);
        tables := tables[c := table];
        region := region[table := MethodMap(c)][table.data := MethodMap(c)];
      }
      if stored {
        ValidAfterTable(c, table);
      } else {
        ValidAfterRefusal();
      }
    }

    lemma Own()
      requires Valid()
      ensures (this as object) !in region
      ensures (vtableMap as object) in region && region[vtableMap as object] == Vtables
      ensures (vtableMap.data as object) in region && region[vtableMap.data as object] == Vtables
    {
    }

    lemma FoundTable(c: nat)
      requires Valid() && IsId(c)
      ensures vtableMap.Valid()
      ensures Bytes(c) in vtableMap.Contents() <==> c in tables
      ensures c in tables ==> vtableMap.Contents()[Bytes(c)] == Some(tables[c])
    {
      hide HashMap.Valid, HashMap.Contents, Separate, MethodsShown, Pow256, BytesOf;
    }

    lemma Attached(c: nat)
      requires Valid() && c in tables
      ensures tables[c].Valid() && Shows(tables[c].Contents(), MethodsOf(methods, c))
      ensures (this as object) !in region
      ensures (tables[c] as object) in region && region[tables[c] as object] == MethodMap(c)
      ensures (tables[c].data as object) in region && region[tables[c].data as object] == MethodMap(c)
      ensures forall d, m: nat | (d, m) in methods :: d in tables
    {
    }

    lemma Apart(c: nat)
      requires Valid()
      ensures c in tables ==> tables[c] != this as object && tables[c].data != this as object
      ensures c in tables ==> (tables[c] as object) in region && (tables[c].data as object) in region
    {
    }

    /** A change to the method map of `c` that shows keeps everything. */
    twostate lemma ValidAfterMethod(c: nat)
      requires old(Valid()) && c in old(tables) && IsId(c)
      requires inheritanceMap == old(inheritanceMap) && vtableMap == old(vtableMap)
      requires tables == old(tables) && parents == old(parents)
      requires region == old(region)[tables[c].data := MethodMap(c)] && (this as object) !in region
      requires (tables[c].data as object) in old(region) ==> old(region)[tables[c].data as object] == MethodMap(c)
      requires forall o: object | o in old(region) && old(region)[o] != MethodMap(c) :: unchanged(o)
      requires tables[c].Valid() && Shows(tables[c].Contents(), MethodsOf(methods, c))
      requires forall d | d in tables && d != c :: MethodsOf(methods, d) == MethodsOf(old(methods), d)
      requires forall d, m: nat | (d, m) in methods :: d in tables
      ensures Valid()
    {
      hide HashMap.Valid, HashMap.Contents, Shows, MethodsOf, Present, Pow256;
      SeparateAfterMethod(c);
      assert ParentsShown();
      assert TablesShown();
      MethodsKeptExcept(c);
    }

    twostate lemma SeparateAfterMethod(c: nat)
      requires old(Separate()) && c in old(tables)
      requires inheritanceMap == old(inheritanceMap) && vtableMap == old(vtableMap) && tables == old(tables)
      requires region == old(region)[tables[c].data := MethodMap(c)] && (this as object) !in region
      requires (tables[c].data as object) in old(region) ==> old(region)[tables[c].data as object] == MethodMap(c)
      requires forall o: object | o in old(region) && old(region)[o] != MethodMap(c) :: unchanged(o)
      ensures Separate()
    {
      var data: object := tables[c].data;
      assert unchanged(inheritanceMap) && unchanged(vtableMap);
      forall d | d in tables ensures (tables[d] as object) in region && Owned(tables[d], MethodMap(d)) {
        if d != c {
          var table: object := tables[d];
          assert old(region)[table] == MethodMap(d) && unchanged(table);
        }
      }
    }

    /** Puts the code into the class's method map, or into one that got lost. */
    method PutMethod(table: HashMap<string>, ghost attached: bool, c: nat, m: nat, code: Option<string>)
      returns (status: int)
      requires Valid() && IsId(c) && IsId(m)
      requires attached ==> c in tables && table == tables[c]
      requires !attached ==> table.Valid() && (table as object) !in region && (table.data as object) !in region
      requires table != this as object && table.data != this as object
      modifies this, region.Keys, table, table.data
      ensures Valid() && fresh(region.Keys - old(region.Keys))
      ensures parents == old(parents) && tables == old(tables)
      ensures methods == if attached && status == 0 then old(methods)[(c, m) := code] else old(methods)
      ensures status == 0 || status == 1
      ensures attached && status == 1 ==> table.log2 == 31
      ensures !attached ==> vtableMap.log2 == old(vtableMap.log2)
    {
      hide HashMap.Valid, HashMap.Contents, HashMap.Accepts, HashMap.StoredInPlace, Shows, Pow256, BytesOf, MethodsOf,
        Present, Separate, Owned, ParentsShown, TablesShown, MethodsShown;
      ghost var contents := table.Contents();
      if attached {
        Attached(c);
      }
      status := table.Put(Some(Bytes(m)), code);
      if attached {
        region := region[table.data := MethodMap(c)];
        if status == 0 {
          ShowsPut(contents, MethodsOf(methods, c), m, code);
          forall d ensures MethodsOf(methods[(c, m) := code], d) ==
                           if d == c then MethodsOf(methods, d)[m := code] else MethodsOf(methods, d)
          {
            MethodsOfUpdate(methods, c, m, code, d);
          }
          methods := methods[(c, m) := code];
        }
        ValidAfterMethod(c);
      }
    }

    /** Records the code of a method, replacing what the class had for it; only a full table loses it. */
    method RegisterMethod(c: nat, m: nat, code: Option<string>) returns (ghost stored: bool)
      requires Valid() && IsId(c) && IsId(m)
      modifies this, region.Keys
      ensures Valid() && fresh(region.Keys - old(region.Keys))
      ensures parents == old(parents)
      ensures methods == if stored then old(methods)[(c, m) := code] else old(methods)
      ensures !stored ==> vtableMap.log2 == 31 || (c in tables && tables[c].log2 == 31)
    {
      hide HashMap.Valid, HashMap.Contents, HashMap.Accepts, HashMap.StoredInPlace, Shows, Pow256, BytesOf, MethodsOf,
        Present, Separate, MethodsShown;
      var found := vtableMap.Get(Some(Bytes(c)));
      FoundTable(c);
      Apart(c);
      var table: HashMap<string>;
      stored := true;
      if found.None? {
        table, stored := AddMethodMap(c);
      } else {
        table := found.value;
      }
      var status := PutMethod(table, stored, c, m, code);
      stored := stored && status == 0;
    }

    lemma FoundParent(c: nat)
      requires Valid() && IsId(c)
      ensures inheritanceMap.Valid()
      ensures Bytes(c) in inheritanceMap.Contents() <==> c in parents
      ensures c in parents ==> inheritanceMap.Contents()[Bytes(c)] == Some(parents[c]) && IsId(parents[c])
    {
      hide HashMap.Valid, HashMap.Contents, Separate, MethodsShown, TablesShown, Pow256, BytesOf;
    }

    lemma FoundMethod(c: nat, m: nat)
      requires Valid() && IsId(c) && IsId(m)
      ensures c !in tables ==> Finds(methods, c, m).None?
      ensures c in tables ==>
                && tables[c].Valid()
                && Finds(methods, c, m) ==
                   if Bytes(m) in tables[c].Contents() then tables[c].Contents()[Bytes(m)] else None
    {
      hide HashMap.Valid, HashMap.Contents, Separate, ParentsShown, TablesShown, Pow256, BytesOf;
      if c in tables {
        assert m in MethodsOf(methods, c) <==> (c, m) in methods;
        assert Shows(tables[c].Contents(), MethodsOf(methods, c));
      }
    }

    /** The parent of a class, zero for a class without one. */
    method Parent(currentId: nat) returns (parent: nat)
      requires Valid() && IsId(currentId)
      ensures parent == if currentId in parents then parents[currentId] else 0
    {
      hide HashMap.Valid, HashMap.Contents, Valid, Pow256, BytesOf;
      FoundParent(currentId);
      var found := inheritanceMap.Get(Some(Bytes(currentId)));
      parent := if found.None? then 0 else found.value;
    }

    /** The code of the nearest class up the chain that has the method. The search needs an end: some
        ancestor with the method, or one without a parent. */
    method GetVirtualMethod(classId: nat, methodId: nat) returns (code: Option<string>)
      requires Valid() && IsId(classId) && IsId(methodId)
      requires SearchEnds(parents, methods, classId, methodId)
      ensures NearestCode(parents, methods, classId, methodId, code)
    {
      hide HashMap.Valid, HashMap.Contents, Valid, Pow256, BytesOf, Finds;
      ghost var n: nat :| Stops(parents, methods, classId, methodId, n);
      ghost var k: nat := 0;
      var current := classId;
      while true
        invariant Valid() && IsId(current) && AncestorAt(parents, classId, k) == Some(current)
        invariant forall j: nat | j < k :: !Stops(parents, methods, classId, methodId, j)
        decreases n - k
      {
        var table := vtableMap.Get(Some(Bytes(current))) by {
          FoundTable(current);
        }
        FoundTable(current);
        FoundMethod(current, methodId);
        if table.Some? {
          var found := table.value.Get(Some(Bytes(methodId)));
          if found.Some? {
            return found;
          }
        }
        assert !Stops(parents, methods, classId, methodId, k);
        FoundParent(current);
        var parent := inheritanceMap.Get(Some(Bytes(current)));
        if parent.None? {
          NoneFurther(parents, methods, classId, methodId, k);
          return None;
        }
        current := parent.value;
        k := k + 1;
      }
    }

    /** The registrations of a program, one after the other. */
    method RegisterAll(calls: seq<Registration>) returns (ghost stored: bool)
      requires Valid()
      requires forall i | 0 <= i < |calls| :: CallIds(calls[i])
      modifies this, region.Keys
      ensures Valid() && fresh(region.Keys - old(region.Keys))
      ensures stored ==> parents == ParentsAfter(old(parents), calls) && methods == MethodsAfter(old(methods), calls)
    {
      hide Valid, Pow256;
      stored := true;
      for i := 0 to |calls|
        invariant Valid() && fresh(region.Keys - old(region.Keys))
        invariant stored ==> parents == ParentsAfter(old(parents), calls[..i])
        invariant stored ==> methods == MethodsAfter(old(methods), calls[..i])
      {
        assert calls[..i + 1] == calls[..i] + [calls[i]];
        ParentsAppend(old(parents), calls[..i], [calls[i]]);
        MethodsAppend(old(methods), calls[..i], [calls[i]]);
        ghost var one: bool;
        match calls[i] {
          case Inherits(child, parent) =>
            one := RegisterInheritance(child, parent);
          case Defines(c, m, code) =>
            one := RegisterMethod(c, m, code);
        }
        stored := stored && one;
      }
      assert calls[..|calls|] == calls;
    }

    /** A virtual call in a program whose registrations, all stored, are those that code generation
        emits: it finds an end, and the code of static resolution. */
    method CallVirtual(ghost decls: seq<TypeDecl>, address: string -> nat, c: string, m: string)
      returns (code: Option<string>)
      requires Valid() && Injective(address) && DistinctTypes(decls) && DeclaredAcyclic(decls)
      requires parents == ParentsAfter(map[], Emit(decls, address)) && methods == MethodsAfter(map[], Emit(decls, address))
      requires IsId(address(c)) && IsId(address(m))
      ensures StaticCode(decls, c, m, code)
    {
      hide Valid, IsId, StaticCode, NearestCode;
      SearchesEnd(decls, address, methods, address(c), address(m));
      code := GetVirtualMethod(address(c), address(m));
      DispatchIsStatic(decls, address, c, m, code);
    }
  }

  predicate CallIds(call: Registration) {
    match call
    case Inherits(child, parent) => IsId(child) && IsId(parent)
    case Defines(c, m, _) => IsId(c) && IsId(m)
  }

  /** Past a class without a parent there is nothing to find. */
  lemma NoneFurther(parents: Parents, methods: Methods, c: nat, m: nat, k: nat)
    requires AncestorAt(parents, c, k).Some? && AncestorAt(parents, c, k).value !in parents
    requires forall j: nat | j <= k :: !Stops(parents, methods, c, m, j)
    ensures NearestCode(parents, methods, c, m, None)
  {
    forall j: nat | AncestorAt(parents, c, j).Some?
      ensures Finds(methods, AncestorAt(parents, c, j).value, m).None?
    {
      if j <= k {
        assert !Stops(parents, methods, c, m, j);
      } else {
        AncestorOfAncestor(parents, c, k, 1);
        NoAncestor(parents, c, k + 1, j);
      }
    }
  }
}
