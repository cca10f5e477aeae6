/** What the parser's cache gives when its file was cut short (compiler/frontend_cache.cpp). */
module ParserCuts {
  import opened CacheCuts
  import opened FrontendCaches
  import opened ParserCaches
  import opened TextStreams
  import opened Wrappers

  // ---------- reading from the fields left ----------

  function TakeEntry(items: seq<Item>): (seq<Item>, Entry) {
    var (i1, symbol) := TakeInt(items);
    var (i2, kind) := TakeInt(i1);
    var (i3, value) := TakeInt(i2);
    (i3, Entry(symbol, Action(kind, value)))
  }

  function TakeEntries(items: seq<Item>, count: nat): (seq<Item>, seq<Entry>) {
    if count == 0 then (items, [])
    else
      var before := TakeEntries(items, count - 1);
      var (i1, e) := TakeEntry(before.0);
      (i1, before.1 + [e])
  }

  function TakeAction(items: seq<Item>, count: nat): (seq<Item>, seq<seq<Entry>>) {
    if count == 0 then (items, [])
    else
      var before := TakeAction(items, count - 1);
      var (i1, size) := TakeInt(before.0);
      var (i2, es) := TakeEntries(i1, AsCount(size));
      (i2, before.1 + [es])
  }

  function TakeGoto(items: seq<Item>, count: nat): (seq<Item>, seq<seq<Pair>>) {
    if count == 0 then (items, [])
    else
      var before := TakeGoto(items, count - 1);
      var (i1, size) := TakeInt(before.0);
      var (i2, ps) := TakePairs(i1, AsCount(size));
      (i2, before.1 + [ps])
  }

  function TakeConflict(items: seq<Item>): (seq<Item>, Conflict) {
    var (i1, state) := TakeInt(items);
    var (i2, symbol) := TakeInt(i1);
    var (i3, detail) := TakeQuoted(i2);
    (i3, Conflict(state, symbol, detail))
  }

  function TakeConflicts(items: seq<Item>, count: nat): (seq<Item>, seq<Conflict>) {
    if count == 0 then (items, [])
    else
      var before := TakeConflicts(items, count - 1);
      var (i1, c) := TakeConflict(before.0);
      (i1, before.1 + [c])
  }

  function TakeSizes(items: seq<Item>): (seq<Item>, Sizes) {
    var (i1, symbols) := TakeInt(items);
    var (i2, productions) := TakeInt(i1);
    var (i3, dollar) := TakeInt(i2);
    (i3, Sizes(symbols, productions, dollar))
  }

  /** The tables' file as far as its fields are left. */
  function TakeTables(items: seq<Item>, z: Sizes): TablesFile {
    var (i1, actionCount) := TakeInt(items);
    var (i2, action) := TakeAction(i1, AsCount(actionCount));
    var (i3, gotoCount) := TakeInt(i2);
    var (i4, goto_) := TakeGoto(i3, AsCount(gotoCount));
    var (i5, conflictCount) := TakeInt(i4);
    var (_, conflicts) := TakeConflicts(i5, AsCount(conflictCount));
    TablesFile(z, action, goto_, conflicts)
  }

  // ---------- with nothing left ----------

  lemma EntryExhausted(s: Stream)
    requires Exhausted(s)
    ensures Exhausted(GetEntry(s).0) && TakeEntry([]) == ([], GetEntry(s).1)
  {
    hide GetInt;
    IntExhausted(s, UINT32);
    IntExhausted(GetInt(s, UINT32).0, INT);
    IntExhausted(GetInt(GetInt(s, UINT32).0, INT).0, INT);
  }

  lemma {:induction false} EntriesExhausted(s: Stream, count: nat)
    requires Exhausted(s)
    ensures Exhausted(GetEntries(s, count).0) && TakeEntries([], count) == ([], GetEntries(s, count).1)
    decreases count
  {
    hide GetEntry, TakeEntry;
    if count > 0 {
      EntriesExhausted(s, count - 1);
      EntryExhausted(GetEntries(s, count - 1).0);
    }
  }

  lemma {:induction false} ActionExhausted(s: Stream, count: nat)
    requires Exhausted(s)
    ensures Exhausted(GetAction(s, count).0) && TakeAction([], count) == ([], GetAction(s, count).1)
    decreases count
  {
    hide GetInt, GetEntries, TakeEntries;
    if count > 0 {
      ActionExhausted(s, count - 1);
      var s1 := GetAction(s, count - 1).0;
      IntExhausted(s1, UINT64);
      EntriesExhausted(GetInt(s1, UINT64).0, 0);
    }
  }

  lemma {:induction false} GotoExhausted(s: Stream, count: nat)
    requires Exhausted(s)
    ensures Exhausted(GetGoto(s, count).0) && TakeGoto([], count) == ([], GetGoto(s, count).1)
    decreases count
  {
    hide GetInt, GetPairs, TakePairs;
    if count > 0 {
      GotoExhausted(s, count - 1);
      var s1 := GetGoto(s, count - 1).0;
      IntExhausted(s1, UINT64);
      PairsExhausted(GetInt(s1, UINT64).0, UINT32, UINT32, 0);
    }
  }

  lemma ConflictExhausted(s: Stream)
    requires Exhausted(s)
    ensures Exhausted(GetConflict(s).0) && TakeConflict([]) == ([], GetConflict(s).1)
  {
    hide GetInt, GetQuoted;
    IntExhausted(s, UINT32);
    IntExhausted(GetInt(s, UINT32).0, UINT32);
    QuotedExhausted(GetInt(GetInt(s, UINT32).0, UINT32).0);
  }

  lemma {:induction false} ConflictsExhausted(s: Stream, count: nat)
    requires Exhausted(s)
    ensures Exhausted(GetConflicts(s, count).0) && TakeConflicts([], count) == ([], GetConflicts(s, count).1)
    decreases count
  {
    hide GetConflict, TakeConflict;
    if count > 0 {
      ConflictsExhausted(s, count - 1);
      ConflictExhausted(GetConflicts(s, count - 1).0);
    }
  }

  // ---------- over a cut text ----------

  lemma TakesEntry(s: Stream, e: Entry, items: seq<Item>, n: nat) returns (m: nat)
    requires Within(s, EntryItems(e) + items, n) && ItemsOk(items)
    ensures var taken := TakeEntry(CutItems(EntryItems(e) + items, n));
            GetEntry(s).1 == taken.1 && taken.0 == CutItems(items, m) && Within(GetEntry(s).0, items, m)
  {
    hide GetInt, Text, CutItems, TakeInt, Exhausted, At, ItemText, ItemsOk;
    var f0, f1, f2 := Number(UINT32, e.symbol, ' '), Number(INT, e.action.kind, ' '), Number(INT, e.action.value, '\n');
    assert EntryItems(e) + items == [f0] + ([f1] + ([f2] + items));
    TakesInt(s, UINT32, e.symbol, ' ', [f1] + ([f2] + items), n);
    var n1, s1 := After(n, |ItemText(f0)|), GetInt(s, UINT32).0;
    TakesInt(s1, INT, e.action.kind, ' ', [f2] + items, n1);
    var n2, s2 := After(n1, |ItemText(f1)|), GetInt(s1, INT).0;
    TakesInt(s2, INT, e.action.value, '\n', items, n2);
    m := After(n2, |ItemText(f2)|);
  }

  lemma {:induction false} TakesEntries(s: Stream, es: seq<Entry>, items: seq<Item>, n: nat, count: nat) returns (m: nat)
    requires Within(s, EntriesItems(es) + items, n) && ItemsOk(items) && (n > 0 ==> count == |es|)
    ensures var taken := TakeEntries(CutItems(EntriesItems(es) + items, n), count);
            GetEntries(s, count).1 == taken.1 && taken.0 == CutItems(items, m) && Within(GetEntries(s, count).0, items, m)
    decreases count
  {
    hide GetEntry, TakeEntry, EntryItems, Text, CutItems, Exhausted, At, ItemsOk;
    if n == 0 {
      m := 0;
      NothingLeft(EntriesItems(es) + items);
      NothingLeft(items);
      EntriesExhausted(s, count);
    } else if es == [] {
      assert EntriesItems(es) + items == items;
      m := n;
    } else {
      var k := |es| - 1;
      assert EntriesItems(es) + items == EntriesItems(es[..k]) + (EntryItems(es[k]) + items);
      LastOk(EntriesItems(es[..k]), EntryItems(es[k]), items);
      m := TakesEntries(s, es[..k], EntryItems(es[k]) + items, n, k);
      m := TakesEntry(GetEntries(s, k).0, es[k], items, m);
    }
  }

  lemma {:induction false} TakesAction(s: Stream, rows: seq<seq<Entry>>, items: seq<Item>, n: nat, count: nat)
    returns (m: nat)
    requires Within(s, ActionItems(rows) + items, n) && ItemsOk(items) && (n > 0 ==> count == |rows|)
    ensures var taken := TakeAction(CutItems(ActionItems(rows) + items, n), count);
            GetAction(s, count).1 == taken.1 && taken.0 == CutItems(items, m) && Within(GetAction(s, count).0, items, m)
    decreases count
  {
    hide GetInt, GetEntries, TakeEntries, TakeInt, EntriesItems, Text, CutItems, Exhausted, At, ItemsOk, ItemText;
    if n == 0 {
      m := 0;
      NothingLeft(ActionItems(rows) + items);
      NothingLeft(items);
      ActionExhausted(s, count);
    } else if rows == [] {
      assert ActionItems(rows) + items == items;
      m := n;
    } else {
      var k := |rows| - 1;
      var size, row := Number(UINT64, |rows[k]|, '\n'), EntriesItems(rows[k]);
      assert ActionItems(rows) + items == ActionItems(rows[..k]) + (([size] + row) + items);
      assert ([size] + row) + items == [size] + (row + items);
      LastOk(ActionItems(rows[..k]), [size] + row, items);
      m := TakesAction(s, rows[..k], [size] + (row + items), n, k);
      var s1 := GetAction(s, k).0;
      TakesInt(s1, UINT64, |rows[k]|, '\n', row + items, m);
      m := After(m, |ItemText(size)|);
      m := TakesEntries(GetInt(s1, UINT64).0, rows[k], items, m, GetInt(s1, UINT64).1);
    }
  }

  lemma {:induction false} TakesGoto(s: Stream, rows: seq<seq<Pair>>, items: seq<Item>, n: nat, count: nat)
    returns (m: nat)
    requires Within(s, GotoItems(rows) + items, n) && ItemsOk(items) && (n > 0 ==> count == |rows|)
    ensures var taken := TakeGoto(CutItems(GotoItems(rows) + items, n), count);
            GetGoto(s, count).1 == taken.1 && taken.0 == CutItems(items, m) && Within(GetGoto(s, count).0, items, m)
    decreases count
  {
    hide GetInt, GetPairs, TakePairs, TakeInt, PairItems, Text, CutItems, Exhausted, At, ItemsOk, ItemText;
    if n == 0 {
      m := 0;
      NothingLeft(GotoItems(rows) + items);
      NothingLeft(items);
      GotoExhausted(s, count);
    } else if rows == [] {
      assert GotoItems(rows) + items == items;
      m := n;
    } else {
      var k := |rows| - 1;
      var size, row := Number(UINT64, |rows[k]|, '\n'), PairItems(UINT32, UINT32, rows[k]);
      assert GotoItems(rows) + items == GotoItems(rows[..k]) + (([size] + row) + items);
      assert ([size] + row) + items == [size] + (row + items);
      LastOk(GotoItems(rows[..k]), [size] + row, items);
      m := TakesGoto(s, rows[..k], [size] + (row + items), n, k);
      var s1 := GetGoto(s, k).0;
      TakesInt(s1, UINT64, |rows[k]|, '\n', row + items, m);
      m := After(m, |ItemText(size)|);
      m := TakesPairs(GetInt(s1, UINT64).0, UINT32, UINT32, rows[k], items, m, GetInt(s1, UINT64).1);
    }
  }

  lemma TakesConflict(s: Stream, c: Conflict, items: seq<Item>, n: nat) returns (m: nat)
    requires Within(s, ConflictItems(c) + items, n) && ItemsOk(items)
    ensures var taken := TakeConflict(CutItems(ConflictItems(c) + items, n));
            GetConflict(s).1 == taken.1 && taken.0 == CutItems(items, m) && Within(GetConflict(s).0, items, m)
  {
    hide GetInt, GetQuoted, Text, CutItems, TakeInt, TakeQuoted, Exhausted, At, ItemText, ItemsOk;
    var f0, f1, f2 := Number(UINT32, c.state, ' '), Number(UINT32, c.symbol, ' '), Quoted(c.detail, '\n');
    assert ConflictItems(c) + items == [f0] + ([f1] + ([f2] + items));
    TakesInt(s, UINT32, c.state, ' ', [f1] + ([f2] + items), n);
    var n1, s1 := After(n, |ItemText(f0)|), GetInt(s, UINT32).0;
    TakesInt(s1, UINT32, c.symbol, ' ', [f2] + items, n1);
    var n2, s2 := After(n1, |ItemText(f1)|), GetInt(s1, UINT32).0;
    TakesQuoted(s2, c.detail, '\n', items, n2);
    m := After(n2, |ItemText(f2)|);
  }

  lemma {:induction false} TakesConflicts(s: Stream, cs: seq<Conflict>, items: seq<Item>, n: nat, count: nat)
    returns (m: nat)
    requires Within(s, ConflictsItems(cs) + items, n) && ItemsOk(items) && (n > 0 ==> count == |cs|)
    ensures var taken := TakeConflicts(CutItems(ConflictsItems(cs) + items, n), count);
            && GetConflicts(s, count).1 == taken.1 && taken.0 == CutItems(items, m)
            && Within(GetConflicts(s, count).0, items, m)
    decreases count
  {
    hide GetConflict, TakeConflict, ConflictItems, Text, CutItems, Exhausted, At, ItemsOk;
    if n == 0 {
      m := 0;
      NothingLeft(ConflictsItems(cs) + items);
      NothingLeft(items);
      ConflictsExhausted(s, count);
    } else if cs == [] {
      assert ConflictsItems(cs) + items == items;
      m := n;
    } else {
      var k := |cs| - 1;
      assert ConflictsItems(cs) + items == ConflictsItems(cs[..k]) + (ConflictItems(cs[k]) + items);
      LastOk(ConflictsItems(cs[..k]), ConflictItems(cs[k]), items);
      m := TakesConflicts(s, cs[..k], ConflictItems(cs[k]) + items, n, k);
      m := TakesConflict(GetConflicts(s, k).0, cs[k], items, m);
    }
  }

  lemma TakesSizes(s: Stream, z: Sizes, items: seq<Item>, n: nat) returns (m: nat)
    requires Within(s, SizesItems(z) + items, n) && ItemsOk(items)
    ensures var taken := TakeSizes(CutItems(SizesItems(z) + items, n));
            GetSizes(s).1 == taken.1 && taken.0 == CutItems(items, m) && Within(GetSizes(s).0, items, m)
  {
    hide GetInt, Text, CutItems, TakeInt, Exhausted, At, ItemText, ItemsOk;
    var f0, f1, f2 := Number(UINT64, z.symbols, ' '), Number(UINT64, z.productions, ' '), Number(UINT32, z.dollar, '\n');
    assert SizesItems(z) + items == [f0] + ([f1] + ([f2] + items));
    TakesInt(s, UINT64, z.symbols, ' ', [f1] + ([f2] + items), n);
    var n1, s1 := After(n, |ItemText(f0)|), GetInt(s, UINT64).0;
    TakesInt(s1, UINT64, z.productions, ' ', [f2] + items, n1);
    var n2, s2 := After(n1, |ItemText(f1)|), GetInt(s1, UINT64).0;
    TakesInt(s2, UINT32, z.dollar, '\n', items, n2);
    m := After(n2, |ItemText(f2)|);
  }

  lemma TakesTables(s: Stream, f: TablesFile, z: Sizes, n: nat)
    requires Within(s, TablesItems(f), n)
    ensures GetTables(s, z).1 == TakeTables(CutItems(TablesItems(f), n), z)
    ensures GetTables(s, z).0.Good() || GetTables(s, z).0.eof
  {
    hide GetInt, GetAction, GetGoto, GetConflicts, ActionItems, GotoItems, ConflictsItems, Text, CutItems, TakeInt, TakeAction,
      TakeGoto, TakeConflicts, At, ItemText, ItemsOk;
    var i6 := ConflictsItems(f.conflicts) + [];
    var c5 := Number(UINT64, |f.conflicts|, '\n');
    var i4 := GotoItems(f.goto_) + ([c5] + i6);
    var c3 := Number(UINT64, |f.goto_|, '\n');
    var i2 := ActionItems(f.action) + ([c3] + i4);
    var c1 := Number(UINT64, |f.action|, '\n');
    assert TablesItems(f) == [c1] + i2;
    TablesPartsOk(c1, i2, ActionItems(f.action), c3, i4, GotoItems(f.goto_), c5, i6);
    TakesInt(s, UINT64, |f.action|, '\n', i2, n);
    var n1, r1 := After(n, |ItemText(c1)|), GetInt(s, UINT64);
    var n2 := TakesAction(r1.0, f.action, [c3] + i4, n1, r1.1);
    var s2 := GetAction(r1.0, r1.1).0;
    TakesInt(s2, UINT64, |f.goto_|, '\n', i4, n2);
    var n3, r3 := After(n2, |ItemText(c3)|), GetInt(s2, UINT64);
    var n4 := TakesGoto(r3.0, f.goto_, [c5] + i6, n3, r3.1);
    var s4 := GetGoto(r3.0, r3.1).0;
    TakesInt(s4, UINT64, |f.conflicts|, '\n', i6, n4);
    var n5, r5 := After(n4, |ItemText(c5)|), GetInt(s4, UINT64);
    var n6 := TakesConflicts(r5.0, f.conflicts, [], n5, r5.1);
    AcceptedAtEnd(GetConflicts(r5.0, r5.1).0, n6);
  }

  lemma TablesPartsOk(c1: Item, i2: seq<Item>, a: seq<Item>, c3: Item, i4: seq<Item>, b: seq<Item>, c5: Item, i6: seq<Item>)
    requires ItemsOk([c1] + i2) && i2 == a + ([c3] + i4) && i4 == b + ([c5] + i6)
    ensures ItemsOk([c3] + i4) && ItemsOk([c5] + i6) && ItemsOk([])
  {
    hide ItemsOk;
    LastOk([c1], a, [c3] + i4);
    LastOk([c3], b, [c5] + i6);
    assert i6 + [] == i6;
    LastOk([c5], i6, []);
  }

  /** A written parser cache cut after any number of characters: it is accepted exactly when its header is
      there to the newline and is the expected one, and what is left of the sizes, read as numbers with
      zeros for missing ones, is what is expected; and it is read as tables with the fields that are left,
      the last of them cut short, and zeros and empty details for the rest. */
  lemma CutParserCache(f: TablesFile, h: Header, expected: Header, z: Sizes, n: nat)
    requires ItemsOk(SizesItems(f.sizes)) && ItemsOk(TablesItems(f)) && HeaderOk(h) && expected.version == CACHE_VERSION
    requires n <= |Text(HeaderItems(h) + (SizesItems(f.sizes) + TablesItems(f)))|
    ensures var length := |Text(HeaderItems(h))|;
            var text := Text(HeaderItems(h) + (SizesItems(f.sizes) + TablesItems(f)))[..n];
            ParseTablesText(text, expected, z) ==
            if n < length || h != expected then None
            else
              var (rest, sizes) := TakeSizes(CutItems(SizesItems(f.sizes) + TablesItems(f), n - length));
              if sizes != z then None
              else
                var g := TakeTables(rest, z);
                Some((TablesOf(g), g.conflicts))
  {
    hide ReadHeader, GetSizes, GetTables, TablesItems, HeaderItems, SizesItems, TablesOf, Text, CutItems, TakeSizes,
      TakeTables;
    var body := SizesItems(f.sizes) + TablesItems(f);
    var items := HeaderItems(h) + body;
    ItemsOkAppend(SizesItems(f.sizes), TablesItems(f));
    ItemsOkAppend(HeaderItems(h), body);
    var s := Stream(Text(items)[..n], false, false);
    assert Within(s, items, n);
    TakesHeader(s, h, expected, body, n);
    var length := |Text(HeaderItems(h))|;
    if n >= length {
      var s1 := ReadHeader(s, expected).0;
      var m := TakesSizes(s1, f.sizes, TablesItems(f), n - length);
      TakesTables(GetSizes(s1).0, f, z, m);
    }
  }
}
