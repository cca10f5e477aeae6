/** The cache of the parser's tables (compiler/frontend_cache.cpp). */
module ParserCaches {
  import opened FrontendCaches
  import opened TextStreams
  import opened Wrappers

  /** An entry of the ACTION table; `kind` is the number of shift, reduce, accept or error. */
  datatype Action = Action(kind: int, value: int)

  datatype ParseTables = ParseTables(action: seq<map<int, Action>>, goto_: seq<map<int, int>>)

  datatype Conflict = Conflict(state: int, symbol: int, detail: string)

  /** What the tables must have been built for. */
  datatype Sizes = Sizes(symbols: int, productions: int, dollar: int)

  datatype Entry = Entry(symbol: int, action: Action)

  /** What the file of the tables lists, in the order in which the containers were walked. */
  datatype TablesFile = TablesFile(sizes: Sizes, action: seq<seq<Entry>>, goto_: seq<seq<Pair>>, conflicts: seq<Conflict>)

  // ---------- rows of the ACTION table ----------

  function EntryItems(e: Entry): seq<Item> {
    [Number(UINT32, e.symbol, ' '), Number(INT, e.action.kind, ' '), Number(INT, e.action.value, '\n')]
  }

  function EntriesItems(es: seq<Entry>): seq<Item> {
    if es == [] then [] else EntriesItems(es[..|es| - 1]) + EntryItems(es[|es| - 1])
  }

  function GetEntry(s: Stream): (Stream, Entry) {
    var (s1, symbol) := GetInt(s, UINT32);
    var (s2, kind) := GetInt(s1, INT);
    var (s3, value) := GetInt(s2, INT);
    (s3, Entry(symbol, Action(kind, value)))
  }

  function GetEntries(s: Stream, count: nat): (Stream, seq<Entry>) {
    if count == 0 then (s, [])
    else
      var before := GetEntries(s, count - 1);
      var (s1, e) := GetEntry(before.0);
      (s1, before.1 + [e])
  }

  lemma ReadsEntry(s: Stream, e: Entry, items: seq<Item>)
    requires Before(s, EntryItems(e) + items)
    ensures GetEntry(s).1 == e && Before(GetEntry(s).0, items)
  {
    hide GetInt, Before;
    var i2 := [Number(INT, e.action.value, '\n')] + items;
    var i1 := [Number(INT, e.action.kind, ' ')] + i2;
    assert EntryItems(e) + items == [Number(UINT32, e.symbol, ' ')] + i1;
    ReadsNumber(s, UINT32, e.symbol, ' ', i1);
    var s1 := GetInt(s, UINT32).0;
    ReadsNumber(s1, INT, e.action.kind, ' ', i2);
    ReadsNumber(GetInt(s1, INT).0, INT, e.action.value, '\n', items);
  }

  lemma {:induction false} ReadsEntries(s: Stream, es: seq<Entry>, items: seq<Item>)
    requires Before(s, EntriesItems(es) + items)
    ensures GetEntries(s, |es|).1 == es && Before(GetEntries(s, |es|).0, items)
    decreases es
  {
    hide GetEntry, Before, EntryItems;
    if es == [] {
      assert EntriesItems(es) + items == items;
    } else {
      var n := |es| - 1;
      assert EntriesItems(es) + items == EntriesItems(es[..n]) + (EntryItems(es[n]) + items);
      ReadsEntries(s, es[..n], EntryItems(es[n]) + items);
      ReadsEntry(GetEntries(s, n).0, es[n], items);
      assert es == es[..n] + [es[n]];
    }
  }

  function ActionRow(es: seq<Entry>): map<int, Action> {
    if es == [] then map[] else ActionRow(es[..|es| - 1])[es[|es| - 1].symbol := es[|es| - 1].action]
  }

  function ActionItems(rows: seq<seq<Entry>>): seq<Item> {
    if rows == [] then []
    else
      var last := rows[|rows| - 1];
      ActionItems(rows[..|rows| - 1]) + ([Number(UINT64, |last|, '\n')] + EntriesItems(last))
  }

  function GetAction(s: Stream, count: nat): (Stream, seq<seq<Entry>>) {
    if count == 0 then (s, [])
    else
      var before := GetAction(s, count - 1);
      var (s1, size) := GetInt(before.0, UINT64);
      var (s2, es) := GetEntries(s1, size);
      (s2, before.1 + [es])
  }

  lemma {:induction false} ReadsAction(s: Stream, rows: seq<seq<Entry>>, items: seq<Item>)
    requires Before(s, ActionItems(rows) + items)
    ensures GetAction(s, |rows|).1 == rows && Before(GetAction(s, |rows|).0, items)
    decreases rows
  {
    hide GetInt, GetEntries, EntriesItems, Before;
    if rows == [] {
      assert ActionItems(rows) + items == items;
    } else {
      var n := |rows| - 1;
      var row := EntriesItems(rows[n]) + items;
      var counted := [Number(UINT64, |rows[n]|, '\n')] + row;
      assert ActionItems(rows) + items == ActionItems(rows[..n]) + counted;
      ReadsAction(s, rows[..n], counted);
      var s1 := GetAction(s, n).0;
      ReadsNumber(s1, UINT64, |rows[n]|, '\n', row);
      ReadsEntries(GetInt(s1, UINT64).0, rows[n], items);
      assert rows == rows[..n] + [rows[n]];
    }
  }

  // ---------- rows of the GOTO table ----------

  function GotoItems(rows: seq<seq<Pair>>): seq<Item> {
    if rows == [] then []
    else
      var last := rows[|rows| - 1];
      GotoItems(rows[..|rows| - 1]) + ([Number(UINT64, |last|, '\n')] + PairItems(UINT32, UINT32, last))
  }

  function GetGoto(s: Stream, count: nat): (Stream, seq<seq<Pair>>) {
    if count == 0 then (s, [])
    else
      var before := GetGoto(s, count - 1);
      var (s1, size) := GetInt(before.0, UINT64);
      var (s2, ps) := GetPairs(s1, UINT32, UINT32, size);
      (s2, before.1 + [ps])
  }

  lemma {:induction false} ReadsGoto(s: Stream, rows: seq<seq<Pair>>, items: seq<Item>)
    requires Before(s, GotoItems(rows) + items)
    ensures GetGoto(s, |rows|).1 == rows && Before(GetGoto(s, |rows|).0, items)
    decreases rows
  {
    hide GetInt, GetPairs, PairItems, Before;
    if rows == [] {
      assert GotoItems(rows) + items == items;
    } else {
      var n := |rows| - 1;
      var row := PairItems(UINT32, UINT32, rows[n]) + items;
      var counted := [Number(UINT64, |rows[n]|, '\n')] + row;
      assert GotoItems(rows) + items == GotoItems(rows[..n]) + counted;
      ReadsGoto(s, rows[..n], counted);
      var s1 := GetGoto(s, n).0;
      ReadsNumber(s1, UINT64, |rows[n]|, '\n', row);
      ReadsPairs(GetInt(s1, UINT64).0, UINT32, UINT32, rows[n], items);
      assert rows == rows[..n] + [rows[n]];
    }
  }

  // ---------- conflicts ----------

  function ConflictItems(c: Conflict): seq<Item> {
    [Number(UINT32, c.state, ' '), Number(UINT32, c.symbol, ' '), Quoted(c.detail, '\n')]
  }

  function ConflictsItems(cs: seq<Conflict>): seq<Item> {
    if cs == [] then [] else ConflictsItems(cs[..|cs| - 1]) + ConflictItems(cs[|cs| - 1])
  }

  function GetConflict(s: Stream): (Stream, Conflict) {
    var (s1, state) := GetInt(s, UINT32);
    var (s2, symbol) := GetInt(s1, UINT32);
    var (s3, detail) := GetQuoted(s2);
    (s3, Conflict(state, symbol, detail))
  }

  function GetConflicts(s: Stream, count: nat): (Stream, seq<Conflict>) {
    if count == 0 then (s, [])
    else
      var before := GetConflicts(s, count - 1);
      var (s1, c) := GetConflict(before.0);
      (s1, before.1 + [c])
  }

  lemma ReadsConflict(s: Stream, c: Conflict, items: seq<Item>)
    requires Before(s, ConflictItems(c) + items)
    ensures GetConflict(s).1 == c && Before(GetConflict(s).0, items)
  {
    hide GetInt, GetQuoted, Before;
    var i2 := [Quoted(c.detail, '\n')] + items;
    var i1 := [Number(UINT32, c.symbol, ' ')] + i2;
    assert ConflictItems(c) + items == [Number(UINT32, c.state, ' ')] + i1;
    ReadsNumber(s, UINT32, c.state, ' ', i1);
    var s1 := GetInt(s, UINT32).0;
    ReadsNumber(s1, UINT32, c.symbol, ' ', i2);
    ReadsQuoted(GetInt(s1, UINT32).0, c.detail, '\n', items);
  }

  lemma {:induction false} ReadsConflicts(s: Stream, cs: seq<Conflict>, items: seq<Item>)
    requires Before(s, ConflictsItems(cs) + items)
    ensures GetConflicts(s, |cs|).1 == cs && Before(GetConflicts(s, |cs|).0, items)
    decreases cs
  {
    hide GetConflict, Before, ConflictItems;
    if cs == [] {
      assert ConflictsItems(cs) + items == items;
    } else {
      var n := |cs| - 1;
      assert ConflictsItems(cs) + items == ConflictsItems(cs[..n]) + (ConflictItems(cs[n]) + items);
      ReadsConflicts(s, cs[..n], ConflictItems(cs[n]) + items);
      ReadsConflict(GetConflicts(s, n).0, cs[n], items);
      assert cs == cs[..n] + [cs[n]];
    }
  }

  // ---------- the whole file ----------

  function SizesItems(z: Sizes): seq<Item> {
    [Number(UINT64, z.symbols, ' '), Number(UINT64, z.productions, ' '), Number(UINT32, z.dollar, '\n')]
  }

  function TablesItems(f: TablesFile): seq<Item> {
    [Number(UINT64, |f.action|, '\n')] + (ActionItems(f.action) +
    ([Number(UINT64, |f.goto_|, '\n')] + (GotoItems(f.goto_) +
    ([Number(UINT64, |f.conflicts|, '\n')] + ConflictsItems(f.conflicts)))))
  }

  function GetSizes(s: Stream): (Stream, Sizes) {
    var (s1, symbols) := GetInt(s, UINT64);
    var (s2, productions) := GetInt(s1, UINT64);
    var (s3, dollar) := GetInt(s2, UINT32);
    (s3, Sizes(symbols, productions, dollar))
  }

  lemma ReadsSizes(s: Stream, z: Sizes, items: seq<Item>)
    requires Before(s, SizesItems(z) + items)
    ensures GetSizes(s).1 == z && Before(GetSizes(s).0, items)
  {
    hide GetInt, Before;
    var i2 := [Number(UINT32, z.dollar, '\n')] + items;
    var i1 := [Number(UINT64, z.productions, ' ')] + i2;
    assert SizesItems(z) + items == [Number(UINT64, z.symbols, ' ')] + i1;
    ReadsNumber(s, UINT64, z.symbols, ' ', i1);
    var s1 := GetInt(s, UINT64).0;
    ReadsNumber(s1, UINT64, z.productions, ' ', i2);
    ReadsNumber(GetInt(s1, UINT64).0, UINT32, z.dollar, '\n', items);
  }

  function GetTables(s: Stream, z: Sizes): (Stream, TablesFile) {
    var (s1, actionCount) := GetInt(s, UINT64);
    var (s2, action) := GetAction(s1, actionCount);
    var (s3, gotoCount) := GetInt(s2, UINT64);
    var (s4, goto_) := GetGoto(s3, gotoCount);
    var (s5, conflictCount) := GetInt(s4, UINT64);
    var (s6, conflicts) := GetConflicts(s5, conflictCount);
    (s6, TablesFile(z, action, goto_, conflicts))
  }

  lemma TablesRead(s: Stream, f: TablesFile)
    requires Before(s, TablesItems(f))
    ensures GetTables(s, f.sizes).1 == f && GetTables(s, f.sizes).0.Good()
  {
    hide GetInt, GetAction, GetGoto, GetConflicts, Before, ActionItems, GotoItems, ConflictsItems;
    var i6 := ConflictsItems(f.conflicts) + [];
    var i5 := [Number(UINT64, |f.conflicts|, '\n')] + i6;
    var i4 := GotoItems(f.goto_) + i5;
    var i3 := [Number(UINT64, |f.goto_|, '\n')] + i4;
    var i2 := ActionItems(f.action) + i3;
    assert TablesItems(f) == [Number(UINT64, |f.action|, '\n')] + i2;
    ReadsNumber(s, UINT64, |f.action|, '\n', i2);
    var s1 := GetInt(s, UINT64).0;
    ReadsAction(s1, f.action, i3);
    var s2 := GetAction(s1, |f.action|).0;
    ReadsNumber(s2, UINT64, |f.goto_|, '\n', i4);
    var s3 := GetInt(s2, UINT64).0;
    ReadsGoto(s3, f.goto_, i5);
    var s4 := GetGoto(s3, |f.goto_|).0;
    ReadsNumber(s4, UINT64, |f.conflicts|, '\n', i6);
    var s5 := GetInt(s4, UINT64).0;
    ReadsConflicts(s5, f.conflicts, []);
    StillGood(GetConflicts(s5, |f.conflicts|).0, []);
  }

  function Rows<T, U>(f: T -> U, ts: seq<T>): (us: seq<U>)
    ensures |us| == |ts| && forall i | 0 <= i < |ts| :: us[i] == f(ts[i])
  {
    seq(|ts|, i requires 0 <= i < |ts| => f(ts[i]))
  }

  function TablesOf(f: TablesFile): ParseTables {
    ParseTables(Rows(ActionRow, f.action), Rows(MapOf, f.goto_))
  }

  /** What reading a parser cache gives: a miss as well when the grammar has other sizes. */
  function ParseTablesText(text: string, expected: Header, z: Sizes): Option<(ParseTables, seq<Conflict>)> {
    var (s, ok) := ReadHeader(Stream(text, false, false), expected);
    if !ok then None
    else
      var (s1, sizes) := GetSizes(s);
      if sizes != z then None
      else
        var (s2, f) := GetTables(s1, sizes);
        if s2.Good() || s2.eof then Some((TablesOf(f), f.conflicts)) else None
  }

  ghost predicate Lists(f: TablesFile, z: Sizes, tables: ParseTables, conflicts: seq<Conflict>) {
    f.sizes == z && TablesOf(f) == tables && f.conflicts == conflicts && ItemsOk(SizesItems(z)) && ItemsOk(TablesItems(f))
  }

  /** A parser cache is read back under its header and sizes as exactly the tables and conflicts that
      went in, quoted details included, and is a miss under every other header or size. */
  lemma ParserCacheRoundTrip(f: TablesFile, z: Sizes, tables: ParseTables, conflicts: seq<Conflict>, h: Header,
                             expected: Header, expectedSizes: Sizes)
    requires Lists(f, z, tables, conflicts) && HeaderOk(h) && expected.version == CACHE_VERSION
    ensures ParseTablesText(Text(HeaderItems(h) + (SizesItems(z) + TablesItems(f))), expected, expectedSizes) ==
            if h == expected && z == expectedSizes then Some((tables, conflicts)) else None
  {
    hide ReadHeader, GetSizes, GetTables, Before, TablesItems, HeaderItems, SizesItems, TablesOf;
    var body := SizesItems(z) + TablesItems(f);
    var items := HeaderItems(h) + body;
    ItemsOkAppend(SizesItems(z), TablesItems(f));
    ItemsOkAppend(HeaderItems(h), body);
    HeaderNotEmpty(h);
    Opened(items);
    var s := Stream(Text(items), false, false);
    HeaderReads(s, h, expected, body);
    var s1 := ReadHeader(s, expected).0;
    ReadsSizes(s1, z, TablesItems(f));
    TablesRead(GetSizes(s1).0, f);
  }

  // ---------- writing ----------

  ghost predicate TablesOk(z: Sizes, tables: ParseTables, conflicts: seq<Conflict>) {
    && Fits(UINT64, z.symbols) && Fits(UINT64, z.productions) && Fits(UINT32, z.dollar)
    && Fits(UINT64, |tables.action|) && Fits(UINT64, |tables.goto_|) && Fits(UINT64, |conflicts|)
    && (forall i | 0 <= i < |tables.action| :: ActionsOk(tables.action[i]))
    && (forall i | 0 <= i < |tables.goto_| :: GotosOk(tables.goto_[i]))
    && (forall i | 0 <= i < |conflicts| :: ConflictOk(conflicts[i]))
  }

  ghost predicate ActionsOk(row: map<int, Action>) {
    Fits(UINT64, |row|) &&
    forall k | k in row :: Fits(UINT32, k) && Fits(INT, row[k].kind) && Fits(INT, row[k].value)
  }

  ghost predicate GotosOk(row: map<int, int>) {
    Fits(UINT64, |row|) && forall k | k in row :: Fits(UINT32, k) && Fits(UINT32, row[k])
  }

  ghost predicate ConflictOk(c: Conflict) {
    Fits(UINT32, c.state) && Fits(UINT32, c.symbol)
  }

  lemma TextThree(i: Item, j: Item, k: Item)
    ensures Text([i, j, k]) == ItemText(i) + ItemText(j) + ItemText(k)
    ensures ItemsOk([i, j, k]) <==> ItemOk(i) && ItemOk(j) && ItemOk(k)
  {
    StartText(i, j);
    TextOne([i, j], k);
    assert [i, j] + [k] == [i, j, k];
  }

  lemma EntriesSnoc(es: seq<Entry>, e: Entry)
    ensures EntriesItems(es + [e]) == EntriesItems(es) + EntryItems(e)
    ensures ActionRow(es + [e]) == ActionRow(es)[e.symbol := e.action]
  {
    assert (es + [e])[..|es|] == es;
  }

  method WriteActionRow(row: map<int, Action>) returns (out: string, ghost es: seq<Entry>)
    requires ActionsOk(row)
    ensures |es| == |row| && ActionRow(es) == row
    ensures out == Text(EntriesItems(es)) && ItemsOk(EntriesItems(es))
  {
    hide IntText, Text, ItemsOk, EntriesItems, ActionRow;
    Empty();
    out, es := "", [];
    var rest := row.Keys;
    assert row - rest == map[];
    while rest != {}
      invariant rest <= row.Keys && |es| + |rest| == |row| && ActionRow(es) == row - rest
      invariant out == Text(EntriesItems(es)) && ItemsOk(EntriesItems(es))
      decreases rest
    {
      ghost var some := SomeMember(rest);
      var symbol :| symbol in rest;
      var action := row[symbol];
      ghost var e := Entry(symbol, action);
      EntriesSnoc(es, e);
      Both(EntriesItems(es), EntryItems(e));
      TextThree(Number(UINT32, symbol, ' '), Number(INT, action.kind, ' '), Number(INT, action.value, '\n'));
      out := out + ((IntText(symbol) + [' ']) + (IntText(action.kind) + [' ']) + (IntText(action.value) + ['\n']));
      assert row - (rest - {symbol}) == (row - rest)[symbol := action];
      es := es + [e];
      rest := rest - {symbol};
    }
    assert row - rest == row;
  }

  lemma Empty()
    ensures Text([]) == "" && ItemsOk([]) && EntriesItems([]) == [] && ActionRow([]) == map[]
    ensures ActionItems([]) == [] && GotoItems([]) == [] && ConflictsItems([]) == []
  {
  }

  lemma ActionSnoc(rows: seq<seq<Entry>>, es: seq<Entry>)
    requires Fits(UINT64, |es|) && ItemsOk(EntriesItems(es)) && ItemsOk(ActionItems(rows))
    ensures ItemsOk(ActionItems(rows + [es]))
    ensures Text(ActionItems(rows + [es])) ==
            Text(ActionItems(rows)) + ((IntText(|es|) + ['\n']) + Text(EntriesItems(es)))
  {
    hide IntText, Text, ItemsOk;
    assert (rows + [es])[..|rows|] == rows;
    Counted(|es|, EntriesItems(es));
    Both(ActionItems(rows), [Number(UINT64, |es|, '\n')] + EntriesItems(es));
  }

  method WriteAction(action: seq<map<int, Action>>) returns (out: string, ghost rows: seq<seq<Entry>>)
    requires forall i | 0 <= i < |action| :: ActionsOk(action[i])
    ensures Rows(ActionRow, rows) == action
    ensures out == Text(ActionItems(rows)) && ItemsOk(ActionItems(rows))
  {
    hide IntText, Text, ItemsOk, EntriesItems, ActionRow, ActionItems;
    Empty();
    out, rows := "", [];
    for i := 0 to |action|
      invariant |rows| == i && forall k | 0 <= k < i :: ActionRow(rows[k]) == action[k]
      invariant out == Text(ActionItems(rows)) && ItemsOk(ActionItems(rows))
    {
      var text, es := WriteActionRow(action[i]);
      ActionSnoc(rows, es);
      out := out + ((IntText(|action[i]|) + ['\n']) + text);
      rows := rows + [es];
    }
  }

  lemma GotoSnoc(rows: seq<seq<Pair>>, ps: seq<Pair>)
    requires Fits(UINT64, |ps|) && ItemsOk(PairItems(UINT32, UINT32, ps)) && ItemsOk(GotoItems(rows))
    ensures ItemsOk(GotoItems(rows + [ps]))
    ensures Text(GotoItems(rows + [ps])) ==
            Text(GotoItems(rows)) + ((IntText(|ps|) + ['\n']) + Text(PairItems(UINT32, UINT32, ps)))
  {
    hide IntText, Text, ItemsOk, PairItems;
    assert (rows + [ps])[..|rows|] == rows;
    Counted(|ps|, PairItems(UINT32, UINT32, ps));
    Both(GotoItems(rows), [Number(UINT64, |ps|, '\n')] + PairItems(UINT32, UINT32, ps));
  }

  method WriteGoto(goto_: seq<map<int, int>>) returns (out: string, ghost rows: seq<seq<Pair>>)
    requires forall i | 0 <= i < |goto_| :: GotosOk(goto_[i])
    ensures Rows(MapOf, rows) == goto_
    ensures out == Text(GotoItems(rows)) && ItemsOk(GotoItems(rows))
  {
    hide IntText, Text, ItemsOk, PairItems, MapOf, GotoItems;
    Empty();
    out, rows := "", [];
    for i := 0 to |goto_|
      invariant |rows| == i && forall k | 0 <= k < i :: MapOf(rows[k]) == goto_[k]
      invariant out == Text(GotoItems(rows)) && ItemsOk(GotoItems(rows))
    {
      var text, ps := WriteEntries(UINT32, UINT32, goto_[i]);
      GotoSnoc(rows, ps);
      out := out + ((IntText(|goto_[i]|) + ['\n']) + text);
      rows := rows + [ps];
    }
  }

  lemma ConflictsSnoc(cs: seq<Conflict>, c: Conflict)
    requires ConflictOk(c) && ItemsOk(ConflictsItems(cs))
    ensures ItemsOk(ConflictsItems(cs + [c]))
    ensures Text(ConflictsItems(cs + [c])) ==
            Text(ConflictsItems(cs)) +
            ((IntText(c.state) + [' ']) + (IntText(c.symbol) + [' ']) + (QuotedText(c.detail) + ['\n']))
  {
    hide IntText, Text, ItemsOk, QuotedText;
    assert (cs + [c])[..|cs|] == cs;
    TextThree(Number(UINT32, c.state, ' '), Number(UINT32, c.symbol, ' '), Quoted(c.detail, '\n'));
    Both(ConflictsItems(cs), ConflictItems(c));
  }

  method WriteConflicts(conflicts: seq<Conflict>) returns (out: string)
    requires forall i | 0 <= i < |conflicts| :: ConflictOk(conflicts[i])
    ensures out == Text(ConflictsItems(conflicts)) && ItemsOk(ConflictsItems(conflicts))
  {
    hide IntText, Text, ItemsOk, QuotedText, ConflictsItems;
    Empty();
    out := "";
    for i := 0 to |conflicts|
      invariant out == Text(ConflictsItems(conflicts[..i])) && ItemsOk(ConflictsItems(conflicts[..i]))
    {
      var c := conflicts[i];
      ConflictsSnoc(conflicts[..i], c);
      assert conflicts[..i + 1] == conflicts[..i] + [c];
      out := out + ((IntText(c.state) + [' ']) + (IntText(c.symbol) + [' ']) + (QuotedText(c.detail) + ['\n']));
    }
    assert conflicts[..|conflicts|] == conflicts;
  }

  /** Writes a parser cache, whatever the order in which the rows are walked. */
  method WriteParserCache(h: Header, z: Sizes, tables: ParseTables, conflicts: seq<Conflict>)
    returns (out: string, ghost f: TablesFile)
    requires TablesOk(z, tables, conflicts)
    ensures Lists(f, z, tables, conflicts)
    ensures out == Text(HeaderItems(h) + (SizesItems(z) + TablesItems(f)))
  {
    hide Text, ItemsOk, IntText, ActionItems, GotoItems, ConflictsItems, ActionsOk, GotosOk, ConflictOk, HeaderItems,
      ActionRow, MapOf;
    var header := WriteHeader(h);
    var actionText, action := WriteAction(tables.action);
    var gotoText, goto_ := WriteGoto(tables.goto_);
    var conflictText := WriteConflicts(conflicts);
    f := TablesFile(z, action, goto_, conflicts);
    TextThree(Number(UINT64, z.symbols, ' '), Number(UINT64, z.productions, ' '), Number(UINT32, z.dollar, '\n'));
    out := header +
      (((IntText(z.symbols) + [' ']) + (IntText(z.productions) + [' ']) + (IntText(z.dollar) + ['\n'])) +
      ((IntText(|tables.action|) + ['\n']) + (actionText +
      ((IntText(|tables.goto_|) + ['\n']) + (gotoText +
      ((IntText(|conflicts|) + ['\n']) + conflictText))))));
    TablesText(f);
    Both(SizesItems(z), TablesItems(f));
    Both(HeaderItems(h), SizesItems(z) + TablesItems(f));
  }

  lemma TablesText(f: TablesFile)
    requires Fits(UINT64, |f.action|) && Fits(UINT64, |f.goto_|) && Fits(UINT64, |f.conflicts|)
    requires ItemsOk(ActionItems(f.action)) && ItemsOk(GotoItems(f.goto_)) && ItemsOk(ConflictsItems(f.conflicts))
    ensures ItemsOk(TablesItems(f))
    ensures Text(TablesItems(f)) ==
            (IntText(|f.action|) + ['\n']) + (Text(ActionItems(f.action)) +
            ((IntText(|f.goto_|) + ['\n']) + (Text(GotoItems(f.goto_)) +
            ((IntText(|f.conflicts|) + ['\n']) + Text(ConflictsItems(f.conflicts))))))
  {
    hide Text, ItemsOk, IntText, ActionItems, GotoItems, ConflictsItems;
    Counted(|f.conflicts|, ConflictsItems(f.conflicts));
    var i4 := [Number(UINT64, |f.conflicts|, '\n')] + ConflictsItems(f.conflicts);
    Both(GotoItems(f.goto_), i4);
    var i3 := GotoItems(f.goto_) + i4;
    Counted(|f.goto_|, i3);
    var i2 := [Number(UINT64, |f.goto_|, '\n')] + i3;
    Both(ActionItems(f.action), i2);
    Counted(|f.action|, ActionItems(f.action) + i2);
  }

  // ---------- reading ----------

  method ReadActionRow(s: Stream, count: nat) returns (after: Stream, row: map<int, Action>)
    ensures after == GetEntries(s, count).0 && row == ActionRow(GetEntries(s, count).1)
  {
    hide GetInt;
    after, row := s, map[];
    for j := 0 to count
      invariant after == GetEntries(s, j).0 && row == ActionRow(GetEntries(s, j).1)
    {
      ghost var es := GetEntries(s, j).1;
      var symbol := GetInt(after, UINT32);
      var kind := GetInt(symbol.0, INT);
      var value := GetInt(kind.0, INT);
      after := value.0;
      row := row[symbol.1 := Action(kind.1, value.1)];
      EntriesSnoc(es, Entry(symbol.1, Action(kind.1, value.1)));
    }
  }

  method ReadAction(s: Stream, count: nat) returns (after: Stream, action: seq<map<int, Action>>)
    ensures after == GetAction(s, count).0 && action == Rows(ActionRow, GetAction(s, count).1)
  {
    hide GetInt, GetEntries, ActionRow;
    after, action := s, [];
    for i := 0 to count
      invariant after == GetAction(s, i).0 && action == Rows(ActionRow, GetAction(s, i).1)
    {
      var size := GetInt(after, UINT64);
      var row: map<int, Action>;
      after, row := ReadActionRow(size.0, size.1);
      action := action + [row];
    }
  }

  method ReadGoto(s: Stream, count: nat) returns (after: Stream, goto_: seq<map<int, int>>)
    ensures after == GetGoto(s, count).0 && goto_ == Rows(MapOf, GetGoto(s, count).1)
  {
    hide GetInt, GetPairs, MapOf;
    after, goto_ := s, [];
    for i := 0 to count
      invariant after == GetGoto(s, i).0 && goto_ == Rows(MapOf, GetGoto(s, i).1)
    {
      var size := GetInt(after, UINT64);
      var row: map<int, int>;
      after, row := ReadEntries(size.0, UINT32, UINT32, size.1);
      goto_ := goto_ + [row];
    }
  }

  method ReadConflicts(s: Stream, count: nat) returns (after: Stream, conflicts: seq<Conflict>)
    ensures after == GetConflicts(s, count).0 && conflicts == GetConflicts(s, count).1
  {
    hide GetInt, GetQuoted;
    after, conflicts := s, [];
    for i := 0 to count
      invariant after == GetConflicts(s, i).0 && conflicts == GetConflicts(s, i).1
    {
      var state := GetInt(after, UINT32);
      var symbol := GetInt(state.0, UINT32);
      var detail := GetQuoted(symbol.0);
      after := detail.0;
      conflicts := conflicts + [Conflict(state.1, symbol.1, detail.1)];
    }
  }

  /** Reads a parser cache; a file that cannot be opened is a miss. */
  method ReadParserCache(isOpen: bool, text: string, expected: Header, z: Sizes)
    returns (r: Option<(ParseTables, seq<Conflict>)>)
    ensures r == if isOpen then ParseTablesText(text, expected, z) else None
  {
    hide GetInt, GetAction, GetGoto, GetConflicts, ReadHeader, ActionRow, MapOf;
    if !isOpen {
      return None;
    }
    var header := ReadHeader(Stream(text, false, false), expected);
    if !header.1 {
      return None;
    }
    var symbols := GetInt(header.0, UINT64);
    var productions := GetInt(symbols.0, UINT64);
    var dollar := GetInt(productions.0, UINT32);
    if symbols.1 != z.symbols || productions.1 != z.productions || dollar.1 != z.dollar {
      return None;
    }
    var actionCount := GetInt(dollar.0, UINT64);
    var s, action := ReadAction(actionCount.0, actionCount.1);
    var gotoCount := GetInt(s, UINT64);
    var goto_: seq<map<int, int>>;
    s, goto_ := ReadGoto(gotoCount.0, gotoCount.1);
    var conflictCount := GetInt(s, UINT64);
    var conflicts: seq<Conflict>;
    s, conflicts := ReadConflicts(conflictCount.0, conflictCount.1);
    if s.Good() || s.eof {
      r := Some((ParseTables(action, goto_), conflicts));
    } else {
      r := None;
    }
  }
}
