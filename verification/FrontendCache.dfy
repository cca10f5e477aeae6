/** The caches of the front end (compiler/frontend_cache.cpp): the lexer's automaton and the parser's
    tables, written as text and read back. */
module FrontendCaches {
  import opened Lexing
  import opened TextStreams
  import opened Wrappers

  const LEXER_MAGIC: string := "HULK_LEXER_CACHE"
  const PARSER_MAGIC: string := "HULK_PARSER_CACHE"
  const CACHE_VERSION: int := 1

  /** The size and time stamp of the source a cache was made from. */
  datatype FileSignature = FileSignature(size: int, mtime: int)

  datatype Header = Header(magic: string, version: int, signature: FileSignature, fingerprint: int)

  // ---------- pieces of a cache file ----------

  /** One field of a cache file and the separator written after it. */
  datatype Item = Number(t: IntType, n: int, sep: char) | Word(word: string, sep: char) | Quoted(text: string, sep: char)

  predicate ItemOk(i: Item) {
    && IsSpace(i.sep)
    && match i
       case Number(t, n, _) => Fits(t, n) && t.low <= 0
       case Word(w, _) => w != "" && forall k | 0 <= k < |w| :: !IsSpace(w[k])
       case Quoted(_, _) => true
  }

  predicate ItemsOk(items: seq<Item>) {
    forall i | i in items :: ItemOk(i)
  }

  function ItemText(i: Item): string {
    match i
    case Number(_, n, sep) => IntText(n) + [sep]
    case Word(w, sep) => w + [sep]
    case Quoted(text, sep) => QuotedText(text) + [sep]
  }

  function Text(items: seq<Item>): string {
    if items == [] then "" else ItemText(items[0]) + Text(items[1..])
  }

  lemma {:induction false} TextAppend(a: seq<Item>, b: seq<Item>)
    ensures Text(a + b) == Text(a) + Text(b)
    decreases a
  {
    if a == [] {
      assert a + b == b;
    } else {
      assert (a + b)[1..] == a[1..] + b;
      TextAppend(a[1..], b);
    }
  }

  /** The stream stands before the given items. */
  ghost predicate Before(s: Stream, items: seq<Item>) {
    ItemsOk(items) && At(s, Text(items))
  }

  lemma FirstItem(i: Item, items: seq<Item>)
    requires ItemsOk([i] + items)
    ensures ItemOk(i) && ItemsOk(items) && Text([i] + items) == ItemText(i) + Text(items)
  {
    var all := [i] + items;
    assert all[1..] == items && all[0] == i;
    assert forall k | k in items :: k in all;
  }

  lemma Lands(sep: char, items: seq<Item>)
    requires IsSpace(sep) && ItemsOk(items)
    ensures Separated([sep] + Text(items)) && Before(Stream([sep] + Text(items), false, false), items)
  {
    assert ([sep] + Text(items))[1..] == Text(items);
  }

  lemma ReadsNumber(s: Stream, t: IntType, n: int, sep: char, items: seq<Item>)
    requires Before(s, [Number(t, n, sep)] + items)
    ensures GetInt(s, t).1 == n && Before(GetInt(s, t).0, items)
  {
    hide At, GetInt, Text, IntText, ItemsOk;
    FirstItem(Number(t, n, sep), items);
    var rest := [sep] + Text(items);
    assert IntText(n) + [sep] + Text(items) == IntText(n) + rest;
    Lands(sep, items);
    IntReads(s, t, n, rest);
  }

  lemma ReadsWord(s: Stream, word: string, sep: char, items: seq<Item>)
    requires Before(s, [Word(word, sep)] + items)
    ensures GetWord(s).1 == word && Before(GetWord(s).0, items)
  {
    hide At, GetWord, Text, ItemsOk;
    FirstItem(Word(word, sep), items);
    var rest := [sep] + Text(items);
    assert word + [sep] + Text(items) == word + rest;
    Lands(sep, items);
    WordReads(s, word, rest);
  }

  lemma ReadsQuoted(s: Stream, text: string, sep: char, items: seq<Item>)
    requires Before(s, [Quoted(text, sep)] + items)
    ensures GetQuoted(s).1 == text && Before(GetQuoted(s).0, items)
  {
    hide At, GetQuoted, Text, QuotedText, ItemsOk;
    FirstItem(Quoted(text, sep), items);
    var rest := [sep] + Text(items);
    assert QuotedText(text) + [sep] + Text(items) == QuotedText(text) + rest;
    Lands(sep, items);
    QuotedReads(s, text, rest);
  }

  /** The stream before the written text, at its very beginning. */
  lemma Opened(items: seq<Item>)
    requires ItemsOk(items) && items != []
    ensures Before(Stream(Text(items), false, false), items)
  {
  }

  // ---------- numbers in a row ----------

  function NumberItems(t: IntType, ns: seq<int>, sep: char): seq<Item> {
    seq(|ns|, i requires 0 <= i < |ns| => Number(t, ns[i], sep))
  }

  /** `count` numbers read one after the other. */
  function GetInts(s: Stream, t: IntType, count: nat): (Stream, seq<int>) {
    if count == 0 then (s, [])
    else
      var before := GetInts(s, t, count - 1);
      var last := GetInt(before.0, t);
      (last.0, before.1 + [last.1])
  }

  lemma {:induction false} ReadsNumbers(s: Stream, t: IntType, ns: seq<int>, sep: char, items: seq<Item>)
    requires Before(s, NumberItems(t, ns, sep) + items)
    ensures GetInts(s, t, |ns|).1 == ns && Before(GetInts(s, t, |ns|).0, items)
    decreases ns
  {
    hide GetInt, Before;
    if ns == [] {
      assert NumberItems(t, ns, sep) + items == items;
    } else {
      var n := |ns| - 1;
      var last := [Number(t, ns[n], sep)];
      assert NumberItems(t, ns, sep) + items == NumberItems(t, ns[..n], sep) + (last + items);
      ReadsNumbers(s, t, ns[..n], sep, last + items);
      ReadsNumber(GetInts(s, t, n).0, t, ns[n], sep, items);
    }
  }

  // ---------- the header ----------

  function HeaderItems(h: Header): seq<Item> {
    [Word(h.magic, ' '), Number(INT, h.version, ' '), Number(UINT64, h.signature.size, ' '),
     Number(INT64, h.signature.mtime, ' '), Number(UINT64, h.fingerprint, '\n')]
  }

  predicate HeaderOk(h: Header) {
    ItemsOk(HeaderItems(h))
  }

  /** Reads a header and compares it with what is expected. */
  function ReadHeader(s: Stream, expected: Header): (Stream, bool) {
    var (s1, magic) := GetWord(s);
    var (s2, version) := GetInt(s1, INT);
    var (s3, size) := GetInt(s2, UINT64);
    var (s4, mtime) := GetInt(s3, INT64);
    var (s5, fingerprint) := GetInt(s4, UINT64);
    (s5, s5.Good() && magic == expected.magic && version == CACHE_VERSION &&
         FileSignature(size, mtime) == expected.signature && fingerprint == expected.fingerprint)
  }

  /** A written header is accepted exactly when all of it is what is expected. */
  lemma HeaderReads(s: Stream, h: Header, expected: Header, items: seq<Item>)
    requires expected.version == CACHE_VERSION && Before(s, HeaderItems(h) + items)
    ensures ReadHeader(s, expected).1 <==> h == expected
    ensures Before(ReadHeader(s, expected).0, items)
  {
    hide GetInt, GetWord, Before;
    var i4 := [Number(UINT64, h.fingerprint, '\n')] + items;
    var i3 := [Number(INT64, h.signature.mtime, ' ')] + i4;
    var i2 := [Number(UINT64, h.signature.size, ' ')] + i3;
    var i1 := [Number(INT, h.version, ' ')] + i2;
    assert HeaderItems(h) + items == [Word(h.magic, ' ')] + i1;
    ReadsWord(s, h.magic, ' ', i1);
    var s1 := GetWord(s).0;
    ReadsNumber(s1, INT, h.version, ' ', i2);
    var s2 := GetInt(s1, INT).0;
    ReadsNumber(s2, UINT64, h.signature.size, ' ', i3);
    var s3 := GetInt(s2, UINT64).0;
    ReadsNumber(s3, INT64, h.signature.mtime, ' ', i4);
    var s4 := GetInt(s3, INT64).0;
    ReadsNumber(s4, UINT64, h.fingerprint, '\n', items);
    StillGood(GetInt(s4, UINT64).0, items);
  }

  lemma StillGood(s: Stream, items: seq<Item>)
    requires Before(s, items)
    ensures s.Good()
  {
  }

  // ---------- pairs and triples of numbers ----------

  type Pair = (int, int)

  function PairItems(t: IntType, u: IntType, ps: seq<Pair>): seq<Item> {
    if ps == [] then []
    else
      var last := ps[|ps| - 1];
      PairItems(t, u, ps[..|ps| - 1]) + [Number(t, last.0, ' '), Number(u, last.1, '\n')]
  }

  function GetPairs(s: Stream, t: IntType, u: IntType, count: nat): (Stream, seq<Pair>) {
    if count == 0 then (s, [])
    else
      var before := GetPairs(s, t, u, count - 1);
      var (s1, a) := GetInt(before.0, t);
      var (s2, b) := GetInt(s1, u);
      (s2, before.1 + [(a, b)])
  }

  lemma {:induction false} ReadsPairs(s: Stream, t: IntType, u: IntType, ps: seq<Pair>, items: seq<Item>)
    requires Before(s, PairItems(t, u, ps) + items)
    ensures GetPairs(s, t, u, |ps|).1 == ps && Before(GetPairs(s, t, u, |ps|).0, items)
    decreases ps
  {
    hide GetInt, Before;
    if ps == [] {
      assert PairItems(t, u, ps) + items == items;
    } else {
      var n := |ps| - 1;
      var second := [Number(u, ps[n].1, '\n')] + items;
      var first := [Number(t, ps[n].0, ' ')] + second;
      assert PairItems(t, u, ps) + items == PairItems(t, u, ps[..n]) + first;
      ReadsPairs(s, t, u, ps[..n], first);
      var s1 := GetPairs(s, t, u, n).0;
      ReadsNumber(s1, t, ps[n].0, ' ', second);
      ReadsNumber(GetInt(s1, t).0, u, ps[n].1, '\n', items);
      assert ps == ps[..n] + [ps[n]];
    }
  }

  /** The map that entries build up, later ones replacing earlier ones. */
  function MapOf(ps: seq<Pair>): map<int, int> {
    if ps == [] then map[] else MapOf(ps[..|ps| - 1])[ps[|ps| - 1].0 := ps[|ps| - 1].1]
  }

  // ---------- the automaton ----------

  datatype Row = Row(state: int, edges: seq<Pair>)

  /** What the file of an automaton lists, in the order in which the containers were walked. */
  datatype DfaFile = DfaFile(start: int, accept: seq<int>, rows: seq<Row>, acceptToken: seq<Pair>, skip: seq<bool>)

  function RowItems(r: Row): seq<Item> {
    [Number(INT, r.state, ' '), Number(UINT64, |r.edges|, '\n')] + PairItems(INT, INT, r.edges)
  }

  function RowsItems(rows: seq<Row>): seq<Item> {
    if rows == [] then [] else RowsItems(rows[..|rows| - 1]) + RowItems(rows[|rows| - 1])
  }

  function Flags(skip: seq<bool>): (ns: seq<int>)
    ensures |ns| == |skip|
  {
    seq(|skip|, i requires 0 <= i < |skip| => if skip[i] then 1 else 0)
  }

  /** Numbers read into flags. */
  function Truths(ns: seq<int>): (flags: seq<bool>)
    ensures |flags| == |ns| && forall i | 0 <= i < |ns| :: flags[i] == (ns[i] != 0)
  {
    seq(|ns|, i requires 0 <= i < |ns| => ns[i] != 0)
  }

  function DfaItems(f: DfaFile): seq<Item> {
    [Number(INT, f.start, '\n'), Number(UINT64, |f.accept|, '\n')] + (NumberItems(INT, f.accept, '\n') +
    ([Number(UINT64, |f.rows|, '\n')] + (RowsItems(f.rows) +
    ([Number(UINT64, |f.acceptToken|, '\n')] + (PairItems(INT, INT, f.acceptToken) +
    ([Number(UINT64, |f.skip|, '\n')] + NumberItems(INT, Flags(f.skip), '\n')))))))
  }

  function GetRow(s: Stream): (Stream, Row) {
    var (s1, state) := GetInt(s, INT);
    var (s2, count) := GetInt(s1, UINT64);
    var (s3, edges) := GetPairs(s2, INT, INT, count);
    (s3, Row(state, edges))
  }

  function GetRows(s: Stream, count: nat): (Stream, seq<Row>) {
    if count == 0 then (s, [])
    else
      var before := GetRows(s, count - 1);
      var (s1, row) := GetRow(before.0);
      (s1, before.1 + [row])
  }

  lemma ReadsRow(s: Stream, r: Row, items: seq<Item>)
    requires Before(s, RowItems(r) + items)
    ensures GetRow(s).1 == r && Before(GetRow(s).0, items)
  {
    hide GetInt, Before;
    var edges := PairItems(INT, INT, r.edges) + items;
    var count := [Number(UINT64, |r.edges|, '\n')] + edges;
    assert RowItems(r) + items == [Number(INT, r.state, ' ')] + count;
    ReadsNumber(s, INT, r.state, ' ', count);
    var s1 := GetInt(s, INT).0;
    ReadsNumber(s1, UINT64, |r.edges|, '\n', edges);
    ReadsPairs(GetInt(s1, UINT64).0, INT, INT, r.edges, items);
  }

  lemma {:induction false} ReadsRows(s: Stream, rows: seq<Row>, items: seq<Item>)
    requires Before(s, RowsItems(rows) + items)
    ensures GetRows(s, |rows|).1 == rows && Before(GetRows(s, |rows|).0, items)
    decreases rows
  {
    hide GetRow, Before, RowItems;
    if rows == [] {
      assert RowsItems(rows) + items == items;
    } else {
      var n := |rows| - 1;
      assert RowsItems(rows) + items == RowsItems(rows[..n]) + (RowItems(rows[n]) + items);
      ReadsRows(s, rows[..n], RowItems(rows[n]) + items);
      ReadsRow(GetRows(s, n).0, rows[n], items);
      assert rows == rows[..n] + [rows[n]];
    }
  }

  /** A number read into a character. */
  function CharOf(n: int): char {
    (n % 256) as char
  }

  function EdgesOf(ps: seq<Pair>): map<char, int> {
    if ps == [] then map[] else EdgesOf(ps[..|ps| - 1])[CharOf(ps[|ps| - 1].0) := ps[|ps| - 1].1]
  }

  function TransitionsOf(rows: seq<Row>): map<int, map<char, int>> {
    if rows == [] then map[]
    else
      var before := TransitionsOf(rows[..|rows| - 1]);
      var r := rows[|rows| - 1];
      before[r.state := (if r.state in before then before[r.state] else map[]) + EdgesOf(r.edges)]
  }

  function DfaOf(f: DfaFile): DFA {
    DFA(f.start, (set s | s in f.accept), TransitionsOf(f.rows), MapOf(f.acceptToken))
  }

  function GetDfa(s: Stream): (Stream, DfaFile) {
    var (s1, start) := GetInt(s, INT);
    var (s2, acceptCount) := GetInt(s1, UINT64);
    var (s3, accept) := GetInts(s2, INT, acceptCount);
    var (s4, rowCount) := GetInt(s3, UINT64);
    var (s5, rows) := GetRows(s4, rowCount);
    var (s6, tokenCount) := GetInt(s5, UINT64);
    var (s7, tokens) := GetPairs(s6, INT, INT, tokenCount);
    var (s8, skipCount) := GetInt(s7, UINT64);
    var (s9, flags) := GetInts(s8, INT, skipCount);
    (s9, DfaFile(start, accept, rows, tokens, Truths(flags)))
  }

  lemma DfaReads(s: Stream, f: DfaFile)
    requires Before(s, DfaItems(f))
    ensures GetDfa(s).1 == f && GetDfa(s).0.Good()
  {
    hide GetInt, GetInts, GetPairs, GetRows, Before, NumberItems, PairItems, RowsItems;
    var flags := Flags(f.skip);
    var i9 := NumberItems(INT, flags, '\n') + [];
    var i8 := [Number(UINT64, |f.skip|, '\n')] + i9;
    var i7 := PairItems(INT, INT, f.acceptToken) + i8;
    var i6 := [Number(UINT64, |f.acceptToken|, '\n')] + i7;
    var i5 := RowsItems(f.rows) + i6;
    var i4 := [Number(UINT64, |f.rows|, '\n')] + i5;
    var i3 := NumberItems(INT, f.accept, '\n') + i4;
    var i2 := [Number(UINT64, |f.accept|, '\n')] + i3;
    assert DfaItems(f) == [Number(INT, f.start, '\n')] + i2;
    ReadsNumber(s, INT, f.start, '\n', i2);
    var s1 := GetInt(s, INT).0;
    ReadsNumber(s1, UINT64, |f.accept|, '\n', i3);
    var s2 := GetInt(s1, UINT64).0;
    ReadsNumbers(s2, INT, f.accept, '\n', i4);
    var s3 := GetInts(s2, INT, |f.accept|).0;
    ReadsNumber(s3, UINT64, |f.rows|, '\n', i5);
    var s4 := GetInt(s3, UINT64).0;
    ReadsRows(s4, f.rows, i6);
    var s5 := GetRows(s4, |f.rows|).0;
    ReadsNumber(s5, UINT64, |f.acceptToken|, '\n', i7);
    var s6 := GetInt(s5, UINT64).0;
    ReadsPairs(s6, INT, INT, f.acceptToken, i8);
    var s7 := GetPairs(s6, INT, INT, |f.acceptToken|).0;
    ReadsNumber(s7, UINT64, |f.skip|, '\n', i9);
    var s8 := GetInt(s7, UINT64).0;
    ReadsNumbers(s8, INT, flags, '\n', []);
    StillGood(GetInts(s8, INT, |flags|).0, []);
    assert GetDfa(s).1.skip == f.skip;
  }

  /** What reading a lexer cache gives; the last test accepts a stream that has hit the end. */
  function ParseDfa(text: string, expected: Header): Option<(DFA, seq<bool>)> {
    var (s, ok) := ReadHeader(Stream(text, false, false), expected);
    if !ok then None
    else
      var (s1, f) := GetDfa(s);
      if s1.Good() || s1.eof then Some((DfaOf(f), f.skip)) else None
  }

  /** The file lists the automaton and the skip table, each entry once. */
  ghost predicate Lists(f: DfaFile, dfa: DFA, skip: seq<bool>) {
    DfaOf(f) == dfa && f.skip == skip && ItemsOk(DfaItems(f))
  }

  /** A lexer cache that was written for a header is read back under that header as exactly the automaton
      and skip table that went in, and is a miss under every other header. */
  lemma LexerCacheRoundTrip(f: DfaFile, dfa: DFA, skip: seq<bool>, h: Header, expected: Header)
    requires Lists(f, dfa, skip) && HeaderOk(h) && expected.version == CACHE_VERSION
    ensures ParseDfa(Text(HeaderItems(h) + DfaItems(f)), expected) ==
            if h == expected then Some((dfa, skip)) else None
  {
    hide ReadHeader, GetDfa, Before, DfaItems, HeaderItems;
    var items := HeaderItems(h) + DfaItems(f);
    assert ItemsOk(items) && items != [] by {
      HeaderNotEmpty(h);
    }
    Opened(items);
    var s := Stream(Text(items), false, false);
    HeaderReads(s, h, expected, DfaItems(f));
    DfaReads(ReadHeader(s, expected).0, f);
  }

  lemma HeaderNotEmpty(h: Header)
    ensures HeaderItems(h) != []
  {
  }

  // ---------- writing and reading the automaton ----------

  /** Everything in the tables fits the variables it is written from and read into. */
  ghost predicate DfaOk(dfa: DFA, skip: seq<bool>) {
    && Fits(INT, dfa.start) && (forall s | s in dfa.accept :: Fits(INT, s))
    && (forall s | s in dfa.transitions :: Fits(INT, s) && EdgesOk(dfa.transitions[s]))
    && (forall s | s in dfa.acceptToken :: Fits(INT, s) && Fits(INT, dfa.acceptToken[s]))
    && Fits(UINT64, |dfa.accept|) && Fits(UINT64, |dfa.transitions|) && Fits(UINT64, |dfa.acceptToken|)
    && Fits(UINT64, |skip|)
  }

  ghost predicate EdgesOk(edges: map<char, int>) {
    Fits(UINT64, |edges|) && forall c | c in edges :: (c as int) < 256 && Fits(INT, edges[c])
  }

  lemma ItemsOkAppend(a: seq<Item>, b: seq<Item>)
    ensures ItemsOk(a + b) <==> ItemsOk(a) && ItemsOk(b)
  {
    assert forall i | i in a :: i in a + b;
    assert forall i | i in b :: i in a + b;
  }

  lemma TextOne(items: seq<Item>, i: Item)
    ensures Text(items + [i]) == Text(items) + ItemText(i)
    ensures ItemsOk(items + [i]) <==> ItemsOk(items) && ItemOk(i)
  {
    TextAppend(items, [i]);
    ItemsOkAppend(items, [i]);
    assert [i][1..] == [];
    assert Text([i]) == ItemText(i) + Text([]);
  }

  lemma NumberItemsSnoc(t: IntType, ns: seq<int>, n: int, sep: char)
    ensures NumberItems(t, ns + [n], sep) == NumberItems(t, ns, sep) + [Number(t, n, sep)]
  {
  }

  lemma PairItemsSnoc(t: IntType, u: IntType, ps: seq<Pair>, p: Pair)
    ensures PairItems(t, u, ps + [p]) == PairItems(t, u, ps) + [Number(t, p.0, ' '), Number(u, p.1, '\n')]
  {
    assert (ps + [p])[..|ps|] == ps;
  }

  lemma TextTwo(items: seq<Item>, i: Item, j: Item)
    ensures Text(items + [i, j]) == Text(items) + ItemText(i) + ItemText(j)
    ensures ItemsOk(items + [i, j]) <==> ItemsOk(items) && ItemOk(i) && ItemOk(j)
  {
    assert items + [i, j] == (items + [i]) + [j];
    TextOne(items, i);
    TextOne(items + [i], j);
  }

  method WriteHeader(h: Header) returns (out: string)
    ensures out == Text(HeaderItems(h))
  {
    HeaderText(h);
    out := h.magic + [' '] + (IntText(h.version) + [' ']) + (IntText(h.signature.size) + [' ']) +
      (IntText(h.signature.mtime) + [' ']) + (IntText(h.fingerprint) + ['\n']);
  }

  lemma HeaderText(h: Header)
    ensures Text(HeaderItems(h)) ==
            h.magic + [' '] + (IntText(h.version) + [' ']) + (IntText(h.signature.size) + [' ']) +
            (IntText(h.signature.mtime) + [' ']) + (IntText(h.fingerprint) + ['\n'])
  {
    hide Text, IntText;
    var items := HeaderItems(h);
    TextOne([], items[0]);
    var a := [] + [items[0]];
    TextOne(a, items[1]);
    var b := a + [items[1]];
    TextOne(b, items[2]);
    var c := b + [items[2]];
    TextOne(c, items[3]);
    var d := c + [items[3]];
    TextOne(d, items[4]);
    assert d + [items[4]] == items;
    TextNone();
  }

  lemma TextNone()
    ensures Text([]) == "" && ItemsOk([])
  {
  }

  lemma SetSnoc<T>(s: seq<T>, x: T)
    ensures (set k | k in s + [x]) == (set k | k in s) + {x}
  {
  }

  lemma SomeMember<T>(s: set<T>) returns (x: T)
    requires s != {}
    ensures x in s
  {
    x :| x in s;
  }

  /** The states of a set, in any order. */
  method WriteStates(states: set<int>) returns (out: string, ghost ns: seq<int>)
    requires forall s | s in states :: Fits(INT, s)
    ensures |ns| == |states| && (set s | s in ns) == states
    ensures out == Text(NumberItems(INT, ns, '\n')) && ItemsOk(NumberItems(INT, ns, '\n'))
  {
    out, ns := "", [];
    var rest := states;
    while rest != {}
      invariant rest <= states && |ns| + |rest| == |states| && (set s | s in ns) == states - rest
      invariant out == Text(NumberItems(INT, ns, '\n')) && ItemsOk(NumberItems(INT, ns, '\n'))
      decreases rest
    {
      ghost var some := SomeMember(rest);
      var state :| state in rest;
      rest := rest - {state};
      out := out + (IntText(state) + ['\n']);
      NumberItemsSnoc(INT, ns, state, '\n');
      TextOne(NumberItems(INT, ns, '\n'), Number(INT, state, '\n'));
      SetSnoc(ns, state);
      assert states - rest == (states - (rest + {state})) + {state};
      ns := ns + [state];
    }
  }

  /** The edges of one state, in any order. */
  method WriteEdges(edges: map<char, int>) returns (out: string, ghost ps: seq<Pair>)
    requires EdgesOk(edges)
    ensures |ps| == |edges| && EdgesOf(ps) == edges
    ensures out == Text(PairItems(INT, INT, ps)) && ItemsOk(PairItems(INT, INT, ps))
  {
    hide IntText, Text, ItemsOk;
    TextNone();
    out, ps := "", [];
    var rest := edges.Keys;
    assert edges - rest == map[];
    while rest != {}
      invariant rest <= edges.Keys && |ps| + |rest| == |edges| && EdgesOf(ps) == edges - rest
      invariant out == Text(PairItems(INT, INT, ps)) && ItemsOk(PairItems(INT, INT, ps))
      decreases rest
    {
      var c :| c in rest;
      ghost var p := (c as int, edges[c]);
      PairItemsSnoc(INT, INT, ps, p);
      TextTwo(PairItems(INT, INT, ps), Number(INT, c as int, ' '), Number(INT, edges[c], '\n'));
      out := out + (IntText(c as int) + [' ']) + (IntText(edges[c]) + ['\n']);
      assert (ps + [p])[..|ps|] == ps && CharOf(p.0) == c;
      assert edges - (rest - {c}) == (edges - rest)[c := edges[c]];
      ps := ps + [p];
      rest := rest - {c};
    }
    assert edges - rest == edges;
  }

  method WriteRows(transitions: map<int, map<char, int>>) returns (out: string, ghost rows: seq<Row>)
    requires forall s | s in transitions :: Fits(INT, s) && EdgesOk(transitions[s])
    ensures |rows| == |transitions| && TransitionsOf(rows) == transitions
    ensures out == Text(RowsItems(rows)) && ItemsOk(RowsItems(rows))
  {
    hide EdgesOk, EdgesOf, PairItems, RowItems;
    out, rows := "", [];
    var rest := transitions.Keys;
    assert transitions - rest == map[];
    while rest != {}
      invariant rest <= transitions.Keys && |rows| + |rest| == |transitions|
      invariant TransitionsOf(rows) == transitions - rest
      invariant out == Text(RowsItems(rows)) && ItemsOk(RowsItems(rows))
      decreases rest
    {
      ghost var some := SomeMember(rest);
      var state :| state in rest;
      var edges := transitions[state];
      var text, ps := WriteEdges(edges);
      ghost var row := Row(state, ps);
      RowText(row, edges);
      RowsSnoc(rows, row);
      out := out + ((IntText(state) + [' ']) + (IntText(|edges|) + ['\n']) + text);
      assert map[] + EdgesOf(ps) == edges;
      assert transitions - (rest - {state}) == (transitions - rest)[state := edges];
      rows := rows + [row];
      rest := rest - {state};
    }
    assert transitions - rest == transitions;
  }

  lemma RowText(r: Row, edges: map<char, int>)
    requires Fits(INT, r.state) && EdgesOk(edges) && |r.edges| == |edges| && ItemsOk(PairItems(INT, INT, r.edges))
    ensures ItemsOk(RowItems(r))
    ensures Text(RowItems(r)) ==
            (IntText(r.state) + [' ']) + (IntText(|r.edges|) + ['\n']) + Text(PairItems(INT, INT, r.edges))
  {
    var i, j := Number(INT, r.state, ' '), Number(UINT64, |r.edges|, '\n');
    TextTwo([], i, j);
    assert [] + [i, j] == [i, j];
    TextAppend([i, j], PairItems(INT, INT, r.edges));
    ItemsOkAppend([i, j], PairItems(INT, INT, r.edges));
  }

  lemma RowsSnoc(rows: seq<Row>, r: Row)
    ensures Text(RowsItems(rows + [r])) == Text(RowsItems(rows)) + Text(RowItems(r))
    ensures ItemsOk(RowsItems(rows + [r])) <==> ItemsOk(RowsItems(rows)) && ItemsOk(RowItems(r))
    ensures TransitionsOf(rows + [r]) ==
            TransitionsOf(rows)[r.state := (if r.state in TransitionsOf(rows) then TransitionsOf(rows)[r.state] else map[])
                                           + EdgesOf(r.edges)]
  {
    assert (rows + [r])[..|rows|] == rows;
    TextAppend(RowsItems(rows), RowItems(r));
    ItemsOkAppend(RowsItems(rows), RowItems(r));
  }

  method WriteTokens(tokens: map<int, int>) returns (out: string, ghost ps: seq<Pair>)
    requires forall s | s in tokens :: Fits(INT, s) && Fits(INT, tokens[s])
    ensures |ps| == |tokens| && MapOf(ps) == tokens
    ensures out == Text(PairItems(INT, INT, ps)) && ItemsOk(PairItems(INT, INT, ps))
  {
    out, ps := WriteEntries(INT, INT, tokens);
  }

  /** The entries of a map from numbers to numbers, in any order. */
  method WriteEntries(t: IntType, u: IntType, entries: map<int, int>) returns (out: string, ghost ps: seq<Pair>)
    requires t.low <= 0 && u.low <= 0 && forall k | k in entries :: Fits(t, k) && Fits(u, entries[k])
    ensures |ps| == |entries| && MapOf(ps) == entries
    ensures out == Text(PairItems(t, u, ps)) && ItemsOk(PairItems(t, u, ps))
  {
    out, ps := "", [];
    var rest := entries.Keys;
    assert entries - rest == map[];
    while rest != {}
      invariant rest <= entries.Keys && |ps| + |rest| == |entries| && MapOf(ps) == entries - rest
      invariant out == Text(PairItems(t, u, ps)) && ItemsOk(PairItems(t, u, ps))
      decreases rest
    {
      ghost var some := SomeMember(rest);
      var k :| k in rest;
      ghost var p := (k, entries[k]);
      PairItemsSnoc(t, u, ps, p);
      TextTwo(PairItems(t, u, ps), Number(t, k, ' '), Number(u, entries[k], '\n'));
      out := out + (IntText(k) + [' ']) + (IntText(entries[k]) + ['\n']);
      assert (ps + [p])[..|ps|] == ps;
      assert entries - (rest - {k}) == (entries - rest)[k := entries[k]];
      ps := ps + [p];
      rest := rest - {k};
    }
    assert entries - rest == entries;
  }

  method WriteFlags(skip: seq<bool>) returns (out: string)
    ensures out == Text(NumberItems(INT, Flags(skip), '\n')) && ItemsOk(NumberItems(INT, Flags(skip), '\n'))
  {
    out := "";
    for i := 0 to |skip|
      invariant out == Text(NumberItems(INT, Flags(skip)[..i], '\n')) && ItemsOk(NumberItems(INT, Flags(skip)[..i], '\n'))
    {
      var n := if skip[i] then 1 else 0;
      assert Flags(skip)[..i + 1] == Flags(skip)[..i] + [n];
      NumberItemsSnoc(INT, Flags(skip)[..i], n, '\n');
      TextOne(NumberItems(INT, Flags(skip)[..i], '\n'), Number(INT, n, '\n'));
      out := out + (IntText(n) + ['\n']);
    }
    assert Flags(skip)[..|skip|] == Flags(skip);
  }

  /** Writes a lexer cache. The order in which the containers are walked is not fixed, but what is
      written lists the automaton whatever the order. */
  method WriteDfaCache(h: Header, dfa: DFA, skip: seq<bool>) returns (out: string, ghost f: DfaFile)
    requires DfaOk(dfa, skip)
    ensures Lists(f, dfa, skip) && out == Text(HeaderItems(h) + DfaItems(f))
  {
    hide Text, NumberItems, RowsItems, PairItems, ItemsOk, EdgesOk, MapOf, TransitionsOf, HeaderItems;
    var header := WriteHeader(h);
    var states, accept := WriteStates(dfa.accept);
    var lines, rows := WriteRows(dfa.transitions);
    var entries, tokens := WriteTokens(dfa.acceptToken);
    var flags := WriteFlags(skip);
    f := DfaFile(dfa.start, accept, rows, tokens, skip);
    out := header +
      (((IntText(dfa.start) + ['\n']) + (IntText(|dfa.accept|) + ['\n'])) + (states +
      ((IntText(|dfa.transitions|) + ['\n']) + (lines +
      ((IntText(|dfa.acceptToken|) + ['\n']) + (entries +
      ((IntText(|skip|) + ['\n']) + flags)))))));
    DfaText(f);
    TextAppend(HeaderItems(h), DfaItems(f));
  }

  lemma DfaText(f: DfaFile)
    requires Fits(INT, f.start) && Fits(UINT64, |f.accept|) && Fits(UINT64, |f.rows|)
    requires Fits(UINT64, |f.acceptToken|) && Fits(UINT64, |f.skip|)
    requires ItemsOk(NumberItems(INT, f.accept, '\n')) && ItemsOk(RowsItems(f.rows))
    requires ItemsOk(PairItems(INT, INT, f.acceptToken)) && ItemsOk(NumberItems(INT, Flags(f.skip), '\n'))
    ensures ItemsOk(DfaItems(f))
    ensures Text(DfaItems(f)) ==
            ((IntText(f.start) + ['\n']) + (IntText(|f.accept|) + ['\n'])) + (Text(NumberItems(INT, f.accept, '\n')) +
            ((IntText(|f.rows|) + ['\n']) + (Text(RowsItems(f.rows)) +
            ((IntText(|f.acceptToken|) + ['\n']) + (Text(PairItems(INT, INT, f.acceptToken)) +
            ((IntText(|f.skip|) + ['\n']) + Text(NumberItems(INT, Flags(f.skip), '\n'))))))))
  {
    hide Text, NumberItems, RowsItems, PairItems, ItemsOk, IntText;
    var flags := NumberItems(INT, Flags(f.skip), '\n');
    Counted(|f.skip|, flags);
    var i8 := [Number(UINT64, |f.skip|, '\n')] + flags;
    Both(PairItems(INT, INT, f.acceptToken), i8);
    var i7 := PairItems(INT, INT, f.acceptToken) + i8;
    Counted(|f.acceptToken|, i7);
    var i6 := [Number(UINT64, |f.acceptToken|, '\n')] + i7;
    Both(RowsItems(f.rows), i6);
    var i5 := RowsItems(f.rows) + i6;
    Counted(|f.rows|, i5);
    var i4 := [Number(UINT64, |f.rows|, '\n')] + i5;
    Both(NumberItems(INT, f.accept, '\n'), i4);
    var i3 := NumberItems(INT, f.accept, '\n') + i4;
    var i, j := Number(INT, f.start, '\n'), Number(UINT64, |f.accept|, '\n');
    StartText(i, j);
    Both([i, j], i3);
  }

  lemma StartText(i: Item, j: Item)
    ensures Text([i, j]) == ItemText(i) + ItemText(j) && (ItemsOk([i, j]) <==> ItemOk(i) && ItemOk(j))
  {
    TextTwo([], i, j);
    assert [] + [i, j] == [i, j];
  }

  lemma Both(a: seq<Item>, b: seq<Item>)
    ensures Text(a + b) == Text(a) + Text(b)
    ensures ItemsOk(a + b) <==> ItemsOk(a) && ItemsOk(b)
  {
    TextAppend(a, b);
    ItemsOkAppend(a, b);
  }

  lemma Counted(n: nat, items: seq<Item>)
    requires Fits(UINT64, n) && ItemsOk(items)
    ensures Text([Number(UINT64, n, '\n')] + items) == (IntText(n) + ['\n']) + Text(items)
    ensures ItemsOk([Number(UINT64, n, '\n')] + items)
  {
    var i := Number(UINT64, n, '\n');
    TextOne([], i);
    assert [] + [i] == [i];
    Both([i], items);
  }

  method ReadStates(s: Stream, count: nat) returns (after: Stream, states: set<int>)
    ensures after == GetInts(s, INT, count).0 && states == set n | n in GetInts(s, INT, count).1
  {
    after, states := s, {};
    for i := 0 to count
      invariant after == GetInts(s, INT, i).0 && states == set n | n in GetInts(s, INT, i).1
    {
      var r := GetInt(after, INT);
      after := r.0;
      states := states + {r.1};
    }
  }

  method ReadEdges(s: Stream, count: nat, before: map<char, int>) returns (after: Stream, edges: map<char, int>)
    ensures after == GetPairs(s, INT, INT, count).0 && edges == before + EdgesOf(GetPairs(s, INT, INT, count).1)
  {
    hide GetInt, CharOf;
    after, edges := s, before;
    for j := 0 to count
      invariant after == GetPairs(s, INT, INT, j).0 && edges == before + EdgesOf(GetPairs(s, INT, INT, j).1)
    {
      ghost var ps := GetPairs(s, INT, INT, j).1;
      var c := GetInt(after, INT);
      var n := GetInt(c.0, INT);
      after := n.0;
      edges := edges[CharOf(c.1) := n.1];
      assert (ps + [(c.1, n.1)])[..|ps|] == ps;
    }
  }

  method ReadRows(s: Stream, count: nat) returns (after: Stream, transitions: map<int, map<char, int>>)
    ensures after == GetRows(s, count).0 && transitions == TransitionsOf(GetRows(s, count).1)
  {
    hide GetInt, GetPairs, EdgesOf;
    after, transitions := s, map[];
    for i := 0 to count
      invariant after == GetRows(s, i).0 && transitions == TransitionsOf(GetRows(s, i).1)
    {
      ghost var rows := GetRows(s, i).1;
      ghost var row := GetRow(after).1;
      var state := GetInt(after, INT);
      var edgeCount := GetInt(state.0, UINT64);
      var edges: map<char, int>;
      after, edges := ReadEdges(edgeCount.0, edgeCount.1, if state.1 in transitions then transitions[state.1] else map[]);
      transitions := transitions[state.1 := edges];
      assert (rows + [row])[..|rows|] == rows;
    }
  }

  method ReadEntries(s: Stream, t: IntType, u: IntType, count: nat) returns (after: Stream, entries: map<int, int>)
    ensures after == GetPairs(s, t, u, count).0 && entries == MapOf(GetPairs(s, t, u, count).1)
  {
    hide GetInt;
    after, entries := s, map[];
    for i := 0 to count
      invariant after == GetPairs(s, t, u, i).0 && entries == MapOf(GetPairs(s, t, u, i).1)
    {
      ghost var ps := GetPairs(s, t, u, i).1;
      var k := GetInt(after, t);
      var v := GetInt(k.0, u);
      after := v.0;
      entries := entries[k.1 := v.1];
      assert (ps + [(k.1, v.1)])[..|ps|] == ps;
    }
  }

  method ReadFlags(s: Stream, count: nat) returns (after: Stream, flags: seq<bool>)
    ensures after == GetInts(s, INT, count).0 && flags == Truths(GetInts(s, INT, count).1)
  {
    hide GetInt;
    after, flags := s, [];
    for i := 0 to count
      invariant after == GetInts(s, INT, i).0 && |flags| == i == |GetInts(s, INT, i).1|
      invariant forall k | 0 <= k < i :: flags[k] == (GetInts(s, INT, i).1[k] != 0)
    {
      var r := GetInt(after, INT);
      after := r.0;
      flags := flags + [r.1 != 0];
    }
  }

  /** Reads a lexer cache; a file that cannot be opened is a miss. */
  method ReadDfaCache(isOpen: bool, text: string, expected: Header) returns (r: Option<(DFA, seq<bool>)>)
    ensures r == if isOpen then ParseDfa(text, expected) else None
  {
    hide GetInt, GetInts, GetPairs, GetRows, ReadHeader, MapOf, TransitionsOf;
    if !isOpen {
      return None;
    }
    var header := ReadHeader(Stream(text, false, false), expected);
    if !header.1 {
      return None;
    }
    var start := GetInt(header.0, INT);
    var acceptCount := GetInt(start.0, UINT64);
    var s, accept := ReadStates(acceptCount.0, acceptCount.1);
    var rowCount := GetInt(s, UINT64);
    var transitions: map<int, map<char, int>>;
    s, transitions := ReadRows(rowCount.0, rowCount.1);
    var tokenCount := GetInt(s, UINT64);
    var tokens: map<int, int>;
    s, tokens := ReadEntries(tokenCount.0, INT, INT, tokenCount.1);
    var skipCount := GetInt(s, UINT64);
    var skip: seq<bool>;
    s, skip := ReadFlags(skipCount.0, skipCount.1);
    if s.Good() || s.eof {
      r := Some((DFA(start.1, accept, transitions, tokens), skip));
    } else {
      r := None;
    }
  }

  /** The final test of the stream does not notice a truncated file: one that ends after its header is
      accepted, as an automaton without states. */
  lemma TruncatedIsAccepted(h: Header)
    requires HeaderOk(h) && h.version == CACHE_VERSION
    ensures ParseDfa(Text(HeaderItems(h)), h) == Some((DFA(0, {}, map[], map[]), []))
  {
    hide HeaderItems, ReadHeader;
    HeaderNotEmpty(h);
    Opened(HeaderItems(h));
    var s := Stream(Text(HeaderItems(h)), false, false);
    assert HeaderItems(h) + [] == HeaderItems(h);
    HeaderReads(s, h, h, []);
    AtEnd(ReadHeader(s, h).0);
    assert DfaOf(DfaFile(0, [], [], [], [])) == DFA(0, {}, map[], map[]);
  }

  lemma AtEnd(s: Stream)
    requires Before(s, [])
    ensures GetDfa(s) == (Stream("", true, true), DfaFile(0, [], [], [], []))
  {
    assert GetInt(s, INT) == (Stream("", true, true), 0) by {
      assert SkipSpace("") == "";
      if s.rest != "" {
        assert s.rest[1..] == "";
      }
    }
    assert GetInt(Stream("", true, true), UINT64) == (Stream("", true, true), 0);
  }
}
