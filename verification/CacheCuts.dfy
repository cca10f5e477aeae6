/** What the cache readers make of a file that was cut short (compiler/frontend_cache.cpp): the fields in
    what is left of it, the last of them cut as well, and then zeros. */
module CacheCuts {
  import opened Decimal
  import opened FrontendCaches
  import opened Lexing
  import opened TextStreams
  import opened Wrappers

  // ---------- the fields left ----------

  /** The number that the first `n` characters of a written number denote. */
  function CutNumber(v: int, n: nat): int
    requires n <= |IntText(v)|
  {
    if v < 0 then if n == 0 then 0 else -1 * ToNat(ToText(-v)[..n - 1]) else ToNat(ToText(v)[..n])
  }

  /** A field of which `n` characters are left, and not its separator. */
  function CutItem(i: Item, n: nat): Item
    requires n < |ItemText(i)|
  {
    match i
    case Number(t, v, sep) => Number(t, CutNumber(v, n), sep)
    case Word(w, sep) => Word(w[..n], sep)
    case Quoted(text, sep) =>
      Quoted(if n == 0 then "" else if n == |QuotedText(text)| then text else Unclosed(Escaped(text)[..n - 1]), sep)
  }

  /** The fields in the first `n` characters of a written text. */
  function CutItems(items: seq<Item>, n: nat): seq<Item>
    decreases items
  {
    if items == [] || n == 0 then []
    else
      var length := |ItemText(items[0])|;
      if n >= length then [items[0]] + CutItems(items[1..], n - length) else [CutItem(items[0], n)]
  }

  function TakeInt(items: seq<Item>): (seq<Item>, int) {
    if items == [] || !items[0].Number? then ([], 0) else (items[1..], items[0].n)
  }

  function TakeQuoted(items: seq<Item>): (seq<Item>, string) {
    if items == [] || !items[0].Quoted? then ([], "") else (items[1..], items[0].text)
  }

  // ---------- streams over a cut text ----------

  /** Nothing is left but perhaps a separator, or a read has hit the end. */
  ghost predicate Exhausted(s: Stream) {
    if s.Good() then s.rest == "" || (|s.rest| == 1 && IsSpace(s.rest[0])) else s.eof && s.rest == ""
  }

  /** The stream stands before the first `n` characters of the text of `items`. */
  ghost predicate Within(s: Stream, items: seq<Item>, n: nat) {
    && ItemsOk(items) && n <= |Text(items)|
    && if n == 0 then Exhausted(s) else At(s, Text(items)[..n])
  }

  lemma IntExhausted(s: Stream, t: IntType)
    requires Exhausted(s)
    ensures GetInt(s, t).1 == 0 && Exhausted(GetInt(s, t).0) && !GetInt(s, t).0.Good()
  {
    if s.Good() && s.rest != "" {
      assert s.rest[1..] == "";
      assert SkipSpace(s.rest) == SkipSpace(s.rest[1..]) == "";
    }
  }

  lemma QuotedExhausted(s: Stream)
    requires Exhausted(s)
    ensures GetQuoted(s).1 == "" && Exhausted(GetQuoted(s).0)
  {
    if s.Good() && s.rest != "" {
      assert s.rest[1..] == "";
      assert SkipSpace(s.rest) == SkipSpace(s.rest[1..]) == "";
    }
  }

  lemma {:induction false} PrefixSmaller(digits: string, k: nat)
    requires AllDigits(digits) && k <= |digits|
    ensures ToNat(digits[..k]) <= ToNat(digits)
    decreases |digits|
  {
    if k < |digits| {
      var shorter := digits[..|digits| - 1];
      PrefixSmaller(shorter, k);
      assert shorter[..k] == digits[..k];
    } else {
      assert digits[..k] == digits;
    }
  }

  /** Digits up to the end of the text, after a sign perhaps. */
  lemma DigitsToEnd(s: Stream, t: IntType, negative: bool, body: string)
    requires AllDigits(body) && (body != "" || negative) && (negative ==> t.low < 0)
    requires Fits(t, if negative then -1 * ToNat(body) else ToNat(body))
    requires At(s, (if negative then "-" else "") + body)
    ensures var r := GetInt(s, t);
            r.1 == (if negative then -1 * ToNat(body) else ToNat(body)) && Exhausted(r.0) && !r.0.Good()
  {
    hide ToNat;
    var text := (if negative then "-" else "") + body;
    SkipsOne(s, text);
    assert negative ==> text[1..] == body;
    assert !negative ==> text == body;
    if body == "" {
      NoDigits();
    } else {
      DigitsEnd(body, "");
      assert body + "" == body && body[..|body|] == body && body[|body|..] == "";
    }
  }

  lemma NoDigits()
    ensures ToNat("") == 0
  {
  }

  /** A number cut short reads as the number that is left, and the end is noticed. */
  lemma CutIntReads(s: Stream, t: IntType, v: int, n: nat)
    requires 0 < n <= |IntText(v)| && Fits(t, v) && t.low <= 0 && At(s, IntText(v)[..n])
    ensures GetInt(s, t).1 == CutNumber(v, n) && Exhausted(GetInt(s, t).0) && !GetInt(s, t).0.Good()
  {
    hide GetInt, At, ToNat, ToText;
    var digits := ToText(if v < 0 then -v else v);
    var k := if v < 0 then n - 1 else n;
    ToNatOfText(if v < 0 then -v else v);
    PrefixSmaller(digits, k);
    assert IntText(v)[..n] == (if v < 0 then "-" else "") + digits[..k];
    DigitsToEnd(s, t, v < 0, digits[..k]);
  }

  lemma {:induction false} CutUnquotes(text: string, k: nat)
    requires k <= |Escaped(text)|
    ensures Unquote(Escaped(text)[..k]).None?
    decreases text
  {
    var all := Escaped(text)[..k];
    if text != "" && k > 0 {
      if text[0] == '"' || text[0] == '\\' {
        assert Escaped(text) == ['\\', text[0]] + Escaped(text[1..]);
        if k >= 2 {
          assert all[2..] == Escaped(text[1..])[..k - 2];
          CutUnquotes(text[1..], k - 2);
        }
      } else {
        assert all[1..] == Escaped(text[1..])[..k - 1];
        CutUnquotes(text[1..], k - 1);
      }
    }
  }

  lemma CutQuotedReads(s: Stream, text: string, sep: char, n: nat)
    requires 0 < n <= |QuotedText(text)| && At(s, QuotedText(text)[..n])
    ensures GetQuoted(s).1 == CutItem(Quoted(text, sep), n).text && Exhausted(GetQuoted(s).0)
  {
    var all := QuotedText(text)[..n];
    if n == |QuotedText(text)| {
      assert all == QuotedText(text) + "";
      QuotedReads(s, text, "");
    } else {
      SkipsOne(s, all);
      assert all[1..] == Escaped(text)[..n - 1];
      CutUnquotes(text, n - 1);
    }
  }

  // ---------- one field at a time ----------

  /** What is left after a field of `length` characters. */
  function After(n: nat, length: nat): nat {
    if n >= length then n - length else 0
  }

  lemma WithinText(i: Item, items: seq<Item>, n: nat)
    requires ItemsOk([i] + items) && n <= |Text([i] + items)|
    ensures ItemOk(i) && ItemsOk(items) && Text([i] + items) == ItemText(i) + Text(items)
    ensures n >= |ItemText(i)| ==> Text([i] + items)[..n] == ItemText(i) + Text(items)[..n - |ItemText(i)|]
    ensures n < |ItemText(i)| ==> Text([i] + items)[..n] == ItemText(i)[..n]
    ensures n > 0 ==>
              CutItems([i] + items, n) ==
              (if n >= |ItemText(i)| then [i] + CutItems(items, n - |ItemText(i)|) else [CutItem(i, n)])
    ensures ItemText(i) != ""
  {
    FirstItem(i, items);
    assert ([i] + items)[1..] == items;
  }

  lemma LandsWithin(sep: char, items: seq<Item>, n: nat)
    requires IsSpace(sep) && ItemsOk(items) && n <= |Text(items)|
    ensures Separated([sep] + Text(items)[..n]) && Within(Stream([sep] + Text(items)[..n], false, false), items, n)
  {
    assert ([sep] + Text(items)[..n])[1..] == Text(items)[..n];
  }

  /** Reading a number from a cut text: as from the fields left. */
  lemma TakesInt(s: Stream, t: IntType, v: int, sep: char, items: seq<Item>, n: nat)
    requires Within(s, [Number(t, v, sep)] + items, n)
    ensures var m := After(n, |ItemText(Number(t, v, sep))|);
            var taken := TakeInt(CutItems([Number(t, v, sep)] + items, n));
            && GetInt(s, t).1 == taken.1 && taken.0 == CutItems(items, m)
            && Within(GetInt(s, t).0, items, m) && (m > 0 ==> GetInt(s, t).1 == v)
            && (n < |ItemText(Number(t, v, sep))| <==> !GetInt(s, t).0.Good())
            && (n >= |ItemText(Number(t, v, sep))| ==> GetInt(s, t).1 == v)
  {
    hide GetInt, Text, IntText, ItemsOk, CutItems, CutNumber;
    var i := Number(t, v, sep);
    WithinText(i, items, n);
    NothingLeft(items);
    if n == 0 {
      NothingLeft([i] + items);
      IntExhausted(s, t);
    } else if n >= |ItemText(i)| {
      var m := n - |ItemText(i)|;
      var rest := [sep] + Text(items)[..m];
      assert IntText(v) + [sep] + Text(items)[..m] == IntText(v) + rest;
      LandsWithin(sep, items, m);
      IntReads(s, t, v, rest);
      assert ([i] + CutItems(items, m))[1..] == CutItems(items, m);
    } else {
      assert ItemText(i)[..n] == IntText(v)[..n];
      CutIntReads(s, t, v, n);
      assert [CutItem(i, n)][1..] == [];
    }
  }

  lemma NothingLeft(items: seq<Item>)
    ensures CutItems(items, 0) == []
  {
  }

  lemma TakesQuoted(s: Stream, text: string, sep: char, items: seq<Item>, n: nat)
    requires Within(s, [Quoted(text, sep)] + items, n)
    ensures var m := After(n, |ItemText(Quoted(text, sep))|);
            var taken := TakeQuoted(CutItems([Quoted(text, sep)] + items, n));
            && GetQuoted(s).1 == taken.1 && taken.0 == CutItems(items, m) && Within(GetQuoted(s).0, items, m)
  {
    hide GetQuoted, Text, QuotedText, ItemsOk, CutItems;
    var i := Quoted(text, sep);
    WithinText(i, items, n);
    NothingLeft(items);
    if n == 0 {
      NothingLeft([i] + items);
      QuotedExhausted(s);
    } else if n >= |ItemText(i)| {
      var m := n - |ItemText(i)|;
      var rest := [sep] + Text(items)[..m];
      assert QuotedText(text) + [sep] + Text(items)[..m] == QuotedText(text) + rest;
      LandsWithin(sep, items, m);
      QuotedReads(s, text, rest);
      assert ([i] + CutItems(items, m))[1..] == CutItems(items, m);
    } else {
      assert ItemText(i)[..n] == QuotedText(text)[..n];
      CutQuotedReads(s, text, sep, n);
      assert [CutItem(i, n)][1..] == [];
    }
  }

  // ---------- rows of numbers and pairs ----------

  function AsCount(n: int): nat {
    if n < 0 then 0 else n
  }

  function TakeInts(items: seq<Item>, count: nat): (seq<Item>, seq<int>) {
    if count == 0 then (items, [])
    else
      var before := TakeInts(items, count - 1);
      var last := TakeInt(before.0);
      (last.0, before.1 + [last.1])
  }

  function TakePairs(items: seq<Item>, count: nat): (seq<Item>, seq<Pair>) {
    if count == 0 then (items, [])
    else
      var before := TakePairs(items, count - 1);
      var (i1, a) := TakeInt(before.0);
      var (i2, b) := TakeInt(i1);
      (i2, before.1 + [(a, b)])
  }

  lemma {:induction false} IntsExhausted(s: Stream, t: IntType, count: nat)
    requires Exhausted(s)
    ensures Exhausted(GetInts(s, t, count).0) && GetInts(s, t, count).1 == TakeInts([], count).1
    ensures TakeInts([], count).0 == []
    decreases count
  {
    hide GetInt;
    if count > 0 {
      IntsExhausted(s, t, count - 1);
      IntExhausted(GetInts(s, t, count - 1).0, t);
    }
  }

  lemma {:induction false} PairsExhausted(s: Stream, t: IntType, u: IntType, count: nat)
    requires Exhausted(s)
    ensures Exhausted(GetPairs(s, t, u, count).0) && GetPairs(s, t, u, count).1 == TakePairs([], count).1
    ensures TakePairs([], count).0 == []
    decreases count
  {
    hide GetInt;
    if count > 0 {
      PairsExhausted(s, t, u, count - 1);
      var s1 := GetPairs(s, t, u, count - 1).0;
      IntExhausted(s1, t);
      IntExhausted(GetInt(s1, t).0, u);
    }
  }

  /** `count` numbers, of those that were written; with nothing left, `count` may be anything. */
  lemma {:induction false} TakesInts(s: Stream, t: IntType, ns: seq<int>, sep: char, items: seq<Item>, n: nat, count: nat)
    returns (m: nat)
    requires Within(s, NumberItems(t, ns, sep) + items, n) && ItemsOk(items) && (n > 0 ==> count == |ns|)
    ensures var taken := TakeInts(CutItems(NumberItems(t, ns, sep) + items, n), count);
            && GetInts(s, t, count).1 == taken.1 && taken.0 == CutItems(items, m)
            && Within(GetInts(s, t, count).0, items, m)
    decreases count
  {
    hide GetInt, Text, ItemsOk, CutItems, TakeInt, Exhausted, At;
    if n == 0 {
      m := 0;
      NothingLeft(NumberItems(t, ns, sep) + items);
      NothingLeft(items);
      IntsExhausted(s, t, count);
    } else if ns == [] {
      assert NumberItems(t, ns, sep) + items == items;
      m := n;
    } else {
      var k := |ns| - 1;
      var last := [Number(t, ns[k], sep)];
      assert NumberItems(t, ns, sep) + items == NumberItems(t, ns[..k], sep) + (last + items);
      LastOk(NumberItems(t, ns[..k], sep), last, items);
      m := TakesInts(s, t, ns[..k], sep, last + items, n, k);
      TakesInt(GetInts(s, t, k).0, t, ns[k], sep, items, m);
      m := After(m, |ItemText(last[0])|);
    }
  }

  lemma LastOk(a: seq<Item>, b: seq<Item>, c: seq<Item>)
    requires ItemsOk(a + (b + c))
    ensures ItemsOk(b + c) && ItemsOk(c)
  {
    assert forall i | i in b + c :: i in a + (b + c);
    assert forall i | i in c :: i in b + c;
  }

  lemma {:induction false} TakesPairs(s: Stream, t: IntType, u: IntType, ps: seq<Pair>, items: seq<Item>, n: nat, count: nat)
    returns (m: nat)
    requires Within(s, PairItems(t, u, ps) + items, n) && ItemsOk(items) && (n > 0 ==> count == |ps|)
    ensures var taken := TakePairs(CutItems(PairItems(t, u, ps) + items, n), count);
            && GetPairs(s, t, u, count).1 == taken.1 && taken.0 == CutItems(items, m)
            && Within(GetPairs(s, t, u, count).0, items, m)
    decreases count
  {
    hide GetInt, Text, ItemsOk, CutItems, TakeInt, Exhausted, At;
    if n == 0 {
      m := 0;
      NothingLeft(PairItems(t, u, ps) + items);
      NothingLeft(items);
      PairsExhausted(s, t, u, count);
    } else if ps == [] {
      assert PairItems(t, u, ps) + items == items;
      m := n;
    } else {
      var k := |ps| - 1;
      var second := [Number(u, ps[k].1, '\n')];
      var first := [Number(t, ps[k].0, ' ')];
      assert PairItems(t, u, ps) + items == PairItems(t, u, ps[..k]) + (first + (second + items));
      LastOk(PairItems(t, u, ps[..k]), first, second + items);
      m := TakesPairs(s, t, u, ps[..k], first + (second + items), n, k);
      var s1 := GetPairs(s, t, u, k).0;
      TakesInt(s1, t, ps[k].0, ' ', second + items, m);
      m := After(m, |ItemText(first[0])|);
      TakesInt(GetInt(s1, t).0, u, ps[k].1, '\n', items, m);
      m := After(m, |ItemText(second[0])|);
    }
  }

  // ---------- the header ----------

  lemma {:induction false} WholeWord(word: string)
    requires forall i | 0 <= i < |word| :: !IsSpace(word[i])
    ensures LeadingWord(word) == |word|
    decreases word
  {
    if word != "" {
      WholeWord(word[1..]);
    }
  }

  /** The first word, from a text cut at `n`. */
  lemma TakesWord(s: Stream, word: string, sep: char, items: seq<Item>, n: nat)
    requires Within(s, [Word(word, sep)] + items, n)
    ensures var length := |ItemText(Word(word, sep))|;
            && Within(GetWord(s).0, items, After(n, length))
            && (n < length ==> !GetWord(s).0.Good()) && (n >= length ==> GetWord(s).1 == word)
  {
    hide Text, ItemsOk, CutItems, LeadingWord, GetWord;
    var i := Word(word, sep);
    WithinText(i, items, n);
    if n == 0 {
      WordExhausted(s);
    } else if n >= |ItemText(i)| {
      var rest := [sep] + Text(items)[..n - |ItemText(i)|];
      assert word + [sep] + Text(items)[..n - |ItemText(i)|] == word + rest;
      LandsWithin(sep, items, n - |ItemText(i)|);
      WordReads(s, word, rest);
    } else {
      assert ItemText(i)[..n] == word[..n];
      CutWordReads(s, word[..n]);
    }
  }

  lemma WordExhausted(s: Stream)
    requires Exhausted(s)
    ensures Exhausted(GetWord(s).0) && !GetWord(s).0.Good()
  {
    if s.Good() && s.rest != "" {
      assert s.rest[1..] == "";
      assert SkipSpace(s.rest) == SkipSpace(s.rest[1..]) == "";
    }
  }

  lemma CutWordReads(s: Stream, word: string)
    requires word != "" && At(s, word) && forall i | 0 <= i < |word| :: !IsSpace(word[i])
    ensures Exhausted(GetWord(s).0) && !GetWord(s).0.Good()
  {
    SkipsOne(s, word);
    WholeWord(word);
  }

  /** Once a stream is not good it never is again. */
  lemma NeverGoodAgain(s: Stream, t: IntType)
    requires !s.Good()
    ensures !GetInt(s, t).0.Good()
  {
  }

  /** A header is read, and the stream still good, exactly when all of it is there, newline included. */
  lemma TakesHeader(s: Stream, h: Header, expected: Header, items: seq<Item>, n: nat)
    requires expected.version == CACHE_VERSION && Within(s, HeaderItems(h) + items, n)
    ensures var length := |Text(HeaderItems(h))|;
            && (n < length ==> !ReadHeader(s, expected).1)
            && (n >= length ==> Within(ReadHeader(s, expected).0, items, n - length))
            && (n >= length ==> (ReadHeader(s, expected).1 <==> h == expected))
  {
    hide GetInt, GetWord, Exhausted, At, CutItems, TakeInt, ItemsOk, IntText;
    var f0, f1, f2 := Word(h.magic, ' '), Number(INT, h.version, ' '), Number(UINT64, h.signature.size, ' ');
    var f3, f4 := Number(INT64, h.signature.mtime, ' '), Number(UINT64, h.fingerprint, '\n');
    var i4 := [f4] + items;
    var i3 := [f3] + i4;
    var i2 := [f2] + i3;
    var i1 := [f1] + i2;
    assert HeaderItems(h) + items == [f0] + i1;
    HeaderLength(h);
    var n1 := After(n, |ItemText(f0)|);
    TakesWord(s, h.magic, ' ', i1, n);
    var s1 := GetWord(s).0;
    TakesInt(s1, INT, h.version, ' ', i2, n1);
    var n2, s2 := After(n1, |ItemText(f1)|), GetInt(s1, INT).0;
    TakesInt(s2, UINT64, h.signature.size, ' ', i3, n2);
    var n3, s3 := After(n2, |ItemText(f2)|), GetInt(s2, UINT64).0;
    TakesInt(s3, INT64, h.signature.mtime, ' ', i4, n3);
    var n4, s4 := After(n3, |ItemText(f3)|), GetInt(s3, INT64).0;
    TakesInt(s4, UINT64, h.fingerprint, '\n', items, n4);
    assert n < |Text(HeaderItems(h))| ==> n4 < |ItemText(f4)|;
  }

  lemma HeaderLength(h: Header)
    ensures |Text(HeaderItems(h))| ==
            |ItemText(Word(h.magic, ' '))| + |ItemText(Number(INT, h.version, ' '))| +
            |ItemText(Number(UINT64, h.signature.size, ' '))| + |ItemText(Number(INT64, h.signature.mtime, ' '))| +
            |ItemText(Number(UINT64, h.fingerprint, '\n'))|
  {
    var f0, f1, f2 := Word(h.magic, ' '), Number(INT, h.version, ' '), Number(UINT64, h.signature.size, ' ');
    var f3, f4 := Number(INT64, h.signature.mtime, ' '), Number(UINT64, h.fingerprint, '\n');
    assert HeaderItems(h) == [f0] + ([f1] + ([f2] + ([f3] + [f4])));
    TextOne([f1] + ([f2] + ([f3] + [f4])), f0);
    TextOne([f2] + ([f3] + [f4]), f1);
    TextOne([f3] + [f4], f2);
    TextOne([f4], f3);
    TextOne([], f4);
    assert [f4] + [] == [f4];
  }

  lemma TextOne(items: seq<Item>, i: Item)
    ensures Text([i] + items) == ItemText(i) + Text(items)
  {
    assert ([i] + items)[1..] == items;
  }

  // ---------- the automaton ----------

  function TakeRow(items: seq<Item>): (seq<Item>, Row)
  {
    var (i1, state) := TakeInt(items);
    var (i2, count) := TakeInt(i1);
    var (i3, edges) := TakePairs(i2, AsCount(count));
    (i3, Row(state, edges))
  }

  function TakeRows(items: seq<Item>, count: nat): (seq<Item>, seq<Row>) {
    if count == 0 then (items, [])
    else
      var before := TakeRows(items, count - 1);
      var (i1, row) := TakeRow(before.0);
      (i1, before.1 + [row])
  }

  /** The automaton's file as far as its fields are left. */
  function TakeDfa(items: seq<Item>): DfaFile {
    var (i1, start) := TakeInt(items);
    var (i2, acceptCount) := TakeInt(i1);
    var (i3, accept) := TakeInts(i2, AsCount(acceptCount));
    var (i4, rowCount) := TakeInt(i3);
    var (i5, rows) := TakeRows(i4, AsCount(rowCount));
    var (i6, tokenCount) := TakeInt(i5);
    var (i7, tokens) := TakePairs(i6, AsCount(tokenCount));
    var (i8, skipCount) := TakeInt(i7);
    var (_, flags) := TakeInts(i8, AsCount(skipCount));
    DfaFile(start, accept, rows, tokens, Truths(flags))
  }

  lemma TakesRow(s: Stream, r: Row, items: seq<Item>, n: nat) returns (m: nat)
    requires Within(s, RowItems(r) + items, n) && ItemsOk(items)
    ensures var taken := TakeRow(CutItems(RowItems(r) + items, n));
            GetRow(s).1 == taken.1 && taken.0 == CutItems(items, m) && Within(GetRow(s).0, items, m)
  {
    hide GetInt, GetPairs, PairItems, Text, CutItems, TakeInt, TakePairs, Exhausted, At, ItemText, ItemsOk;
    var edges := PairItems(INT, INT, r.edges) + items;
    var count := Number(UINT64, |r.edges|, '\n');
    var first := Number(INT, r.state, ' ');
    assert RowItems(r) + items == [first] + ([count] + edges);
    TakesInt(s, INT, r.state, ' ', [count] + edges, n);
    var n1, s1 := After(n, |ItemText(first)|), GetInt(s, INT).0;
    TakesInt(s1, UINT64, |r.edges|, '\n', edges, n1);
    var n2, s2 := After(n1, |ItemText(count)|), GetInt(s1, UINT64).0;
    m := TakesPairs(s2, INT, INT, r.edges, items, n2, GetInt(s1, UINT64).1);
  }

  lemma RowExhausted(s: Stream)
    requires Exhausted(s)
    ensures Exhausted(GetRow(s).0) && TakeRow([]) == ([], GetRow(s).1)
  {
    hide GetInt;
    IntExhausted(s, INT);
    IntExhausted(GetInt(s, INT).0, UINT64);
  }

  lemma {:induction false} RowsExhausted(s: Stream, count: nat)
    requires Exhausted(s)
    ensures Exhausted(GetRows(s, count).0) && TakeRows([], count) == ([], GetRows(s, count).1)
    decreases count
  {
    hide GetRow, TakeRow;
    if count > 0 {
      RowsExhausted(s, count - 1);
      RowExhausted(GetRows(s, count - 1).0);
    }
  }

  lemma {:induction false} TakesRows(s: Stream, rows: seq<Row>, items: seq<Item>, n: nat, count: nat) returns (m: nat)
    requires Within(s, RowsItems(rows) + items, n) && ItemsOk(items) && (n > 0 ==> count == |rows|)
    ensures var taken := TakeRows(CutItems(RowsItems(rows) + items, n), count);
            GetRows(s, count).1 == taken.1 && taken.0 == CutItems(items, m) && Within(GetRows(s, count).0, items, m)
    decreases count
  {
    hide GetRow, TakeRow, RowItems, Text, CutItems, Exhausted, At, ItemsOk;
    if n == 0 {
      m := 0;
      NothingLeft(RowsItems(rows) + items);
      NothingLeft(items);
      RowsExhausted(s, count);
    } else if rows == [] {
      assert RowsItems(rows) + items == items;
      m := n;
    } else {
      var k := |rows| - 1;
      assert RowsItems(rows) + items == RowsItems(rows[..k]) + (RowItems(rows[k]) + items);
      LastOk(RowsItems(rows[..k]), RowItems(rows[k]), items);
      m := TakesRows(s, rows[..k], RowItems(rows[k]) + items, n, k);
      m := TakesRow(GetRows(s, k).0, rows[k], items, m);
    }
  }

  /** Reading an automaton from a cut file gives what its remaining fields say, and the final test of the
      stream accepts it. */
  lemma TakesDfa(s: Stream, f: DfaFile, n: nat)
    requires Within(s, DfaItems(f), n)
    ensures GetDfa(s).1 == TakeDfa(CutItems(DfaItems(f), n)) && (GetDfa(s).0.Good() || GetDfa(s).0.eof)
  {
    hide GetInt, GetInts, GetPairs, GetRows, NumberItems, PairItems, RowsItems, Text, CutItems, TakeInt, TakeInts, TakePairs,
      TakeRows, At, ItemText, ItemsOk;
    var flags := Flags(f.skip);
    var i9 := NumberItems(INT, flags, '\n') + [];
    var c8 := Number(UINT64, |f.skip|, '\n');
    var i7 := PairItems(INT, INT, f.acceptToken) + ([c8] + i9);
    var c6 := Number(UINT64, |f.acceptToken|, '\n');
    var i5 := RowsItems(f.rows) + ([c6] + i7);
    var c4 := Number(UINT64, |f.rows|, '\n');
    var i3 := NumberItems(INT, f.accept, '\n') + ([c4] + i5);
    var c2 := Number(UINT64, |f.accept|, '\n');
    var c1 := Number(INT, f.start, '\n');
    assert DfaItems(f) == [c1] + ([c2] + i3);
    PartsOk(c1, c2, i3, NumberItems(INT, f.accept, '\n'), c4, i5, RowsItems(f.rows), c6, i7,
            PairItems(INT, INT, f.acceptToken), c8, i9);
    TakesInt(s, INT, f.start, '\n', [c2] + i3, n);
    var n1, s1 := After(n, |ItemText(c1)|), GetInt(s, INT).0;
    TakesInt(s1, UINT64, |f.accept|, '\n', i3, n1);
    var n2, r2 := After(n1, |ItemText(c2)|), GetInt(s1, UINT64);
    var n3 := TakesInts(r2.0, INT, f.accept, '\n', [c4] + i5, n2, r2.1);
    var s3 := GetInts(r2.0, INT, r2.1).0;
    TakesInt(s3, UINT64, |f.rows|, '\n', i5, n3);
    var n4, r4 := After(n3, |ItemText(c4)|), GetInt(s3, UINT64);
    var n5 := TakesRows(r4.0, f.rows, [c6] + i7, n4, r4.1);
    var s5 := GetRows(r4.0, r4.1).0;
    TakesInt(s5, UINT64, |f.acceptToken|, '\n', i7, n5);
    var n6, r6 := After(n5, |ItemText(c6)|), GetInt(s5, UINT64);
    var n7 := TakesPairs(r6.0, INT, INT, f.acceptToken, [c8] + i9, n6, r6.1);
    var s7 := GetPairs(r6.0, INT, INT, r6.1).0;
    TakesInt(s7, UINT64, |f.skip|, '\n', i9, n7);
    var n8, r8 := After(n7, |ItemText(c8)|), GetInt(s7, UINT64);
    var n9 := TakesInts(r8.0, INT, flags, '\n', [], n8, r8.1);
    AcceptedAtEnd(GetInts(r8.0, INT, r8.1).0, n9);
  }

  lemma AcceptedAtEnd(s: Stream, n: nat)
    requires Within(s, [], n)
    ensures s.Good() || s.eof
  {
  }

  lemma PartsOk(c1: Item, c2: Item, i3: seq<Item>, a: seq<Item>, c4: Item, i5: seq<Item>, b: seq<Item>, c6: Item,
                i7: seq<Item>, c: seq<Item>, c8: Item, i9: seq<Item>)
    requires ItemsOk([c1] + ([c2] + i3)) && i3 == a + ([c4] + i5) && i5 == b + ([c6] + i7) && i7 == c + ([c8] + i9)
    ensures ItemsOk([c4] + i5) && ItemsOk([c6] + i7) && ItemsOk([c8] + i9) && ItemsOk([])
  {
    hide ItemsOk;
    LastOk([c1], [c2], i3);
    LastOk(a, [c4], i5) by {
      assert a + ([c4] + i5) == i3;
    }
    LastOk(b, [c6], i7);
    LastOk(c, [c8], i9);
    assert i9 + [] == i9;
    LastOk([c8], i9, []);
  }

  /** A written lexer cache cut after any number of characters: it is accepted exactly when its header is
      there to the newline and is the expected one, whatever else is missing; and it is read as an
      automaton with the fields that are left, the last of them cut short, and zeros for the rest. */
  lemma CutLexerCache(f: DfaFile, h: Header, expected: Header, n: nat)
    requires ItemsOk(DfaItems(f)) && HeaderOk(h) && expected.version == CACHE_VERSION
    requires n <= |Text(HeaderItems(h) + DfaItems(f))|
    ensures var length := |Text(HeaderItems(h))|;
            ParseDfa(Text(HeaderItems(h) + DfaItems(f))[..n], expected) ==
            if n < length || h != expected then None
            else
              var g := TakeDfa(CutItems(DfaItems(f), n - length));
              Some((DfaOf(g), g.skip))
  {
    hide ReadHeader, GetDfa, DfaItems, HeaderItems, Text, CutItems, TakeDfa;
    var items := HeaderItems(h) + DfaItems(f);
    var s := Stream(Text(items)[..n], false, false);
    ItemsOkAppend(HeaderItems(h), DfaItems(f));
    assert Within(s, items, n);
    TakesHeader(s, h, expected, DfaItems(f), n);
    var length := |Text(HeaderItems(h))|;
    if n >= length {
      TakesDfa(ReadHeader(s, expected).0, f, n - length);
    }
  }
}
