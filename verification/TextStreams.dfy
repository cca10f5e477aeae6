/** Formatted text: numbers, words and quoted strings written one after the other, and what a stream
    reads back from it. */
module TextStreams {
  import opened Decimal
  import opened Wrappers

  /** A stream being read: what is left of the text, and the two state bits. */
  datatype Stream = Stream(rest: string, failed: bool, eof: bool) {
    predicate Good() {
      !failed && !eof
    }
  }

  /** The integers a variable can hold. */
  datatype IntType = IntType(low: int, high: nat)

  const INT: IntType := IntType(-0x8000_0000, 0x7FFF_FFFF)
  const INT64: IntType := IntType(-0x8000_0000_0000_0000, 0x7FFF_FFFF_FFFF_FFFF)
  const UINT32: IntType := IntType(0, 0xFFFF_FFFF)
  const UINT64: IntType := IntType(0, 0xFFFF_FFFF_FFFF_FFFF)

  predicate Fits(t: IntType, n: int) {
    t.low <= n <= t.high
  }

  predicate IsSpace(c: char) {
    c == ' ' || c == '\n' || c == '\t' || c == '\r' || c == 11 as char || c == 12 as char
  }

  function SkipSpace(s: string): string {
    if s == "" || !IsSpace(s[0]) then s else SkipSpace(s[1..])
  }

  /** The number of leading characters that are digits. */
  function LeadingDigits(s: string): (n: nat)
    ensures n <= |s| && AllDigits(s[..n])
  {
    if s == "" || !IsDigit(s[0]) then 0 else 1 + LeadingDigits(s[1..])
  }

  /** The number of leading characters that are no space. */
  function LeadingWord(s: string): (n: nat)
    ensures n <= |s|
  {
    if s == "" || IsSpace(s[0]) then 0 else 1 + LeadingWord(s[1..])
  }

  /** The value a variable gets from a sign and digits; an unsigned variable wraps a negative number
      around. `None` when it does not fit. */
  function Narrow(t: IntType, negative: bool, n: nat): Option<int> {
    if t.low == 0 && negative then
      if n > t.high then None else Some(if n == 0 then 0 else t.high + 1 - n)
    else
      var value: int := if negative then -1 * n else n;
      if Fits(t, value) then Some(value) else None
  }

  function GetInt(s: Stream, t: IntType): (r: (Stream, int))
    ensures t.low <= 0 ==> Fits(t, r.1)
  {
    if !s.Good() then (s.(failed := true), 0)
    else
      var text := SkipSpace(s.rest);
      if text == "" then (Stream("", true, true), 0)
      else
        var signed := text[0] == '-' || text[0] == '+';
        var body := if signed then text[1..] else text;
        var k := LeadingDigits(body);
        if k == 0 then (Stream(body, true, body == ""), 0)
        else
          match Narrow(t, text[0] == '-', ToNat(body[..k]))
          case Some(v) => (Stream(body[k..], false, body[k..] == ""), v)
          case None => (Stream(body[k..], true, body[k..] == ""), if text[0] == '-' then t.low else t.high)
  }

  function GetWord(s: Stream): (Stream, string) {
    if !s.Good() then (s.(failed := true), "")
    else
      var text := SkipSpace(s.rest);
      if text == "" then (Stream("", true, true), "")
      else
        var k := LeadingWord(text);
        (Stream(text[k..], false, text[k..] == ""), text[..k])
  }

  /** The string up to the closing quote, escapes undone, and the text after the quote. */
  function Unquote(s: string): Option<(string, string)> {
    if s == "" then None
    else if s[0] == '"' then Some(("", s[1..]))
    else if s[0] == '\\' then
      if |s| < 2 then None
      else
        var r :- Unquote(s[2..]);
        Some(([s[1]] + r.0, r.1))
    else
      var r :- Unquote(s[1..]);
      Some(([s[0]] + r.0, r.1))
  }

  /** What has been read, escapes undone, when the text ends before the closing quote. */
  function Unclosed(s: string): string {
    if s == "" then ""
    else if s[0] == '\\' then if |s| < 2 then "" else [s[1]] + Unclosed(s[2..])
    else [s[0]] + Unclosed(s[1..])
  }

  function GetQuoted(s: Stream): (Stream, string) {
    if !s.Good() then (s.(failed := true), "")
    else
      var text := SkipSpace(s.rest);
      if text == "" then (Stream("", true, true), "")
      else if text[0] != '"' then GetWord(s)
      else
        match Unquote(text[1..])
        case Some(r) => (Stream(r.1, false, false), r.0)
        case None => (Stream("", true, true), Unclosed(text[1..]))
  }

  // ---------- writing ----------

  function IntText(n: int): (s: string)
    ensures s != ""
  {
    if n < 0 then "-" + ToText(-n) else ToText(n)
  }

  function Escaped(s: string): string {
    if s == "" then ""
    else (if s[0] == '"' || s[0] == '\\' then ['\\', s[0]] else [s[0]]) + Escaped(s[1..])
  }

  function QuotedText(s: string): string {
    "\"" + Escaped(s) + "\""
  }

  // ---------- reading what was written ----------

  /** The stream is good, and after at most one separator stands `text`. */
  ghost predicate At(s: Stream, text: string) {
    s.Good() && (s.rest == text || (s.rest != "" && IsSpace(s.rest[0]) && s.rest[1..] == text))
  }

  /** The text goes on with a separator. */
  predicate Separated(text: string) {
    text != "" && IsSpace(text[0])
  }

  lemma {:induction false} DigitsEnd(digits: string, rest: string)
    requires AllDigits(digits) && (rest == "" || !IsDigit(rest[0]))
    ensures LeadingDigits(digits + rest) == |digits|
    decreases digits
  {
    if digits == "" {
      assert digits + rest == rest;
    } else {
      assert (digits + rest)[1..] == digits[1..] + rest;
      DigitsEnd(digits[1..], rest);
    }
  }

  lemma SkipsOne(s: Stream, text: string)
    requires At(s, text) && text != "" && !IsSpace(text[0])
    ensures SkipSpace(s.rest) == text
  {
    if s.rest != text {
      assert SkipSpace(s.rest) == SkipSpace(s.rest[1..]);
    }
  }

  /** Reading a number that was written gives the number. */
  lemma IntReads(s: Stream, t: IntType, n: int, rest: string)
    requires Fits(t, n) && t.low <= 0 && At(s, IntText(n) + rest) && Separated(rest)
    ensures GetInt(s, t) == (Stream(rest, false, false), n)
  {
    var digits := ToText(if n < 0 then -n else n);
    var text := IntText(n) + rest;
    ToNatOfText(if n < 0 then -n else n);
    assert text[0] == if n < 0 then '-' else digits[0];
    SkipsOne(s, text);
    var body := if n < 0 then text[1..] else text;
    assert body == digits + rest;
    DigitsEnd(digits, rest);
    assert body[..|digits|] == digits && body[|digits|..] == rest;
  }

  lemma {:induction false} WordEnds(word: string, rest: string)
    requires (forall i | 0 <= i < |word| :: !IsSpace(word[i])) && Separated(rest)
    ensures LeadingWord(word + rest) == |word|
    decreases word
  {
    if word == "" {
      assert word + rest == rest;
    } else {
      assert (word + rest)[1..] == word[1..] + rest;
      WordEnds(word[1..], rest);
    }
  }

  lemma WordReads(s: Stream, word: string, rest: string)
    requires word != "" && (forall i | 0 <= i < |word| :: !IsSpace(word[i]))
    requires At(s, word + rest) && Separated(rest)
    ensures GetWord(s) == (Stream(rest, false, false), word)
  {
    SkipsOne(s, word + rest);
    WordEnds(word, rest);
    assert (word + rest)[|word|..] == rest && (word + rest)[..|word|] == word;
  }

  lemma {:induction false} UnquoteEscaped(text: string, rest: string)
    ensures Unquote(Escaped(text) + "\"" + rest) == Some((text, rest))
    decreases text
  {
    var all := Escaped(text) + "\"" + rest;
    if text == "" {
      assert all[1..] == rest;
    } else {
      var tail := Escaped(text[1..]) + "\"" + rest;
      UnquoteEscaped(text[1..], rest);
      assert [text[0]] + text[1..] == text;
      if text[0] == '"' || text[0] == '\\' {
        assert all == ['\\', text[0]] + tail;
        assert all[2..] == tail;
      } else {
        assert all == [text[0]] + tail;
        assert all[1..] == tail;
      }
    }
  }

  /** Reading a quoted string gives the string back, whatever it contains. */
  lemma QuotedReads(s: Stream, text: string, rest: string)
    requires At(s, QuotedText(text) + rest)
    ensures GetQuoted(s) == (Stream(rest, false, false), text)
  {
    var all := QuotedText(text) + rest;
    assert all[0] == '"' && all[1..] == Escaped(text) + "\"" + rest;
    SkipsOne(s, all);
    UnquoteEscaped(text, rest);
  }
}
