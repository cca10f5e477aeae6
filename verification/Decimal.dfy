/** The decimal text of a number, as `std::to_string` and stream output produce it. */
module Decimal {

  predicate IsDigit(c: char) {
    '0' <= c <= '9'
  }

  predicate AllDigits(s: string) {
    forall i | 0 <= i < |s| :: IsDigit(s[i])
  }

  function DigitChar(d: nat): (c: char)
    requires d < 10
    ensures IsDigit(c) && c as int - '0' as int == d
  {
    (('0' as int) + d) as char
  }

  function ToText(n: nat): (s: string)
    ensures s != [] && AllDigits(s)
  {
    if n < 10 then [DigitChar(n)] else ToText(n / 10) + [DigitChar(n % 10)]
  }

  /** The number a digit string denotes. */
  function ToNat(s: string): nat
    requires AllDigits(s)
  {
    if s == [] then 0
    else 10 * ToNat(s[..|s| - 1]) + (s[|s| - 1] as int - '0' as int)
  }

  lemma {:induction false} ToNatOfText(n: nat)
    ensures ToNat(ToText(n)) == n
  {
    var s := ToText(n);
    if n >= 10 {
      ToNatOfText(n / 10);
      assert s[..|s| - 1] == ToText(n / 10);
    }
  }

  lemma TextInjective(m: nat, n: nat)
    requires ToText(m) == ToText(n)
    ensures m == n
  {
    ToNatOfText(m);
    ToNatOfText(n);
  }

  lemma {:induction false} NoLeadingZero(n: nat)
    requires n > 0
    ensures ToText(n)[0] != '0'
  {
    if n >= 10 {
      NoLeadingZero(n / 10);
      assert ToText(n)[0] == ToText(n / 10)[0];
    }
  }

  /** A digit string without leading zero is the text of the number it denotes. */
  lemma {:induction false} TextOfNat(s: string)
    requires AllDigits(s) && s != [] && s[0] != '0'
    ensures ToNat(s) > 0 && ToText(ToNat(s)) == s
    decreases |s|
  {
    var rest, d := s[..|s| - 1], s[|s| - 1] as int - '0' as int;
    assert DigitChar(d) == s[|s| - 1];
    if rest == [] {
      assert ToNat(rest) == 0;
      assert s == [s[0]];
    } else {
      TextOfNat(rest);
      assert ToNat(s) == 10 * ToNat(rest) + d;
      assert ToNat(s) / 10 == ToNat(rest) && ToNat(s) % 10 == d;
      assert s == rest + [s[|s| - 1]];
    }
  }
}
