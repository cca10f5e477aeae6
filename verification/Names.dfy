/** Unique names for generated registers and labels (ir_generator/name_generator.hpp). */
module Names {
  import opened Decimal

  type Counters = map<string, nat>

  function Count(c: Counters, base: string): nat {
    if base in c then c[base] else 0
  }

  function Numbered(base: string, index: nat): string {
    base + ToText(index)
  }

  predicate EndsInDigit(s: string) {
    s != [] && IsDigit(s[|s| - 1])
  }

  /** `name` has been handed out for some base that does not end in a digit. */
  ghost predicate Used(c: Counters, name: string) {
    exists base: string, index: nat ::
      name == Numbered(base, index) && base in c && 1 <= index <= c[base] && !EndsInDigit(base)
  }

  /** `later` has handed out at least everything that `c` has. */
  ghost predicate Grown(c: Counters, later: Counters) {
    forall base :: base in c ==> base in later && c[base] <= later[base]
  }

  class NameManager {
    var counters: Counters

    constructor ()
      ensures counters == map[]
    {
      counters := map[];
    }

    method GenerateName(base: string) returns (name: string)
      modifies this
      ensures name == Numbered(base, Count(old(counters), base) + 1)
      ensures counters == old(counters)[base := Count(old(counters), base) + 1]
    {
      var index := 1;
      if base in counters {
        index := counters[base] + 1;
      }
      counters := counters[base := index];
      name := base + ToText(index);
    }
  }

  /** If two bases of different length give one name, the longer base ends in a digit. */
  lemma LongerBaseEndsInDigit(short: string, m: nat, long: string, n: nat)
    requires Numbered(short, m) == Numbered(long, n) && |short| < |long|
    ensures EndsInDigit(long)
  {
    var name := Numbered(long, n);
    assert long[|long| - 1] == name[|long| - 1] == ToText(m)[|long| - 1 - |short|];
  }

  lemma NumberedInjective(b1: string, n1: nat, b2: string, n2: nat)
    requires !EndsInDigit(b1) && !EndsInDigit(b2)
    requires Numbered(b1, n1) == Numbered(b2, n2)
    ensures b1 == b2 && n1 == n2
  {
    if |b1| < |b2| {
      LongerBaseEndsInDigit(b1, n1, b2, n2);
    } else if |b2| < |b1| {
      LongerBaseEndsInDigit(b2, n2, b1, n1);
    } else {
      var name := Numbered(b1, n1);
      assert b1 == name[..|b1|] == b2;
      assert ToText(n1) == name[|b1|..] == ToText(n2);
      TextInjective(n1, n2);
    }
  }

  /** The uniqueness NameManager exists for, as far as it goes: the next name of a base that does not end
      in a digit differs from every earlier name of such a base. */
  lemma FreshIsUnused(c: Counters, base: string)
    requires !EndsInDigit(base)
    ensures !Used(c, Numbered(base, Count(c, base) + 1))
    ensures Used(c[base := Count(c, base) + 1], Numbered(base, Count(c, base) + 1))
    ensures Grown(c, c[base := Count(c, base) + 1])
  {
    var name := Numbered(base, Count(c, base) + 1);
    if Used(c, name) {
      var b: string, n: nat :|
        name == Numbered(b, n) && b in c && 1 <= n <= c[b] && !EndsInDigit(b);
      NumberedInjective(b, n, base, Count(c, base) + 1);
      assert false;
    }
  }

  lemma UsedStaysUsed(c: Counters, later: Counters)
    requires Grown(c, later)
    ensures forall name :: Used(c, name) ==> Used(later, name)
  {
    forall name | Used(c, name) ensures Used(later, name) {
      var base: string, index: nat :|
        name == Numbered(base, index) && base in c && 1 <= index <= c[base] && !EndsInDigit(base);
      assert base in later && index <= later[base];
    }
  }

  /** `long` is `short` followed by digits, the first of them not zero. */
  predicate DigitsAfter(short: string, long: string) {
    && short <= long && |short| < |long|
    && AllDigits(long[|short|..]) && long[|short|] != '0'
  }

  predicate Collide(b1: string, b2: string) {
    DigitsAfter(b1, b2) || DigitsAfter(b2, b1)
  }

  /** Two different bases can be given the same name exactly when one is the other followed by digits,
      the first of them not zero. */
  lemma BasesCollideExactly(b1: string, b2: string)
    requires b1 != b2
    ensures (exists n1: nat, n2: nat :: 1 <= n1 && 1 <= n2 && Numbered(b1, n1) == Numbered(b2, n2)) <==> Collide(b1, b2)
  {
    if n1: nat, n2: nat :| 1 <= n1 && 1 <= n2 && Numbered(b1, n1) == Numbered(b2, n2) {
      SameNameCollides(b1, n1, b2, n2);
    }
    if DigitsAfter(b1, b2) {
      CollisionReached(b1, b2);
    }
    if DigitsAfter(b2, b1) {
      CollisionReached(b2, b1);
    }
  }

  lemma SameNameCollides(b1: string, n1: nat, b2: string, n2: nat)
    requires b1 != b2 && 1 <= n1 && 1 <= n2 && Numbered(b1, n1) == Numbered(b2, n2)
    ensures Collide(b1, b2)
  {
    hide ToText;
    if |b1| == |b2| {
      SameLength(b1, n1, b2, n2);
    } else if |b1| < |b2| {
      DigitsBetween(b1, n1, b2, n2);
    } else {
      DigitsBetween(b2, n2, b1, n1);
    }
  }

  lemma SameLength(b1: string, n1: nat, b2: string, n2: nat)
    requires |b1| == |b2| && Numbered(b1, n1) == Numbered(b2, n2)
    ensures b1 == b2
  {
    var name := Numbered(b1, n1);
    assert b1 == name[..|b1|] == b2;
  }

  lemma DigitsBetween(short: string, m: nat, long: string, n: nat)
    requires |short| < |long| && 1 <= m && Numbered(short, m) == Numbered(long, n)
    ensures DigitsAfter(short, long)
  {
    hide ToText;
    var name := Numbered(short, m);
    assert name[..|short|] == short && name[..|long|] == long && name[|short|..] == ToText(m);
    assert long[..|short|] == short;
    NoLeadingZero(m);
    assert forall i | |short| <= i < |long| :: long[i] == ToText(m)[i - |short|];
  }

  lemma CollisionReached(short: string, long: string)
    requires DigitsAfter(short, long)
    ensures exists m: nat, n: nat :: 1 <= m && 1 <= n && Numbered(short, m) == Numbered(long, n)
  {
    hide ToText, ToNat;
    var digits := long[|short|..] + ToText(1);
    TextOfNat(digits);
    assert long == short + long[|short|..];
    assert Numbered(short, ToNat(digits)) == Numbered(long, 1);
  }

  // ---------- bases that do not collide ----------

  /** Bases of which some may end in digits. */
  type Bases = set<string>

  /** No two of the bases collide; all of them start like the registers of variables. */
  ghost predicate Apart(u: Bases) {
    && (forall b | b in u :: b != [] && b[0] == '_')
    && forall b1, b2 | b1 in u && b2 in u :: !Collide(b1, b2)
  }

  /** A base in `u`, or one that neither starts like a variable's register nor ends in a digit. */
  predicate Allowed(u: Bases, base: string) {
    base in u || (!EndsInDigit(base) && (base == [] || base[0] != '_'))
  }

  /** `name` has been handed out for an allowed base. */
  ghost predicate Taken(u: Bases, c: Counters, name: string) {
    exists base: string, index: nat ::
      name == Numbered(base, index) && base in c && 1 <= index <= c[base] && Allowed(u, base)
  }

  lemma AllowedApart(u: Bases, b1: string, b2: string)
    requires Apart(u) && Allowed(u, b1) && Allowed(u, b2)
    ensures !Collide(b1, b2)
  {
    if DigitsAfter(b1, b2) {
      assert IsDigit(b2[|b1|..][|b2| - |b1| - 1]);
    }
    if DigitsAfter(b2, b1) {
      assert IsDigit(b1[|b2|..][|b1| - |b2| - 1]);
    }
  }

  /** The next name of an allowed base is new among the names of allowed bases. */
  lemma FreshIsNew(u: Bases, c: Counters, base: string)
    requires Apart(u) && Allowed(u, base)
    ensures !Taken(u, c, Numbered(base, Count(c, base) + 1))
    ensures Taken(u, c[base := Count(c, base) + 1], Numbered(base, Count(c, base) + 1))
    ensures Grown(c, c[base := Count(c, base) + 1])
  {
    hide Apart, Allowed, Collide;
    var next := Count(c, base) + 1;
    if Taken(u, c, Numbered(base, next)) {
      var b: string, n: nat :| Numbered(base, next) == Numbered(b, n) && b in c && 1 <= n <= c[b] && Allowed(u, b);
      if b == base {
        TextOfNumber(base, n, next);
      } else {
        AllowedApart(u, b, base);
        SameNameCollides(b, n, base, next);
      }
      assert false;
    }
  }

  lemma TextOfNumber(base: string, m: nat, n: nat)
    requires Numbered(base, m) == Numbered(base, n)
    ensures m == n
  {
    assert Numbered(base, m)[|base|..] == ToText(m) && Numbered(base, n)[|base|..] == ToText(n);
    TextInjective(m, n);
  }

  lemma TakenStays(u: Bases, c: Counters, later: Counters)
    requires Grown(c, later)
    ensures forall name :: Taken(u, c, name) ==> Taken(u, later, name)
  {
    hide Allowed;
    forall name | Taken(u, c, name) ensures Taken(u, later, name) {
      var base: string, index: nat :|
        name == Numbered(base, index) && base in c && 1 <= index <= c[base] && Allowed(u, base);
      assert base in later && index <= later[base];
    }
  }

  // ---------- names that were given before ----------

  /** `name` has been handed out. */
  ghost predicate Given(c: Counters, name: string) {
    exists base: string, index: nat :: base in c && 1 <= index <= c[base] && name == Numbered(base, index)
  }

  /** `other` has already been given its number that makes the same name as number `index` of `base`: one
      base is the other with digits, and these begin or end one of the numbers. */
  predicate Reached(c: Counters, base: string, index: nat, other: string)
    requires other in c
  {
    if |other| < |base| then
      DigitsAfter(other, base) && ToNat(base[|other|..] + ToText(index)) <= c[other]
    else
      && base <= other && 0 < |other| - |base| < |ToText(index)|
      && other[|base|..] <= ToText(index) && ToText(index)[|other| - |base|] != '0'
      && ToNat(ToText(index)[|other| - |base|..]) <= c[other]
  }

  /** The next name of a base was handed out before exactly when another base has reached the number
      that makes the same name. */
  lemma NextGivenExactly(c: Counters, base: string)
    ensures var next := Count(c, base) + 1;
            Given(c, Numbered(base, next)) <==> exists other :: other in c && Reached(c, base, next, other)
  {
    var next := Count(c, base) + 1;
    if Given(c, Numbered(base, next)) {
      var other: string, n: nat :| other in c && 1 <= n <= c[other] && Numbered(base, next) == Numbered(other, n);
      GivenIsReached(c, base, next, other, n);
    }
    if other :| other in c && Reached(c, base, next, other) {
      ReachedIsGiven(c, base, next, other);
    }
  }

  lemma GivenIsReached(c: Counters, base: string, index: nat, other: string, n: nat)
    requires other in c && 1 <= n <= c[other] && Numbered(base, index) == Numbered(other, n)
    requires base in c ==> index > c[base]
    ensures Reached(c, base, index, other)
  {
    hide ToText, ToNat;
    var name := Numbered(base, index);
    assert name[..|base|] == base && name[|base|..] == ToText(index);
    assert name[..|other|] == other && name[|other|..] == ToText(n);
    NoLeadingZero(n);
    ToNatOfText(n);
    if |other| < |base| {
      assert base[..|other|] == other;
      assert base[|other|..] + ToText(index) == ToText(n);
      assert forall i | 0 <= i < |base[|other|..]| :: base[|other|..][i] == ToText(n)[i];
      assert base[|other|] == ToText(n)[0];
    } else {
      assert other[..|base|] == base;
      if |other| == |base| {
        TextInjective(index, n);
        assert false;
      }
      assert other[|base|..] + ToText(n) == ToText(index);
      assert ToText(index)[|other| - |base|..] == ToText(n);
    }
  }

  lemma ReachedIsGiven(c: Counters, base: string, index: nat, other: string)
    requires other in c && Reached(c, base, index, other)
    ensures Given(c, Numbered(base, index))
  {
    hide ToText, ToNat;
    var digits := if |other| < |base| then base[|other|..] + ToText(index) else ToText(index)[|other| - |base|..];
    TextOfNat(digits);
    if |other| < |base| {
      assert base == other + base[|other|..];
    } else {
      assert other == base + other[|base|..];
      assert ToText(index) == other[|base|..] + digits;
    }
    assert Numbered(base, index) == Numbered(other, ToNat(digits));
  }

  /** Without the condition on digits the promise fails: `x` handed out eleven times and `x1`
      handed out once give the same name. */
  lemma DigitBasesCollide()
    ensures Numbered("x", 11) == Numbered("x1", 1)
  {
    assert ToText(11) == ToText(1) + ToText(1);
  }
}
