/**
 Timestamps as the table stores them: milliseconds printed as decimal seconds, read back with an
 integer parse (suite/src/utils/dynamoDbHelpers.ts, suite/src/__tests__/correctness/fast/anchor.test.ts).
 */
module DecimalSeconds {
  import opened Wrappers

  predicate IsDigit(c: char) { '0' <= c <= '9' }

  function DigitValue(c: char): nat
    requires IsDigit(c)
  {
    c as int - '0' as int
  }

  function Digit(d: nat): char
    requires d < 10
  {
    ('0' as int + d) as char
  }

  function Digits(n: nat): string {
    if n < 10 then [Digit(n)] else Digits(n / 10) + [Digit(n % 10)]
  }

  /** Three decimals with the zeros at the end dropped; nothing at all for a whole second. */
  function Fraction(f: nat): string
    requires f < 1000
  {
    if f == 0 then ""
    else if f % 100 == 0 then ['.', Digit(f / 100)]
    else if f % 10 == 0 then ['.', Digit(f / 100), Digit(f / 10 % 10)]
    else ['.', Digit(f / 100), Digit(f / 10 % 10), Digit(f % 10)]
  }

  /** The shortest decimal form of ms / 1000. */
  function PrintSeconds(ms: int): string
    decreases ms < 0
  {
    if ms < 0 then "-" + PrintSeconds(-ms) else Digits(ms / 1000) + Fraction(ms % 1000)
  }

  /** The digits at the start of the text, read after the digits of acc. */
  function LeadingDigits(s: string, acc: nat): nat {
    if s == "" || !IsDigit(s[0]) then acc else LeadingDigits(s[1..], 10 * acc + DigitValue(s[0]))
  }

  /** Integer parse: an optional minus, then the leading digits; what follows is ignored. None is not-a-number. */
  function ParseInt(s: string): Option<int> {
    var negative := s != "" && s[0] == '-';
    var rest := if negative then s[1..] else s;
    if rest == "" || !IsDigit(rest[0]) then None
    else
      var value: int := LeadingDigits(rest, 0);
      Some(if negative then -value else value)
  }

  lemma {:induction false} DigitsReadBack(n: nat, rest: string)
    ensures LeadingDigits(Digits(n) + rest, 0) == LeadingDigits(rest, n)
    ensures Digits(n) != "" && IsDigit(Digits(n)[0])
  {
    if n < 10 {
      assert (Digits(n) + rest)[1..] == rest;
    } else {
      var d := Digit(n % 10);
      assert Digits(n) + rest == Digits(n / 10) + ([d] + rest);
      DigitsReadBack(n / 10, [d] + rest);
      assert ([d] + rest)[1..] == rest;
      assert 10 * (n / 10) + DigitValue(d) == n;
    }
  }

  lemma ParseNonNegative(ms: nat)
    ensures ParseInt(PrintSeconds(ms)) == Some(ms / 1000)
  {
    var whole := Digits(ms / 1000);
    DigitsReadBack(ms / 1000, Fraction(ms % 1000));
    assert PrintSeconds(ms)[0] == whole[0];
  }

  lemma ParseNegative(ms: int)
    requires ms < 0
    ensures ParseInt(PrintSeconds(ms)).Some? && ParseInt(PrintSeconds(ms)).value == -((-ms) / 1000)
  {
    ParseNonNegative(-ms);
    var text := PrintSeconds(-ms);
    assert PrintSeconds(ms) == "-" + text;
    assert PrintSeconds(ms)[1..] == text && PrintSeconds(ms)[0] == '-';
    DigitsReadBack(-ms / 1000, Fraction(-ms % 1000));
    assert IsDigit(text[0]);
  }

  /**
   Printing and parsing drops the fraction: it yields the floor of the seconds exactly for a time that
   is not negative or is a whole second.
   */
  lemma ParseIsFloor(ms: int)
    ensures ParseInt(PrintSeconds(ms)).Some?
    ensures ParseInt(PrintSeconds(ms)) == Some(ms / 1000) <==> ms >= 0 || ms % 1000 == 0
  {
    if ms >= 0 {
      ParseNonNegative(ms);
    } else {
      ParseNegative(ms);
    }
  }

  // ----- nothing is lost in print -----

  /** What follows the digits at the start of the text. */
  function AfterDigits(s: string): string {
    if s == "" || !IsDigit(s[0]) then s else AfterDigits(s[1..])
  }

  /** A point and up to three decimals, read as thousandths; no point is none. */
  function Thousandths(s: string): nat {
    if s == "" || s[0] != '.' then 0 else LeadingDigits((s[1..] + "000")[..3], 0)
  }

  /** Decimal seconds read back to the millisecond. */
  function ReadMillis(s: string): int {
    var negative := s != "" && s[0] == '-';
    var rest := if negative then s[1..] else s;
    var ms: int := 1000 * LeadingDigits(rest, 0) + Thousandths(AfterDigits(rest));
    if negative then -ms else ms
  }

  lemma {:induction false} AfterTheDigits(n: nat, rest: string)
    ensures AfterDigits(Digits(n) + rest) == AfterDigits(rest)
  {
    if n < 10 {
      assert (Digits(n) + rest)[1..] == rest;
    } else {
      var d := Digit(n % 10);
      assert Digits(n) + rest == Digits(n / 10) + ([d] + rest);
      AfterTheDigits(n / 10, [d] + rest);
      assert ([d] + rest)[1..] == rest;
    }
  }

  lemma ThreeDigits(a: nat, b: nat, c: nat)
    requires a < 10 && b < 10 && c < 10
    ensures LeadingDigits([Digit(a), Digit(b), Digit(c)], 0) == 100 * a + 10 * b + c
  {
    var s := [Digit(a), Digit(b), Digit(c)];
    assert s[1..] == [Digit(b), Digit(c)] && s[1..][1..] == [Digit(c)] && [Digit(c)][1..] == [];
    assert LeadingDigits([Digit(c)], 10 * a + b) == 10 * (10 * a + b) + c;
    assert LeadingDigits(s[1..], a) == LeadingDigits([Digit(c)], 10 * a + b);
  }

  lemma DigitsOfFraction(f: nat)
    requires f < 1000
    ensures f == 100 * (f / 100) + 10 * (f / 10 % 10) + f % 10 && f / 100 < 10
    ensures f % 100 == 0 <==> f / 10 % 10 == 0 && f % 10 == 0
  {
  }

  /** A text of a point and decimals, padded with zeros to three. */
  lemma PaddedDecimals(s: string, a: nat, b: nat, c: nat)
    requires a < 10 && b < 10 && c < 10
    requires || s == ['.', Digit(a), Digit(b), Digit(c)]
             || (s == ['.', Digit(a), Digit(b)] && c == 0)
             || (s == ['.', Digit(a)] && b == c == 0)
    ensures Thousandths(s) == 100 * a + 10 * b + c
  {
    assert (s[1..] + "000")[..3] == [Digit(a), Digit(b), Digit(c)];
    ThreeDigits(a, b, c);
  }

  /** The fraction reads back, and has no zero at its end. */
  lemma FractionReadsBack(f: nat)
    requires f < 1000
    ensures Thousandths(Fraction(f)) == f && AfterDigits(Fraction(f)) == Fraction(f)
    ensures f > 0 ==> Fraction(f)[|Fraction(f)| - 1] != '0'
  {
    DigitsOfFraction(f);
    if f > 0 { PaddedDecimals(Fraction(f), f / 100, f / 10 % 10, f % 10); }
  }

  /** The printed seconds are exact: they read back to the millisecond. */
  lemma PrintIsExact(ms: int)
    ensures ReadMillis(PrintSeconds(ms)) == ms
  {
    var size := if ms < 0 then -ms else ms;
    var text := Digits(size / 1000) + Fraction(size % 1000);
    DigitsReadBack(size / 1000, Fraction(size % 1000));
    AfterTheDigits(size / 1000, Fraction(size % 1000));
    FractionReadsBack(size % 1000);
    assert text[0] == Digits(size / 1000)[0];
    if ms < 0 { assert PrintSeconds(ms)[1..] == text; }
  }

  // ----- the age of a request -----

  /** The creation time that the anchor check sees, in milliseconds. */
  function ReadCreation(creation: int): int {
    ParseIsFloor(creation);
    1000 * ParseInt(PrintSeconds(creation)).value
  }

  function ComputedAge(now: int, creation: int): int {
    now - ReadCreation(creation)
  }

  /**
   The computed age of a request never exceeds its true age by a second or more, and it is at least its
   true age exactly for a creation time that is not negative or is a whole second.
   */
  lemma AgeBound(now: int, creation: int)
    ensures ComputedAge(now, creation) < now - creation + 1000
    ensures now - creation <= ComputedAge(now, creation) <==> creation >= 0 || creation % 1000 == 0
  {
    AgeError(now, creation);
  }

  /** The error is the fraction of the second that parsing drops, towards zero. */
  lemma AgeError(now: int, creation: int)
    ensures ComputedAge(now, creation) - (now - creation)
         == if creation >= 0 || creation % 1000 == 0 then creation % 1000 else creation % 1000 - 1000
  {
    if creation >= 0 {
      ParseNonNegative(creation);
      assert ReadCreation(creation) == 1000 * (creation / 1000);
    } else {
      ParseNegative(creation);
      assert ReadCreation(creation) == -1000 * (-creation / 1000);
      TowardsZero(creation);
    }
  }

  lemma TowardsZero(x: int)
    requires x < 0
    ensures -1000 * (-x / 1000) == x - if x % 1000 == 0 then 0 else x % 1000 - 1000
  {
  }

  /** A request at or past the interval is not seen to be. */
  predicate Missed(now: int, creation: int, interval: int) {
    now - creation >= interval && ComputedAge(now, creation) < interval
  }

  /** A request is seen to be at or past the interval a full second or more before it is. */
  predicate EarlyBySecond(now: int, creation: int, interval: int) {
    ComputedAge(now, creation) >= interval && now - creation <= interval - 1000
  }

  /**
   Whatever the interval, no request is timed out a full second early; and some interval misses a
   request exactly if its creation time is negative and not a whole second.
   */
  lemma TimeoutBound(now: int, creation: int)
    ensures forall interval :: !EarlyBySecond(now, creation, interval)
    ensures (exists interval :: Missed(now, creation, interval)) <==> creation < 0 && creation % 1000 != 0
  {
    AgeBound(now, creation);
    if creation < 0 && creation % 1000 != 0 {
      assert Missed(now, creation, now - creation);
    }
  }
}
