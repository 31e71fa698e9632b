/**
 Release versions. They are strings of digits (YYYYMMDDhhmm); some code compares them as
 strings, some after strconv.Atoi (internal/providers/structs.go:58-70,
 cmd/image-publisher/index.go:57-77). On strings of digits of equal length the two orders
 are the same.
 */
module Versions {
  import opened Wrappers

  /** Go's string order. */
  predicate Less(a: string, b: string) {
    if b == [] then false
    else if a == [] then true
    else a[0] < b[0] || (a[0] == b[0] && Less(a[1..], b[1..]))
  }

  lemma {:induction false} LessIrreflexive(a: string)
    ensures !Less(a, a)
  {
    if a != [] { LessIrreflexive(a[1..]); }
  }

  lemma {:induction false} LessTransitive(a: string, b: string, c: string)
    requires Less(a, b) && Less(b, c)
    ensures Less(a, c)
  {
    if a != [] && a[0] == b[0] == c[0] { LessTransitive(a[1..], b[1..], c[1..]); }
  }

  lemma {:induction false} LessAsymmetric(a: string, b: string)
    requires Less(a, b)
    ensures !Less(b, a)
  {
    LessIrreflexive(a);
    if Less(b, a) { LessTransitive(a, b, a); }
  }

  lemma {:induction false} LessTotal(a: string, b: string)
    ensures Less(a, b) || a == b || Less(b, a)
  {
    if a != [] && b != [] && a[0] == b[0] {
      LessTotal(a[1..], b[1..]);
      if a[1..] == b[1..] { assert a == [a[0]] + a[1..] && b == [b[0]] + b[1..]; }
    }
  }

  predicate IsDigits(s: string) {
    forall i :: 0 <= i < |s| ==> '0' <= s[i] <= '9'
  }

  function Digit(c: char): (d: int) {
    c as int - '0' as int
  }

  function Pow10(n: nat): (p: nat)
    ensures p > 0
  {
    if n == 0 then 1 else 10 * Pow10(n - 1)
  }

  /** The number a string of digits stands for. */
  function Value(s: string): (v: int)
    requires IsDigits(s)
    ensures 0 <= v < Pow10(|s|)
  {
    if s == [] then 0
    else
      DigitBound(Digit(s[0]), Pow10(|s| - 1));
      Digit(s[0]) * Pow10(|s| - 1) + Value(s[1..])
  }

  lemma {:induction false} DigitBound(d: int, p: nat)
    requires 0 <= d <= 9
    ensures 0 <= d * p <= 9 * p
  {
  }

  /** strconv.Atoi: an optional sign, then digits, within 64 bits. */
  function Atoi(s: string): (r: Option<int>) {
    var digits := if s != [] && (s[0] == '-' || s[0] == '+') then s[1..] else s;
    if digits == [] || !IsDigits(digits) then None
    else
      var v := if s[0] == '-' then -Value(digits) else Value(digits);
      if -0x8000_0000_0000_0000 <= v < 0x8000_0000_0000_0000 then Some(v) else None
  }

  /** Whether a > b as numbers; false if either is not one. */
  function DatetimeComparison(a: string, b: string): (r: bool) {
    match (Atoi(a), Atoi(b))
    case (Some(x), Some(y)) => x > y
    case _ => false
  }

  /** What the releases use: digits, few enough for an int64. */
  predicate IsVersion(s: string) {
    0 < |s| <= 18 && IsDigits(s)
  }

  lemma {:induction false} PowFits(n: nat)
    requires n <= 18
    ensures Pow10(n) <= 1_000_000_000_000_000_000
    decreases 18 - n
  {
    if n < 18 {
      PowFits(n + 1);
    } else {
      assert Pow10(4) == 10_000 && Pow10(6) == 1_000_000;
      assert Pow10(8) == 100_000_000 && Pow10(10) == 10_000_000_000;
      assert Pow10(12) == 1_000_000_000_000 && Pow10(14) == 100_000_000_000_000;
      assert Pow10(16) == 10_000_000_000_000_000;
    }
  }

  lemma {:induction false} VersionParses(s: string)
    requires IsVersion(s)
    ensures Atoi(s) == Some(Value(s))
  {
    PowFits(|s|);
    assert '0' <= s[0];
  }

  /** String order is number order on strings of digits of the same length. */
  lemma {:induction false} DigitsOrder(a: string, b: string)
    requires |a| == |b| && IsDigits(a) && IsDigits(b)
    ensures Less(a, b) <==> Value(a) < Value(b)
    ensures a == b <==> Value(a) == Value(b)
  {
    if a != [] {
      var p := Pow10(|a| - 1);
      DigitsOrder(a[1..], b[1..]);
      assert a == [a[0]] + a[1..] && b == [b[0]] + b[1..];
      if a[0] < b[0] {
        LeadingDigit(Digit(a[0]), Value(a[1..]), Digit(b[0]), Value(b[1..]), p);
      } else if b[0] < a[0] {
        LeadingDigit(Digit(b[0]), Value(b[1..]), Digit(a[0]), Value(a[1..]), p);
      }
    }
  }

  lemma {:induction false} LeadingDigit(d: int, x: int, e: int, y: int, p: nat)
    requires d < e && 0 <= x < p && 0 <= y < p
    ensures d * p + x < e * p + y
  {
    assert (d + 1) * p == d * p + p;
    assert (d + 1) * p <= e * p;
  }

  /** So the numeric comparison of the client and the string comparison of the customizer agree. */
  lemma {:induction false} ComparisonsAgree(a: string, b: string)
    requires IsVersion(a) && IsVersion(b) && |a| == |b|
    ensures DatetimeComparison(a, b) <==> Less(b, a)
  {
    VersionParses(a);
    VersionParses(b);
    DigitsOrder(b, a);
  }

  /** What is not a number compares as not newer, and not older. */
  lemma {:induction false} NotANumber(a: string, b: string, i: nat)
    requires 0 < i < |a| && !('0' <= a[i] <= '9')
    ensures Atoi(a) == None && !DatetimeComparison(a, b) && !DatetimeComparison(b, a)
  {
    assert a[1..][i - 1] == a[i];
  }
}
