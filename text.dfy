/** Decimal rendering of natural numbers, as `usize`'s `Display` writes them
    (most significant digit first, no leading zeros), with its inverse. */
module Text {

  predicate IsDigit(ch: char) {
    '0' <= ch <= '9'
  }

  /** Every character of s is a decimal digit. */
  predicate AllDigits(s: string) {
    forall i :: 0 <= i < |s| ==> IsDigit(s[i])
  }

  /** The text a rendered rational magnitude consists of: digits and possibly
      the fraction bar of `numer/denom`, and at least one character. */
  predicate Numeral(s: string) {
    |s| > 0 && forall i :: 0 <= i < |s| ==> IsDigit(s[i]) || s[i] == '/'
  }

  function DigitChar(d: nat): (ch: char)
    requires d < 10
    ensures IsDigit(ch) && (ch as int) - ('0' as int) == d
  {
    (('0' as int) + d) as char
  }

  function DigitValue(ch: char): (d: nat)
    requires IsDigit(ch)
    ensures d < 10 && DigitChar(d) == ch
  {
    (ch as int) - ('0' as int)
  }

  /** The decimal digits of n. */
  function NatToString(n: nat): (s: string)
    ensures |s| > 0 && AllDigits(s)
    ensures s[0] == '0' ==> n == 0
    decreases n
  {
    if n < 10 then [DigitChar(n)] else NatToString(n / 10) + [DigitChar(n % 10)]
  }

  /** The number a string of decimal digits denotes. */
  function DigitsValue(s: string): nat
    requires AllDigits(s)
  {
    if s == [] then 0 else 10 * DigitsValue(s[..|s| - 1]) + DigitValue(s[|s| - 1])
  }

  /** Reading back the rendering of n gives n. */
  lemma {:induction false} DigitsValueOfNatToString(n: nat)
    ensures DigitsValue(NatToString(n)) == n
    decreases n
  {
    var s := NatToString(n);
    if n >= 10 {
      DigitsValueOfNatToString(n / 10);
      assert s[..|s| - 1] == NatToString(n / 10);
    }
  }

  /** Distinct numbers render differently. */
  lemma NatToStringInjective(m: nat, n: nat)
    ensures NatToString(m) == NatToString(n) ==> m == n
  {
    DigitsValueOfNatToString(m);
    DigitsValueOfNatToString(n);
  }

  /** How often ch occurs in s. */
  function Count(s: string, ch: char): nat {
    if s == [] then 0 else Count(s[..|s| - 1], ch) + (if s[|s| - 1] == ch then 1 else 0)
  }

  lemma {:induction false} CountConcat(a: string, b: string, ch: char)
    ensures Count(a + b, ch) == Count(a, ch) + Count(b, ch)
    decreases |b|
  {
    if b == [] {
      assert a + b == a;
    } else {
      assert (a + b)[..|a + b| - 1] == a + b[..|b| - 1];
      assert (a + b)[|a + b| - 1] == b[|b| - 1];
      CountConcat(a, b[..|b| - 1], ch);
    }
  }

  /** A numeral contains no letter. */
  lemma {:induction false} NumeralHasNoLetter(s: string, ch: char)
    requires Numeral(s) && !IsDigit(ch) && ch != '/'
    ensures Count(s, ch) == 0
  {
    var n := |s|;
    var i := 0;
    while i < n
      invariant i <= n
      invariant Count(s[..i], ch) == 0
    {
      assert s[..i + 1][..i] == s[..i];
      i := i + 1;
    }
    assert s[..n] == s;
  }

  /** The parts written one after another. */
  function Join(parts: seq<string>): string {
    if parts == [] then "" else Join(parts[..|parts| - 1]) + parts[|parts| - 1]
  }

  lemma {:induction false} JoinConcat(a: seq<string>, b: seq<string>)
    ensures Join(a + b) == Join(a) + Join(b)
    decreases |b|
  {
    if b == [] {
      assert a + b == a;
    } else {
      var front := b[..|b| - 1];
      var last := b[|b| - 1];
      assert Join(a + b) == Join(a + front) + last by {
        assert (a + b)[..|a + b| - 1] == a + front;
        assert (a + b)[|a + b| - 1] == last;
      }
      JoinConcat(a, front);
      assert (Join(a) + Join(front)) + last == Join(a) + (Join(front) + last);
    }
  }

  /** If ch occurs once in every part, it occurs once per part in the whole. */
  lemma {:induction false} JoinCountsParts(parts: seq<string>, ch: char)
    requires forall i :: 0 <= i < |parts| ==> Count(parts[i], ch) == 1
    ensures Count(Join(parts), ch) == |parts|
  {
    if parts != [] {
      JoinCountsParts(parts[..|parts| - 1], ch);
      CountConcat(Join(parts[..|parts| - 1]), parts[|parts| - 1], ch);
    }
  }
}
