/** Numerals as the kernel prints them, independent of how they are computed. */
module Digits {

  const NUL: char := '\0'

  /** 0 to 9, then a to z. */
  function DigitChar(d: nat): char
    requires d < 36
  {
    if d < 10 then '0' + d as char else 'a' + (d - 10) as char
  }

  function DigitValue(c: char): nat {
    if '0' <= c <= '9' then (c - '0') as nat
    else if 'a' <= c <= 'z' then (c - 'a') as nat + 10
    else 36
  }

  lemma DigitRoundTrip(d: nat)
    requires d < 36
    ensures DigitValue(DigitChar(d)) == d && DigitChar(d) != NUL && DigitChar(d) != '-' && (DigitChar(d) == '0' ==> d == 0)
  {
  }

  lemma CharRoundTrip(c: char)
    requires DigitValue(c) < 36
    ensures DigitChar(DigitValue(c)) == c
  {
  }

  /** The numeral of `v`. */
  function Text(v: nat, base: nat): (s: string)
    requires 2 <= base <= 36
    ensures |s| > 0
    decreases v
  {
    if v < base then [DigitChar(v)]
    else
      Divided(v, base);
      Text(v / base, base) + [DigitChar(v % base)]
  }

  /** What a string of digits stands for. */
  function Value(s: string, base: nat): nat {
    if s == [] then 0 else Value(s[..|s| - 1], base) * base + DigitValue(s[|s| - 1])
  }

  /** Digits of the base only, at least one, and no leading zero. */
  predicate IsNumeral(s: string, base: nat) {
    && |s| > 0
    && (forall i | 0 <= i < |s| :: DigitValue(s[i]) < base)
    && (|s| > 1 ==> s[0] != '0')
  }

  /** One more digit. */
  lemma Snoc(s: string, d: nat, base: nat)
    requires d < base <= 36 && IsNumeral(s, base) && s[0] != '0'
    ensures IsNumeral(s + [DigitChar(d)], base) && Value(s + [DigitChar(d)], base) == Value(s, base) * base + d
  {
    DigitRoundTrip(d);
    assert (s + [DigitChar(d)])[..|s + [DigitChar(d)]| - 1] == s;
  }

  lemma OneDigit(d: nat, base: nat)
    requires d < base <= 36
    ensures IsNumeral([DigitChar(d)], base) && Value([DigitChar(d)], base) == d
  {
    DigitRoundTrip(d);
    var s := [DigitChar(d)];
    assert s[..0] == [];
  }

  /** The text parses back to the value ... */
  lemma {:induction false} TextParses(v: nat, base: nat)
    requires 2 <= base <= 36
    ensures IsNumeral(Text(v, base), base) && Value(Text(v, base), base) == v
    ensures v > 0 ==> Text(v, base)[0] != '0'
    decreases v
  {
    Divided(v, base);
    if v < base {
      OneDigit(v, base);
    } else {
      TextParses(v / base, base);
      Snoc(Text(v / base, base), v % base, base);
    }
  }

  /** ... and it is the only numeral that does. */
  lemma {:induction false} TextUnique(s: string, base: nat)
    requires 2 <= base <= 36 && IsNumeral(s, base)
    ensures s == Text(Value(s, base), base)
    decreases |s|
  {
    var n := |s| - 1;
    var t, d := s[..n], DigitValue(s[n]);
    CharRoundTrip(s[n]);
    assert s == t + [s[n]];
    if n == 0 {
      OneDigit(d, base);
    } else {
      LeadingDigit(t, base);
      TextUnique(t, base);
      Snoc(t, d, base);
      TextSnoc(Value(t, base), d, base);
    }
  }

  lemma TextSnoc(q: nat, d: nat, base: nat)
    requires 2 <= base <= 36 && q >= 1 && d < base
    ensures Text(q * base + d, base) == Text(q, base) + [DigitChar(d)]
  {
    MulAtLeast(q, base);
    QuotientUnique(q * base + d, base, q, d);
  }

  lemma {:induction false} LeadingDigit(s: string, base: nat)
    requires 2 <= base <= 36 && |s| > 0 && s[0] != '0' && forall i | 0 <= i < |s| :: DigitValue(s[i]) < base
    ensures Value(s, base) >= 1
    decreases |s|
  {
    var t := s[..|s| - 1];
    if |s| == 1 {
      CharRoundTrip(s[0]);
    } else {
      LeadingDigit(t, base);
      MulAtLeast(Value(t, base), base);
    }
  }

  /** A numeral contains neither a terminator nor a sign. */
  lemma {:induction false} TextChars(v: nat, base: nat)
    requires 2 <= base <= 36
    ensures NUL !in Text(v, base) && '-' !in Text(v, base)
    decreases v
  {
    if v >= base {
      Divided(v, base);
      TextChars(v / base, base);
    }
  }

  // ----- division -----

  lemma MulAtLeast(q: nat, base: nat)
    requires q >= 1
    ensures q * base >= base
  {
    assert q * base == (q - 1) * base + base;
  }

  lemma MulNonNegative(k: nat, base: nat)
    ensures k * base >= 0
  {
  }

  lemma Divided(v: nat, base: nat)
    requires 2 <= base
    ensures v == (v / base) * base + v % base && 0 <= v % base < base
    ensures v >= base ==> 1 <= v / base < v
    ensures v < base ==> v / base == 0
  {
    var q := v / base;
    assert v == base * q + v % base;
    if q >= 1 {
      assert q * base == q * (base - 2) + 2 * q;
      assert q * (base - 2) >= 0;
    }
  }

  lemma QuotientUnique(x: nat, base: nat, q: nat, r: nat)
    requires x == q * base + r && r < base
    ensures x / base == q && x % base == r
  {
    var q', r' := x / base, x % base;
    assert x == q' * base + r' && r' < base;
    assert (q - q') * base == r' - r && (q' - q) * base == r - r';
    if q > q' {
      MulAtLeast(q - q', base);
    } else if q' > q {
      MulAtLeast(q' - q, base);
    }
  }

  function Pow(b: nat, n: nat): nat {
    if n == 0 then 1 else b * Pow(b, n - 1)
  }

  lemma {:induction false} PowAdd(b: nat, m: nat, n: nat)
    ensures Pow(b, m + n) == Pow(b, m) * Pow(b, n)
  {
    if m > 0 {
      PowAdd(b, m - 1, n);
      Regroup(b, Pow(b, m - 1), Pow(b, n));
    }
  }

  lemma Regroup(x: nat, y: nat, z: nat)
    ensures x * (y * z) == (x * y) * z
  {
  }

  lemma {:induction false} PowGrows(a: nat, b: nat, n: nat)
    requires a <= b
    ensures Pow(a, n) <= Pow(b, n)
  {
    if n > 0 {
      PowGrows(a, b, n - 1);
      MulMonotonic(a, b, Pow(a, n - 1), Pow(b, n - 1));
    }
  }

  lemma MulMonotonic(a: nat, b: nat, x: nat, y: nat)
    requires a <= b && x <= y
    ensures a * x <= b * y
  {
    assert b * y == a * x + (b - a) * y + a * (y - x);
  }

  /** The same by repeated squaring. */
  function FastPow(b: nat, n: nat): nat {
    if n == 0 then 1
    else
      var h := FastPow(b, n / 2);
      if n % 2 == 0 then h * h else h * h * b
  }

  lemma {:induction false} FastPowIsPow(b: nat, n: nat)
    ensures FastPow(b, n) == Pow(b, n)
  {
    if n > 0 {
      FastPowIsPow(b, n / 2);
      PowAdd(b, n / 2, n / 2);
      assert n % 2 == 0 ==> n / 2 + n / 2 == n;
      assert n % 2 == 1 ==> n / 2 + n / 2 == n - 1;
    }
  }

  /** A value below base^n has at most n digits. */
  lemma {:induction false} TextLength(v: nat, base: nat, n: nat)
    requires 2 <= base <= 36 && 0 < n && v < Pow(base, n)
    ensures |Text(v, base)| <= n
    decreases n
  {
    if v >= base {
      Divided(v, base);
      QuotientBelow(v, base, Pow(base, n - 1));
      TextLength(v / base, base, n - 1);
    }
  }

  /** A value of base^n or more has more than n digits. */
  lemma {:induction false} TextAtLeast(v: nat, base: nat, n: nat)
    requires 2 <= base <= 36 && v >= Pow(base, n)
    ensures |Text(v, base)| > n
    decreases n
  {
    if n > 0 {
      PowPositive(base, n - 1);
      MulAtLeast(Pow(base, n - 1), base);
      Divided(v, base);
      QuotientAbove(v, base, Pow(base, n - 1));
      TextAtLeast(v / base, base, n - 1);
    }
  }

  lemma MoreDigitsThan(v: nat, base: nat, n: nat)
    requires 2 <= base <= 36 && 0 < n
    ensures |Text(v, base)| > n <==> v >= Pow(base, n)
  {
    if v >= Pow(base, n) {
      TextAtLeast(v, base, n);
    } else {
      TextLength(v, base, n);
    }
  }

  lemma {:induction false} PowPositive(b: nat, n: nat)
    requires b > 0
    ensures Pow(b, n) >= 1
  {
    if n > 0 {
      PowPositive(b, n - 1);
      MulAtLeast(Pow(b, n - 1), b);
    }
  }

  lemma QuotientAbove(v: nat, base: nat, p: nat)
    requires 2 <= base && v >= base * p
    ensures v / base >= p
  {
    Divided(v, base);
    if v / base < p {
      MulAtLeast(p - v / base, base);
      assert false;
    }
  }

  lemma FastTextLength(v: nat, base: nat, n: nat)
    requires 2 <= base <= 36 && 0 < n && v < FastPow(base, n)
    ensures |Text(v, base)| <= n
  {
    FastPowIsPow(base, n);
    TextLength(v, base, n);
  }

  lemma QuotientBelow(v: nat, base: nat, p: nat)
    requires 2 <= base && v < base * p
    ensures v / base < p
  {
    Divided(v, base);
    var k := v / base - p;
    assert (v / base) * base == k * base + p * base;
    if k >= 0 {
      MulNonNegative(k, base);
      assert false;
    }
  }

  /** The string in a buffer: everything before the first NUL. */
  function CString(s: seq<char>): string {
    if s == [] || s[0] == NUL then [] else [s[0]] + CString(s[1..])
  }

  lemma {:induction false} CStringAfter(text: string, rest: seq<char>)
    requires NUL !in text
    ensures CString(text + rest) == text + CString(rest)
  {
    var s := text + rest;
    if text == [] {
      assert s == rest;
    } else {
      assert s[0] == text[0] && s[1..] == text[1..] + rest;
      CStringAfter(text[1..], rest);
    }
  }

  lemma {:induction false} CStringIs(s: seq<char>, n: nat)
    requires n <= |s| && NUL !in s[..n] && (n == |s| || s[n] == NUL)
    ensures CString(s) == s[..n]
    decreases n
  {
    if n > 0 {
      assert s[0] == s[..n][0];
      assert s[1..][..n - 1] == s[..n][1..];
      assert forall c | c in s[1..][..n - 1] :: c in s[..n];
      CStringIs(s[1..], n - 1);
      assert s[..n] == [s[0]] + s[1..][..n - 1];
    }
  }
}
