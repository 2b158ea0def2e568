/** itoa.c, ultoa.c, uitoa.c and iltoa.c: two ways to write a number into a buffer. */
module NumberFormat {
  import opened Digits
  import opened Machine

  const MIN_DIGIT_BASE := 2
  const MAX_DIGIT_BASE := 16

  const LOW_DIGITS := "0123456789abcdef"
  const MIRROR_DIGITS := "zyxwvutsrqponmlkjihgfedcba9876543210123456789abcdefghijklmnopqrstuvwxyz"

  lemma LowDigits(d: nat)
    requires d < 16
    ensures LOW_DIGITS[d] == DigitChar(d)
  {
  }

  lemma MirrorDigits(d: nat)
    requires d < 36
    ensures |MIRROR_DIGITS| == 71 && MIRROR_DIGITS[35 + d] == DigitChar(d)
  {
  }

  /** BASE_MAX_DIGIT_MAP. */
  const MAX_DIGITS: seq<nat> := [0, 0, 64, 41, 32, 28, 25, 23, 22, 21, 20, 19, 18, 18, 17, 17, 16]

  // BASE_MAX_DIGIT_MAP is right: that many digits hold every 64-bit value, and one less do not.

  lemma Digits2(base: nat, n: nat)
    requires base == 2 && n == 64
    ensures FastPow(base, n - 1) == 9223372036854775808 && WORD <= FastPow(base, n)
  {
    assert FastPow(2, 63) == 9223372036854775808 && WORD <= FastPow(2, 64);
  }

  lemma Digits3(base: nat, n: nat)
    requires base == 3 && n == 41
    ensures FastPow(base, n - 1) == 12157665459056928801 && WORD <= FastPow(base, n)
  {
    assert FastPow(3, 40) == 12157665459056928801 && WORD <= FastPow(3, 41);
  }

  lemma Digits4(base: nat, n: nat)
    requires base == 4 && n == 32
    ensures FastPow(base, n - 1) == 4611686018427387904 && WORD <= FastPow(base, n)
  {
    assert FastPow(4, 31) == 4611686018427387904 && WORD <= FastPow(4, 32);
  }

  lemma Digits5(base: nat, n: nat)
    requires base == 5 && n == 28
    ensures FastPow(base, n - 1) == 7450580596923828125 && WORD <= FastPow(base, n)
  {
    assert FastPow(5, 27) == 7450580596923828125 && WORD <= FastPow(5, 28);
  }

  lemma Digits6(base: nat, n: nat)
    requires base == 6 && n == 25
    ensures FastPow(base, n - 1) == 4738381338321616896 && WORD <= FastPow(base, n)
  {
    assert FastPow(6, 24) == 4738381338321616896 && WORD <= FastPow(6, 25);
  }

  lemma Digits7(base: nat, n: nat)
    requires base == 7 && n == 23
    ensures FastPow(base, n - 1) == 3909821048582988049 && WORD <= FastPow(base, n)
  {
    assert FastPow(7, 22) == 3909821048582988049 && WORD <= FastPow(7, 23);
  }

  lemma Digits8(base: nat, n: nat)
    requires base == 8 && n == 22
    ensures FastPow(base, n - 1) == 9223372036854775808 && WORD <= FastPow(base, n)
  {
    assert FastPow(8, 21) == 9223372036854775808 && WORD <= FastPow(8, 22);
  }

  lemma Digits9(base: nat, n: nat)
    requires base == 9 && n == 21
    ensures FastPow(base, n - 1) == 12157665459056928801 && WORD <= FastPow(base, n)
  {
    assert FastPow(9, 20) == 12157665459056928801 && WORD <= FastPow(9, 21);
  }

  lemma Digits10(base: nat, n: nat)
    requires base == 10 && n == 20
    ensures FastPow(base, n - 1) == 10000000000000000000 && WORD <= FastPow(base, n)
  {
    assert FastPow(10, 19) == 10000000000000000000 && WORD <= FastPow(10, 20);
  }

  lemma Digits11(base: nat, n: nat)
    requires base == 11 && n == 19
    ensures FastPow(base, n - 1) == 5559917313492231481 && WORD <= FastPow(base, n)
  {
    assert FastPow(11, 18) == 5559917313492231481 && WORD <= FastPow(11, 19);
  }

  lemma Digits12(base: nat, n: nat)
    requires base == 12 && n == 18
    ensures FastPow(base, n - 1) == 2218611106740436992 && WORD <= FastPow(base, n)
  {
    assert FastPow(12, 17) == 2218611106740436992 && WORD <= FastPow(12, 18);
  }

  lemma Digits13(base: nat, n: nat)
    requires base == 13 && n == 18
    ensures FastPow(base, n - 1) == 8650415919381337933 && WORD <= FastPow(base, n)
  {
    assert FastPow(13, 17) == 8650415919381337933 && WORD <= FastPow(13, 18);
  }

  lemma Digits14(base: nat, n: nat)
    requires base == 14 && n == 17
    ensures FastPow(base, n - 1) == 2177953337809371136 && WORD <= FastPow(base, n)
  {
    assert FastPow(14, 16) == 2177953337809371136 && WORD <= FastPow(14, 17);
  }

  lemma Digits15(base: nat, n: nat)
    requires base == 15 && n == 17
    ensures FastPow(base, n - 1) == 6568408355712890625 && WORD <= FastPow(base, n)
  {
    assert FastPow(15, 16) == 6568408355712890625 && WORD <= FastPow(15, 17);
  }

  lemma Digits16(base: nat, n: nat)
    requires base == 16 && n == 16
    ensures FastPow(base, n - 1) == 1152921504606846976 && WORD <= FastPow(base, n)
  {
    assert FastPow(16, 15) == 1152921504606846976 && WORD <= FastPow(16, 16);
  }

  lemma TableRow(base: nat)
    requires 2 <= base <= 16
    ensures FastPow(base, MAX_DIGITS[base] - 1) < WORD <= FastPow(base, MAX_DIGITS[base])
    ensures FastPow(base, MAX_DIGITS[base] - 1) < 0x8000_0000_0000_0000 <==> base !in {2, 3, 8, 9, 10}
  {
    var n := MAX_DIGITS[base];
    match base {
      case 2 => Digits2(base, n);
      case 3 => Digits3(base, n);
      case 4 => Digits4(base, n);
      case 5 => Digits5(base, n);
      case 6 => Digits6(base, n);
      case 7 => Digits7(base, n);
      case 8 => Digits8(base, n);
      case 9 => Digits9(base, n);
      case 10 => Digits10(base, n);
      case 11 => Digits11(base, n);
      case 12 => Digits12(base, n);
      case 13 => Digits13(base, n);
      case 14 => Digits14(base, n);
      case 15 => Digits15(base, n);
      case 16 => Digits16(base, n);
    }
  }

  /** So the numeral of a 64-bit value never outgrows its table entry. */
  lemma FitsTable(v: nat, base: nat)
    requires 2 <= base <= 16 && v < WORD
    ensures 16 <= MAX_DIGITS[base] <= 64 && |Text(v, base)| <= MAX_DIGITS[base]
  {
    TableRow(base);
    FastTextLength(v, base, MAX_DIGITS[base]);
  }

  /** And the largest of them needs every one of the digits. */
  lemma TableTight(base: nat)
    requires 2 <= base <= 16
    ensures |Text(0xFFFF_FFFF_FFFF_FFFF, base)| == MAX_DIGITS[base]
  {
    FitsTable(WORD - 1, base);
    TableRow(base);
    FastPowIsPow(base, MAX_DIGITS[base] - 1);
    MoreDigitsThan(WORD - 1, base, MAX_DIGITS[base] - 1);
  }

  /** The counting loop of itoa and utoa: it always leaves by its break, one step per digit. */
  method CountDown(value: nat, base: nat, max: nat) returns (i: nat)
    requires 2 <= base <= 16 && 0 < value && |Text(value, base)| <= max
    ensures 1 <= i <= max && max - i == |Text(value, base)| - 1
  {
    i := max;
    var tmp := value;
    while i > 0
      invariant 0 < tmp && |Text(tmp, base)| <= i <= max
      invariant |Text(value, base)| == max - i + |Text(tmp, base)|
      decreases tmp
    {
      Divided(tmp, base);
      tmp := tmp / base;
      if tmp == 0 {
        break;
      }
      i := i - 1;
    }
  }

  /** The digit that one step of a conversion takes off, and what it leaves. */
  lemma LastDigit(v: nat, base: nat)
    requires 2 <= base <= 36
    ensures 0 <= v / base && (v / base != 0 ==> v / base < v)
    ensures v % base < base && Text(v, base)[|Text(v, base)| - 1] == DigitChar(v % base)
    ensures if v / base == 0 then |Text(v, base)| == 1
            else Text(v / base, base) <= Text(v, base) && |Text(v, base)| == |Text(v / base, base)| + 1
  {
    Divided(v, base);
  }

  /** The filling loop of itoa and utoa, from position `last` down to `first`. The counter is unsigned,
      so `i >= 0` never fails: the loop ends because the value runs out exactly there. */
  method FillDown(value: nat, base: nat, str: array<char>, first: nat, last: nat)
    requires 2 <= base <= 16 && 0 < value && first + |Text(value, base)| == last + 1 <= str.Length
    modifies str
    ensures forall k | 0 <= k < |Text(value, base)| :: str[first + k] == Text(value, base)[k]
    ensures forall k | 0 <= k < str.Length && !(first <= k <= last) :: str[k] == old(str[k])
  {
    ghost var text := Text(value, base);
    var tmp: nat := value;
    var i := last;
    while true
      invariant first <= i <= last && first + |Text(tmp, base)| == i + 1 && Text(tmp, base) <= text
      invariant forall k | i + 1 - first <= k < |text| :: str[first + k] == text[k]
      invariant forall k | 0 <= k < str.Length && !(first <= k <= last) :: str[k] == old(str[k])
      decreases tmp
    {
      LastDigit(tmp, base);
      LowDigits(tmp % base);
      assert text[i - first] == LOW_DIGITS[tmp % base];
      var character := LOW_DIGITS[tmp % base];
      tmp := tmp / base;
      str[i] := character;
      if tmp == 0 {
        break;
      }
      i := i - 1;
    }
  }

  /** Counting and filling, from position `first` on. */
  method WriteDigits(value: nat, base: nat, str: array<char>, first: nat, max: nat)
    requires 2 <= base <= 16 && 0 < value && |Text(value, base)| <= max && first + max <= str.Length
    modifies str
    ensures forall k | 0 <= k < |Text(value, base)| :: str[first + k] == Text(value, base)[k]
    ensures forall k | 0 <= k < str.Length && !(first <= k < first + |Text(value, base)|) :: str[k] == old(str[k])
  {
    var offset := CountDown(value, base, max);
    FillDown(value, base, str, first, first + max - offset);
  }

  function MaxDigits(base: nat): nat {
    if MIN_DIGIT_BASE <= base <= MAX_DIGIT_BASE then MAX_DIGITS[base] else 0
  }

  lemma BufferHolds(s: seq<char>, text: string)
    requires |text| < |s| && s[|text|] == NUL && NUL !in text
    requires forall k | 0 <= k < |text| :: s[k] == text[k]
    ensures CString(s) == text
  {
    assert s[..|text|] == text;
    CStringIs(s, |text|);
  }

  /** utoa; false stands for the NULL result. */
  method Utoa(value: nat, str: array<char>, base: nat) returns (ok: bool)
    requires value < WORD && MaxDigits(base) < str.Length
    modifies str
    ensures ok <==> 2 <= base <= 16
    ensures ok ==> CString(str[..]) == Text(value, base)
    ensures forall k | 0 <= k < str.Length && (!ok || k > MaxDigits(base)) :: str[k] == old(str[k])
  {
    if base < MIN_DIGIT_BASE || base > MAX_DIGIT_BASE {
      return false;
    }
    FitsTable(value, base);
    var max := MAX_DIGITS[base];
    forall k | 0 <= k <= max { str[k] := NUL; }
    if value == 0 {
      str[0] := '0';
    } else {
      WriteDigits(value, base, str, 0, max);
    }
    TextChars(value, base);
    BufferHolds(str[..], Text(value, base));
    ok := true;
  }

  function SignedText(value: int, base: nat): string
    requires 2 <= base <= 36
  {
    if value < 0 then "-" + Text(-value, base) else Text(value, base)
  }

  /** A sign exactly for a negative value, then digits without a leading zero that stand for the absolute value. */
  lemma SignedTextMeans(value: int, base: nat) returns (digits: string)
    requires 2 <= base <= 36
    ensures SignedText(value, base) == (if value < 0 then "-" else "") + digits
    ensures IsNumeral(digits, base) && Value(digits, base) == if value < 0 then -value else value
  {
    digits := Text(if value < 0 then -value else value, base);
    TextParses(if value < 0 then -value else value, base);
  }

  /** The digits behind nine are the lower-case letters. */
  lemma LowerCase()
    ensures Text(48879, 16) == "beef" && Text(1295, 36) == "zz" && SignedText(-255, 16) == "-ff"
  {
    assert Text(2, 16) == "2";
    assert Text(11, 16) == "b" && Text(190, 16) == "be" && Text(3054, 16) == "bee";
    assert Text(35, 36) == "z";
    assert Text(15, 16) == "f" && Text(255, 16) == "ff";
  }

  /** What lies behind the digits when a negative number uses all the digits the table allows: itoa clears
      one byte less than it needs, so the text runs on into what the buffer held before. */
  function Overrun(value: int, base: nat, behind: seq<char>): string {
    if value < 0 && MIN_DIGIT_BASE <= base <= MAX_DIGIT_BASE && |Text(-value, base)| == MaxDigits(base)
    then CString(behind) else ""
  }

  /** itoa. */
  method Itoa(value: int, str: array<char>, base: nat) returns (ok: bool)
    requires -0x8000_0000_0000_0000 < value < 0x8000_0000_0000_0000 && MaxDigits(base) < str.Length
    modifies str
    ensures ok <==> 2 <= base <= 16
    ensures ok ==> CString(str[..]) == SignedText(value, base) + Overrun(value, base, old(str[MaxDigits(base) + 1..]))
    ensures forall k | 0 <= k < str.Length && (!ok || k > MaxDigits(base)) :: str[k] == old(str[k])
  {
    if value >= 0 {
      ok := Utoa(value, str, base);
      return;
    }
    if base < MIN_DIGIT_BASE || base > MAX_DIGIT_BASE {
      return false;
    }
    FitsTable(-value, base);
    NegativeText(-value, base, str);
    ok := true;
  }

  /** The negative branch of itoa. */
  method NegativeText(value: nat, base: nat, str: array<char>)
    requires 0 < value && MIN_DIGIT_BASE <= base <= MAX_DIGIT_BASE
    requires |Text(value, base)| <= MaxDigits(base) < str.Length
    modifies str
    ensures |Text(value, base)| < MaxDigits(base) ==> CString(str[..]) == "-" + Text(value, base)
    ensures |Text(value, base)| == MaxDigits(base) ==>
              CString(str[..]) == "-" + Text(value, base) + CString(old(str[MaxDigits(base) + 1..]))
    ensures forall k | MaxDigits(base) < k < str.Length :: str[k] == old(str[k])
  {
    ghost var text, behind := Text(value, base), str[MaxDigits(base) + 1..];
    var max := MAX_DIGITS[base];
    forall k | 0 <= k <= max { str[k] := NUL; }
    WriteDigits(value, base, str, 1, max);
    str[0] := '-';
    TextChars(value, base);
    SignedPrefix(str[..], text);
    PrefixHolds(str[..], "-" + text);
    NulIsEmpty(str[..][|text| + 1..]);
    assert |text| == max ==> str[..][|text| + 1..] == behind;
  }

  lemma SignedPrefix(s: seq<char>, text: string)
    requires |text| + 1 <= |s| && s[0] == '-' && forall k | 0 <= k < |text| :: s[1 + k] == text[k]
    ensures s[..|text| + 1] == "-" + text && (NUL !in text ==> NUL !in "-" + text)
  {
    forall k | 0 < k <= |text|
      ensures s[k] == text[k - 1]
    {
      assert s[1 + (k - 1)] == text[k - 1];
    }
  }

  lemma PrefixHolds(s: seq<char>, text: string)
    requires |text| <= |s| && s[..|text|] == text && NUL !in text
    ensures CString(s) == text + CString(s[|text|..])
  {
    assert s == s[..|text|] + s[|text|..];
    CStringAfter(text, s[|text|..]);
  }

  lemma NulIsEmpty(s: seq<char>)
    ensures s != [] && s[0] == NUL ==> CString(s) == []
  {
  }

  /** Two's complement reading of 64 bits. */
  function Wrapped(x: int): int {
    var low := x % WORD;
    if low < 0x8000_0000_0000_0000 then low else low - WORD
  }

  /** The remainder of C, which takes the sign of the dividend. */
  function Remainder(x: int, base: nat): int
    requires 0 < base
  {
    if x >= 0 then x % base else -(-x % base)
  }

  /** The negation in itoa gives a positive number for every negative value but the smallest, which stays
      as it is: `tmp % base` is then no index of the digit string, -8 in base 10. */
  lemma NegationWraps(value: int)
    requires -0x8000_0000_0000_0000 <= value < 0
    ensures Wrapped(-value) > 0 <==> value != -0x8000_0000_0000_0000
    ensures Wrapped(-value) == if value == -0x8000_0000_0000_0000 then value else -value
    ensures value == -0x8000_0000_0000_0000 ==> Remainder(Wrapped(-value), 10) == -8
  {
  }

  /** The text of a negative number runs on if and only if the number needs the last digit of its table entry. */
  lemma ItoaOverruns(value: int, base: nat, behind: seq<char>)
    requires -0x8000_0000_0000_0000 < value < 0 && MIN_DIGIT_BASE <= base <= MAX_DIGIT_BASE
    ensures Overrun(value, base, behind) == if -value >= Pow(base, MaxDigits(base) - 1) then CString(behind) else ""
  {
    FitsTable(-value, base);
    FillsTable(-value, base, MaxDigits(base));
  }

  lemma FillsTable(v: nat, base: nat, max: nat)
    requires 2 <= base <= 36 && 1 < max && |Text(v, base)| <= max
    ensures |Text(v, base)| == max <==> v >= Pow(base, max - 1)
  {
    MoreDigitsThan(v, base, max - 1);
  }

  /** Some signed number needs it in every base but 2, 3, 8, 9 and 10; in base 16 every number of -2^60 or less. */
  lemma OverrunBases(base: nat)
    requires MIN_DIGIT_BASE <= base <= MAX_DIGIT_BASE
    ensures Pow(base, MaxDigits(base) - 1) < 0x8000_0000_0000_0000 <==> base !in {2, 3, 8, 9, 10}
    ensures Pow(16, MaxDigits(16) - 1) == 0x1000_0000_0000_0000
  {
    FastPowIsPow(base, MAX_DIGITS[base] - 1);
    TableRow(base);
    assert FastPow(16, 15) == 0x1000_0000_0000_0000;
    FastPowIsPow(16, 15);
  }

  /** `q` and `c` are what is left of `v` and the digit taken off it. */
  ghost predicate IsTaken(v: nat, base: nat, q: nat, c: char)
    requires 2 <= base <= 36
  {
    && c == Text(v, base)[|Text(v, base)| - 1] && (q == 0 <==> v < base) && (q != 0 ==> q < v)
    && if q == 0 then |Text(v, base)| == 1
       else Text(q, base) <= Text(v, base) && |Text(v, base)| == |Text(q, base)| + 1
  }

  lemma DigitTaken(v: nat, base: nat)
    requires 2 <= base <= 36
    ensures 0 <= v / base * base <= v && v - v / base * base == v % base < base
    ensures IsTaken(v, base, v / base, DigitChar(v % base))
  {
    LastDigit(v, base);
    Divided(v, base);
  }

  /** The lookup in the mirrored digit table. */
  method MirrorDigit(d: nat) returns (c: char)
    requires d < 36
    ensures c == DigitChar(d)
  {
    MirrorDigits(d);
    c := MIRROR_DIGITS[35 + d];
  }

  /** One round of the do-while loops. */
  method TakeDigit(tmp: nat, base: nat) returns (v: nat, c: char)
    requires 2 <= base <= 36
    ensures IsTaken(tmp, base, v, c)
  {
    DigitTaken(tmp, base);
    v := tmp / base;
    c := MirrorDigit(tmp - v * base);
  }

  newtype uint32 = x: int | 0 <= x < HALF_WORD

  /** The same on 32-bit words. */
  method TakeDigit32(tmp: uint32, base: uint32) returns (v: uint32, c: char)
    requires 2 <= base <= 36
    ensures IsTaken(tmp as nat, base as nat, v as nat, c)
  {
    DigitTaken(tmp as nat, base as nat);
    v := tmp / base;
    ghost var whole := v as nat * base as nat;
    assert whole == tmp as nat / base as nat * base as nat && whole <= tmp as nat;
    c := MirrorDigit((tmp - v * base) as nat);
  }

  /** The do-while loop of ultoa and iltoa: the digits come out least significant first. `last` is the
      value that tmp_value keeps. */
  method EmitDigits(value: nat, result: array<char>, base: nat) returns (n: nat, last: nat)
    requires 2 <= base <= 36 && |Text(value, base)| <= result.Length
    modifies result
    ensures n == |Text(value, base)| && last < base
    ensures forall k | 0 <= k < n :: result[k] == Text(value, base)[n - 1 - k]
    ensures forall k | n <= k < result.Length :: result[k] == old(result[k])
  {
    ghost var text := Text(value, base);
    var v: nat := value;
    n := 0;
    while true
      invariant Text(v, base) <= text && |text| == n + |Text(v, base)|
      invariant forall k | 0 <= k < n :: result[k] == text[|text| - 1 - k]
      invariant forall k | n <= k < result.Length :: result[k] == old(result[k])
      decreases v
    {
      last := v;
      v, result[n] := TakeDigit(last, base);
      n := n + 1;
      if v == 0 {
        break;
      }
    }
  }

  /** The same loop in uitoa, where every intermediate value is a 32-bit word. */
  method EmitDigits32(value: uint32, result: array<char>, base: uint32) returns (n: nat)
    requires 2 <= base <= 36 && |Text(value as nat, base as nat)| <= result.Length
    modifies result
    ensures n == |Text(value as nat, base as nat)|
    ensures forall k | 0 <= k < n :: result[k] == Text(value as nat, base as nat)[n - 1 - k]
    ensures forall k | n <= k < result.Length :: result[k] == old(result[k])
  {
    ghost var text := Text(value as nat, base as nat);
    var v := value;
    n := 0;
    while true
      invariant Text(v as nat, base as nat) <= text && |text| == n + |Text(v as nat, base as nat)|
      invariant forall k | 0 <= k < n :: result[k] == text[|text| - 1 - k]
      invariant forall k | n <= k < result.Length :: result[k] == old(result[k])
      decreases v
    {
      var tmp := v;
      v, result[n] := TakeDigit32(tmp, base);
      n := n + 1;
      if v == 0 {
        break;
      }
    }
  }

  /** The two-pointer loop of ultoa. */
  method ReverseInPlace(a: array<char>, n: nat)
    requires 0 < n <= a.Length
    modifies a
    ensures forall k | 0 <= k < n :: a[k] == old(a[n - 1 - k])
    ensures forall k | n <= k < a.Length :: a[k] == old(a[k])
  {
    var p, q := 0, n - 1;
    while p < q
      invariant 0 <= p && p + q == n - 1 && -1 <= q
      invariant forall k | 0 <= k < p || q < k < n :: a[k] == old(a[n - 1 - k])
      invariant forall k | p <= k <= q || n <= k < a.Length :: 0 <= k < a.Length ==> a[k] == old(a[k])
    {
      a[p], a[q] := a[q], a[p];
      p, q := p + 1, q - 1;
    }
  }

  /** The end of all three: terminate the digits and turn them round. */
  method Finish(result: array<char>, n: nat, ghost text: string)
    requires 0 < n == |text| < result.Length && NUL !in text
    requires forall k | 0 <= k < n :: result[k] == text[n - 1 - k]
    modifies result
    ensures CString(result[..]) == text
    ensures forall k | n < k < result.Length :: result[k] == old(result[k])
  {
    result[n] := NUL;
    ReverseInPlace(result, n);
    BufferHolds(result[..], text);
  }

  /** ultoa. */
  method Ultoa(value: nat, result: array<char>, base: int)
    requires value < WORD && 0 < result.Length
    requires 2 <= base <= 36 ==> |Text(value, base)| < result.Length
    modifies result
    ensures CString(result[..]) == if 2 <= base <= 36 then Text(value, base) else []
  {
    if base < 2 || base > 36 {
      result[0] := NUL;
      return;
    }
    var n, _ := EmitDigits(value, result, base);
    TextChars(value, base);
    Finish(result, n, Text(value, base));
  }

  /** iltoa: its sign test looks at an unsigned word, so no sign is ever written. */
  method Iltoa(value: nat, result: array<char>, base: int)
    requires value < WORD && 0 < result.Length
    requires 2 <= base <= 36 ==> |Text(value, base)| < result.Length
    modifies result
    ensures CString(result[..]) == if 2 <= base <= 36 then Text(value, base) else []
    ensures '-' !in CString(result[..])
  {
    if base < 2 || base > 36 {
      result[0] := NUL;
      return;
    }
    var n, last := EmitDigits(value, result, base);
    if last < 0 {
      assert false;
    }
    TextChars(value, base);
    Finish(result, n, Text(value, base));
  }

  /** uitoa; 33 bytes are always enough for it. */
  method Uitoa(value: uint32, result: array<char>, base: int)
    requires 32 < result.Length
    modifies result
    ensures CString(result[..]) == if 2 <= base <= 36 then Text(value as nat, base) else []
  {
    if base < 2 || base > 36 {
      result[0] := NUL;
      return;
    }
    WordLength(value as nat, base);
    var n := EmitDigits32(value, result, base as uint32);
    TextChars(value as nat, base);
    Finish(result, n, Text(value as nat, base));
  }

  lemma WordLength(v: nat, base: nat)
    requires 2 <= base <= 36 && v < HALF_WORD
    ensures |Text(v, base)| <= 32
  {
    assert FastPow(2, 32) == HALF_WORD;
    FastPowIsPow(2, 32);
    PowGrows(2, base, 32);
    TextLength(v, base, 32);
  }

  lemma LongLength(v: nat, base: nat)
    requires 2 <= base <= 36 && v < WORD
    ensures |Text(v, base)| <= 64
  {
    assert FastPow(2, 64) == WORD;
    FastPowIsPow(2, 64);
    PowGrows(2, base, 64);
    TextLength(v, base, 64);
  }

  /** The five functions agree wherever they are defined, and the text determines the value: ultoa and iltoa
      on bases 2 to 36, uitoa there on 32-bit values, utoa on bases 2 to 16 and itoa there on values below 2^63. */
  method AgreeOnAll(value: nat, a: array<char>, b: array<char>, c: array<char>, d: array<char>, e: array<char>, base: nat)
    requires value < WORD && 2 <= base <= 36
    requires a != b && a != c && a != d && a != e && b != c && b != d && b != e && c != d && c != e && d != e
    requires a.Length > 64 && b.Length > 64 && c.Length > 64 && d.Length > 64 && e.Length > 64
    modifies a, b, c, d, e
    ensures IsNumeral(CString(a[..]), base) && Value(CString(a[..]), base) == value
    ensures CString(b[..]) == CString(a[..])
    ensures value < HALF_WORD ==> CString(c[..]) == CString(a[..])
    ensures base <= 16 ==> CString(d[..]) == CString(a[..])
    ensures base <= 16 && value < 0x8000_0000_0000_0000 ==> CString(e[..]) == CString(a[..])
  {
    LongLength(value, base);
    TextParses(value, base);
    Ultoa(value, a, base);
    Iltoa(value, b, base);
    if value < HALF_WORD {
      Uitoa(value as uint32, c, base);
    }
    if base <= MAX_DIGIT_BASE {
      FitsTable(value, base);
      var ok := Utoa(value, d, base);
      if value < 0x8000_0000_0000_0000 {
        ok := Itoa(value, e, base);
      }
    }
  }
}
