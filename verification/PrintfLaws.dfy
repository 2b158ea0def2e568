/** What _vprintf prints, directive by directive, without its tokens: the laws that determine every output. */
module PrintfLaws {
  import opened Machine
  import opened Digits
  import opened NumberFormat
  import opened Printf

  // ----- characters, percent signs and strings -----

  /** A character other than a percent sign stands for itself. */
  lemma CharacterLaw(fmt: string, i: nat, args: seq<Arg>)
    requires i < |fmt| && fmt[i] != '%' && Matching(Tokens(fmt, i), args)
    ensures Matching(Tokens(fmt, i + 1), args)
    ensures Render(Tokens(fmt, i), args) == [fmt[i]] + Render(Tokens(fmt, i + 1), args)
  {
    FirstToken(Literal(fmt[i]), Tokens(fmt, i + 1), args);
  }

  /** Two percent signs, or one before a blank, print one; the second character is consumed. */
  lemma PercentLaw(fmt: string, i: nat, args: seq<Arg>)
    requires i + 1 < |fmt| && fmt[i] == '%' && (fmt[i + 1] == '%' || fmt[i + 1] == ' ') && Matching(Tokens(fmt, i), args)
    ensures Matching(Tokens(fmt, i + 2), args)
    ensures Render(Tokens(fmt, i), args) == "%" + Render(Tokens(fmt, i + 2), args)
  {
    FirstToken(Literal('%'), Tokens(fmt, i + 2), args);
  }

  /** `%s` prints the next argument. */
  lemma StringLaw(fmt: string, i: nat, args: seq<Arg>)
    requires i + 1 < |fmt| && fmt[i] == '%' && fmt[i + 1] == 's' && Matching(Tokens(fmt, i), args)
    ensures args != [] && args[0].Str? && Matching(Tokens(fmt, i + 2), args[1..])
    ensures Render(Tokens(fmt, i), args) == args[0].s + Render(Tokens(fmt, i + 2), args[1..])
  {
    FirstToken(StringArg, Tokens(fmt, i + 2), args);
  }

  /** A percent sign before anything else, or at the end, prints nothing. */
  lemma DroppedLaw(fmt: string, i: nat, args: seq<Arg>)
    requires i < |fmt| && fmt[i] == '%' && Matching(Tokens(fmt, i), args)
    requires i + 1 < |fmt| ==> fmt[i + 1] !in "% s" && !IsSpecifier(fmt[i + 1])
    ensures Matching(Tokens(fmt, i + 1), args)
    ensures Render(Tokens(fmt, i), args) == Render(Tokens(fmt, i + 1), args)
  {
  }

  lemma EndLaw(fmt: string, args: seq<Arg>)
    ensures Matching(Tokens(fmt, |fmt|), args) && Render(Tokens(fmt, |fmt|), args) == ""
  {
  }

  // ----- numbers -----

  lemma RunUnique(fmt: string, i: nat, j: nat, k: nat)
    requires IsRun(fmt, i, j) && IsRun(fmt, i, k)
    ensures j == k
  {
  }

  /** Specifiers only, with no `p` before the last of them. */
  predicate IsSpecifiers(run: string) {
    run != "" && forall k | 0 <= k < |run| :: IsSpecifier(run[k]) && (run[k] == 'p' ==> k == |run| - 1)
  }

  function RunBase(run: string): nat {
    if 'h' in run || 'p' in run then 16 else 10
  }

  /** 2^64 or 2^32: the last of `i`, `l` and `p` decides. */
  function Modulus(run: string): nat {
    if Width(run, false) then 0x1_0000_0000_0000_0000 else 0x1_0000_0000
  }

  /** The argument read as two's complement is negative. */
  predicate IsNegative(run: string, bits: nat) {
    'u' !in run && 'p' !in run && bits % Modulus(run) >= Modulus(run) / 2
  }

  function Magnitude(run: string, bits: nat): nat {
    if IsNegative(run, bits) then Modulus(run) - bits % Modulus(run) else bits % Modulus(run)
  }

  /** `text` is the number, with its prefix and sign: `0x` exactly for `h` or `p`, a sign exactly for a negative
      reading, and digits without a leading zero whose value is the magnitude. */
  ghost predicate IsNumberText(run: string, bits: nat, digits: string, text: string) {
    && text == (if 'h' in run || 'p' in run then "0x" else "") + (if IsNegative(run, bits) then "-" else "") + digits
    && IsNumeral(digits, RunBase(run)) && Value(digits, RunBase(run)) == Magnitude(run, bits)
  }

  /** The last of `i`, `l` and `p` decides the width, and without one it is 32 bits. */
  lemma {:induction false} WidthMeans(run: string, k: nat)
    ensures k < |run| && run[k] in "ilp" && (forall l | k < l < |run| :: run[l] !in "ilp") ==>
              (Width(run, false) <==> run[k] != 'i')
    ensures (forall l | 0 <= l < |run| :: run[l] !in "ilp") ==> !Width(run, false)
  {
    if run != "" && run[|run| - 1] !in "ilp" {
      WidthMeans(run[..|run| - 1], k);
    }
  }

  lemma NumberTextMeans(run: string, spec: Spec, bits: nat) returns (digits: string)
    requires Means(run, PLAIN, spec)
    ensures IsNumberText(run, bits, digits, NumberText(spec, bits))
  {
    digits := Text(Magnitude(run, bits), RunBase(run));
    TextParses(Magnitude(run, bits), RunBase(run));
    NumberTextIs(run, spec, bits);
  }

  lemma NumberTextIs(run: string, spec: Spec, bits: nat)
    requires Means(run, PLAIN, spec)
    ensures NumberText(spec, bits) == (if 'h' in run || 'p' in run then "0x" else "") +
                                      (if IsNegative(run, bits) then "-" else "") + Text(Magnitude(run, bits), RunBase(run))
  {
    if spec.signed {
      SignedReading(run, spec, bits);
    }
  }

  lemma SignedReading(run: string, spec: Spec, bits: nat)
    requires Means(run, PLAIN, spec) && spec.signed
    ensures IsNegative(run, bits) ==> Signed(bits, spec.long) + Magnitude(run, bits) == 0 && Magnitude(run, bits) > 0
    ensures !IsNegative(run, bits) ==> Signed(bits, spec.long) == Magnitude(run, bits)
  {
  }

  /** A percent sign and a run of specifiers print the next argument as they say. */
  lemma NumberLaw(fmt: string, i: nat, j: nat, args: seq<Arg>) returns (text: string, digits: string)
    requires i + 1 < j && j <= |fmt| && fmt[i] == '%' && IsRun(fmt, i + 1, j) && Matching(Tokens(fmt, i), args)
    ensures args != [] && args[0].Word? && Matching(Tokens(fmt, j), args[1..])
    ensures IsNumberText(fmt[i + 1..j], args[0].bits, digits, text)
    ensures Render(Tokens(fmt, i), args) == text + Render(Tokens(fmt, j), args[1..])
  {
    var spec := SpecOfRun(fmt, i, j);
    FirstToken(Number(spec), Tokens(fmt, j), args);
    text := NumberText(spec, args[0].bits);
    digits := NumberTextMeans(fmt[i + 1..j], spec, args[0].bits);
  }

  lemma SpecOfRun(fmt: string, i: nat, j: nat) returns (spec: Spec)
    requires i + 1 < j && j <= |fmt| && fmt[i] == '%' && IsRun(fmt, i + 1, j)
    ensures Means(fmt[i + 1..j], PLAIN, spec) && Tokens(fmt, i) == [Number(spec)] + Tokens(fmt, j)
  {
    assert IsSpecifier(fmt[i + 1]);
    ScanSpecMeans(fmt, i + 1, PLAIN);
    var (r, k) := ScanSpec(fmt, i + 1, PLAIN);
    RunUnique(fmt, i + 1, j, k);
    spec := r;
  }

  // ----- concatenation -----

  /** Where the directive or character at `i` ends. */
  function NextStart(fmt: string, i: nat): (j: nat)
    requires i < |fmt|
    ensures i < j <= |fmt|
  {
    if fmt[i] != '%' || i + 1 == |fmt| then i + 1
    else if fmt[i + 1] in "% s" then i + 2
    else if IsSpecifier(fmt[i + 1]) then
      assert ScanSpec(fmt, i + 1, PLAIN).1 > i;
      ScanSpec(fmt, i + 1, PLAIN).1
    else i + 1
  }

  /** No directive that begins at `i` or behind it reaches across `j`. */
  predicate Boundary(fmt: string, i: nat, j: nat)
    decreases |fmt| - i
  {
    i <= j <= |fmt| && (i == j || Boundary(fmt, NextStart(fmt, i), j))
  }

  /** The token that the directive or character at `i` makes, if any. */
  function Head(fmt: string, i: nat): seq<Token>
    requires i < |fmt|
  {
    if fmt[i] != '%' then [Literal(fmt[i])]
    else if i + 1 == |fmt| then []
    else if fmt[i + 1] == ' ' || fmt[i + 1] == '%' then [Literal('%')]
    else if fmt[i + 1] == 's' then [StringArg]
    else if IsSpecifier(fmt[i + 1]) then [Number(ScanSpec(fmt, i + 1, PLAIN).0)]
    else []
  }

  lemma TokensStep(fmt: string, i: nat)
    requires i < |fmt|
    ensures Tokens(fmt, i) == Head(fmt, i) + Tokens(fmt, NextStart(fmt, i))
  {
  }

  lemma {:induction false} ScanPrefix(fmt: string, i: nat, spec: Spec, j: nat)
    requires i <= |fmt| && ScanSpec(fmt, i, spec).1 <= j <= |fmt|
    ensures i <= j && ScanSpec(fmt[..j], i, spec) == ScanSpec(fmt, i, spec)
    decreases |fmt| - i
  {
    if i < |fmt| && IsSpecifier(fmt[i]) && fmt[i] != 'p' {
      ScanPrefix(fmt, i + 1, Applied(spec, fmt[i]), j);
    }
  }

  lemma HeadPrefix(fmt: string, i: nat, j: nat)
    requires i < |fmt| && NextStart(fmt, i) <= j <= |fmt|
    ensures Head(fmt[..j], i) == Head(fmt, i) && NextStart(fmt[..j], i) == NextStart(fmt, i)
  {
    if fmt[i] == '%' && i + 1 < |fmt| && IsSpecifier(fmt[i + 1]) {
      ScanPrefix(fmt, i + 1, PLAIN, j);
    }
  }

  lemma {:induction false} TokensSplit(fmt: string, i: nat, j: nat)
    requires Boundary(fmt, i, j)
    ensures Tokens(fmt, i) == Tokens(fmt[..j], i) + Tokens(fmt, j)
    decreases |fmt| - i
  {
    if i < j {
      TokensSplit(fmt, NextStart(fmt, i), j);
      HeadPrefix(fmt, i, j);
      TokensStep(fmt, i);
      TokensStep(fmt[..j], i);
    }
  }

  lemma {:induction false} ScanShift(fmt: string, j: nat, i: nat, spec: Spec)
    requires j <= |fmt| && i <= |fmt| - j
    ensures ScanSpec(fmt[j..], i, spec) == (ScanSpec(fmt, j + i, spec).0, ScanSpec(fmt, j + i, spec).1 - j)
    decreases |fmt| - i
  {
    if j + i < |fmt| && IsSpecifier(fmt[j + i]) && fmt[j + i] != 'p' {
      ScanShift(fmt, j, i + 1, Applied(spec, fmt[j + i]));
    }
  }

  lemma HeadShift(fmt: string, j: nat, i: nat)
    requires j <= |fmt| && i < |fmt| - j
    ensures Head(fmt[j..], i) == Head(fmt, j + i) && NextStart(fmt[j..], i) == NextStart(fmt, j + i) - j
  {
    if j + i + 1 < |fmt| {
      ScanShift(fmt, j, i + 1, PLAIN);
    }
  }

  lemma {:induction false} TokensShift(fmt: string, g: string, j: nat, i: nat)
    requires j <= |fmt| && g == fmt[j..] && i <= |g|
    ensures Tokens(g, i) == Tokens(fmt, j + i)
    decreases |g| - i
  {
    if i < |g| {
      var k := NextStart(g, i);
      TokensShift(fmt, g, j, k);
      HeadShift(fmt, j, i);
      SameTokens(g, i, fmt, j + i, k, j + k);
    }
  }

  lemma SameTokens(f: string, i: nat, g: string, j: nat, k: nat, l: nat)
    requires i < |f| && j < |g| && k == NextStart(f, i) && l == NextStart(g, j)
    requires Head(f, i) == Head(g, j) && Tokens(f, k) == Tokens(g, l)
    ensures Tokens(f, i) == Tokens(g, j)
  {
    TokensStep(f, i);
    TokensStep(g, j);
  }

  /** How many arguments a token takes, whether they are of its kind, and what it prints. */
  function Takes(t: Token): nat {
    if t.Literal? then 0 else 1
  }

  ghost predicate Accepts(t: Token, args: seq<Arg>) {
    match t
    case Literal(c) => c != NUL
    case StringArg => args != [] && args[0].Str? && NUL !in args[0].s
    case Number(spec) =>
      args != [] && args[0].Word? && (spec.signed ==> Signed(args[0].bits, spec.long) > -0x8000_0000_0000_0000)
  }

  ghost function Prints(t: Token, args: seq<Arg>): string
    requires Accepts(t, args)
  {
    match t
    case Literal(c) => [c]
    case StringArg => args[0].s
    case Number(spec) => NumberText(spec, args[0].bits)
  }

  lemma MatchingStep(ts: seq<Token>, args: seq<Arg>)
    requires ts != []
    ensures Matching(ts, args) <==>
            Accepts(ts[0], args) && Takes(ts[0]) <= |args| && Matching(ts[1..], args[Takes(ts[0])..])
    ensures Directives(ts) == Takes(ts[0]) + Directives(ts[1..])
  {
    assert args[0..] == args;
  }

  lemma RenderStep(ts: seq<Token>, args: seq<Arg>)
    requires ts != [] && Matching(ts, args)
    ensures Accepts(ts[0], args) && Takes(ts[0]) <= |args| && Matching(ts[1..], args[Takes(ts[0])..])
    ensures Render(ts, args) == Prints(ts[0], args) + Render(ts[1..], args[Takes(ts[0])..])
  {
    MatchingStep(ts, args);
    assert args[0..] == args;
  }

  lemma {:induction false} MatchingSplit(ts: seq<Token>, us: seq<Token>, args: seq<Arg>)
    requires Matching(ts + us, args)
    ensures Directives(ts) <= |args| && Matching(ts, args) && Matching(us, args[Directives(ts)..])
    decreases ts
  {
    if ts == [] {
      assert ts + us == us && args[0..] == args;
    } else {
      var n := Takes(ts[0]);
      assert (ts + us)[0] == ts[0] && (ts + us)[1..] == ts[1..] + us;
      MatchingStep(ts + us, args);
      MatchingSplit(ts[1..], us, args[n..]);
      MatchingStep(ts, args);
      DropTwice(args, n, Directives(ts[1..]));
    }
  }

  lemma DropTwice(args: seq<Arg>, n: nat, m: nat)
    requires n + m <= |args|
    ensures args[n..][m..] == args[n + m..]
  {
  }

  /** Tokens in a row print one after the other. */
  lemma RenderSplit(ts: seq<Token>, us: seq<Token>, args: seq<Arg>)
    requires Matching(ts + us, args)
    ensures Directives(ts) <= |args| && Matching(ts, args) && Matching(us, args[Directives(ts)..])
    ensures Render(ts + us, args) == Render(ts, args) + Render(us, args[Directives(ts)..])
  {
    MatchingSplit(ts, us, args);
    RenderInTurn(ts, us, ts + us, args, args[Directives(ts)..]);
  }

  lemma {:induction false} RenderInTurn(ts: seq<Token>, us: seq<Token>, all: seq<Token>, args: seq<Arg>, tail: seq<Arg>)
    requires all == ts + us && Matching(all, args) && Matching(ts, args) && Matching(us, tail)
    requires Directives(ts) <= |args| && tail == args[Directives(ts)..]
    ensures Render(all, args) == Render(ts, args) + Render(us, tail)
    decreases ts
  {
    if ts == [] {
      assert all == us && args[0..] == args;
    } else {
      var n := Takes(ts[0]);
      assert all[0] == ts[0] && all[1..] == ts[1..] + us;
      MatchingStep(ts, args);
      RenderStep(all, args);
      RenderStep(ts, args);
      DropTwice(args, n, Directives(ts[1..]));
      RenderInTurn(ts[1..], us, all[1..], args[n..], tail);
      Concatenated(Prints(ts[0], args), Render(ts[1..], args[n..]), Render(us, tail));
    }
  }

  lemma Concatenated(a: string, b: string, c: string)
    ensures a + (b + c) == a + b + c
  {
  }

  lemma TokensConcat(fmt: string, j: nat)
    requires Boundary(fmt, 0, j)
    ensures Tokens(fmt, 0) == Tokens(fmt[..j], 0) + Tokens(fmt[j..], 0)
  {
    TokensSplit(fmt, 0, j);
    TokensShift(fmt, fmt[j..], j, 0);
  }

  /** A format split between two directives prints what its two parts print, the second with the arguments that the
      first has left. */
  lemma SplitLaw(fmt: string, j: nat, args: seq<Arg>)
    requires Boundary(fmt, 0, j) && Matching(Tokens(fmt, 0), args)
    ensures var n := Directives(Tokens(fmt[..j], 0));
            && n <= |args| && Matching(Tokens(fmt[..j], 0), args) && Matching(Tokens(fmt[j..], 0), args[n..])
            && Render(Tokens(fmt, 0), args) ==
               Render(Tokens(fmt[..j], 0), args) + Render(Tokens(fmt[j..], 0), args[n..])
  {
    TokensConcat(fmt, j);
    RenderSplit(Tokens(fmt[..j], 0), Tokens(fmt[j..], 0), args);
  }

  // ----- the buffer -----

  /** printf of one number directive: what ends up in the buffer. */
  method PrintNumber(run: string, bits: nat) returns (buffer: array<char>, ghost digits: string)
    requires IsSpecifiers(run) && !(IsNegative(run, bits) && Magnitude(run, bits) == 0x8000_0000_0000_0000)
    ensures IsNumberText(run, bits, digits, CString(buffer[..]))
  {
    var fmt := "%" + run;
    ghost var args := [Word(bits)];
    OneDirective(run, bits);
    ghost var text;
    text, digits := NumberLaw(fmt, 0, |fmt|, args);
    assert fmt[1..|fmt|] == run;
    EndLaw(fmt, args[1..]);
    NumberShort(run, bits, digits, text);
    buffer := FormatToBuffer(fmt, [Word(bits)]);
  }

  lemma OneDirective(run: string, bits: nat)
    requires IsSpecifiers(run) && !(IsNegative(run, bits) && Magnitude(run, bits) == 0x8000_0000_0000_0000)
    ensures IsRun("%" + run, 1, |run| + 1) && Matching(Tokens("%" + run, 0), [Word(bits)])
  {
    var fmt := "%" + run;
    RunOfAll(run, fmt);
    ScanSpecMeans(fmt, 1, PLAIN);
    var (spec, k) := ScanSpec(fmt, 1, PLAIN);
    RunUnique(fmt, 1, |fmt|, k);
    OneToken(fmt, spec);
    NumberMatches(run, spec, bits);
  }

  lemma RunOfAll(run: string, fmt: string)
    requires IsSpecifiers(run) && fmt == "%" + run
    ensures IsRun(fmt, 1, |fmt|) && fmt[1..|fmt|] == run && IsSpecifier(fmt[1])
  {
    forall k | 1 <= k < |fmt|
      ensures IsSpecifier(fmt[k]) && (fmt[k] == 'p' ==> k == |fmt| - 1)
    {
      assert fmt[k] == run[k - 1];
    }
  }

  lemma OneToken(fmt: string, spec: Spec)
    requires |fmt| > 1 && fmt[0] == '%' && IsSpecifier(fmt[1]) && ScanSpec(fmt, 1, PLAIN) == (spec, |fmt|)
    ensures Tokens(fmt, 0) == [Number(spec)]
  {
    TokensStep(fmt, 0);
  }

  lemma NumberMatches(run: string, spec: Spec, bits: nat)
    requires Means(run, PLAIN, spec) && !(IsNegative(run, bits) && Magnitude(run, bits) == 0x8000_0000_0000_0000)
    ensures Matching([Number(spec)], [Word(bits)])
  {
    if spec.signed {
      SignedReading(run, spec, bits);
    }
    assert [Number(spec)][1..] == [];
  }

  lemma NumberShort(run: string, bits: nat, digits: string, text: string)
    requires IsNumberText(run, bits, digits, text)
    ensures |text| <= 67
  {
    TextUnique(digits, RunBase(run));
    LongLength(Magnitude(run, bits), RunBase(run));
  }
}
