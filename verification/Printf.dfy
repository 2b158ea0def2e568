/** printf.c: the format interpreter, against a semantics that first splits the format into
    tokens and then renders them. */
module Printf {
  import opened Digits
  import opened Machine
  import opened NumberFormat

  /** One slot of the argument list. */
  datatype Arg = Word(bits: nat) | Str(s: string)

  /** Base 16 or 10, signed or not, 64 bits or 32. */
  datatype Spec = Spec(hex: bool, signed: bool, long: bool) {
    function Base(): nat {
      if hex then 16 else 10
    }
  }

  datatype Token = Literal(c: char) | StringArg | Number(spec: Spec)

  const PLAIN := Spec(false, true, false)

  predicate IsSpecifier(c: char) {
    c == 'i' || c == 'p' || c == 'u' || c == 'h' || c == 'l'
  }

  // ----- tokens -----

  function Applied(spec: Spec, c: char): Spec {
    if c == 'i' then spec.(long := false)
    else if c == 'p' then Spec(true, false, true)
    else if c == 'u' then spec.(signed := false)
    else if c == 'h' then spec.(hex := true)
    else spec.(long := true)
  }

  /** The specifiers from `i` on: a greedy run that ends behind a `p` or before any other character. */
  function ScanSpec(fmt: string, i: nat, spec: Spec): (r: (Spec, nat))
    requires i <= |fmt|
    ensures i <= r.1 <= |fmt|
    decreases |fmt| - i
  {
    if i == |fmt| || !IsSpecifier(fmt[i]) then (spec, i)
    else if fmt[i] == 'p' then (Applied(spec, 'p'), i + 1)
    else ScanSpec(fmt, i + 1, Applied(spec, fmt[i]))
  }

  function Tokens(fmt: string, i: nat): seq<Token>
    requires i <= |fmt|
    decreases |fmt| - i
  {
    if i == |fmt| then []
    else if fmt[i] != '%' then [Literal(fmt[i])] + Tokens(fmt, i + 1)
    else if i + 1 == |fmt| then []
    else if fmt[i + 1] == ' ' || fmt[i + 1] == '%' then [Literal('%')] + Tokens(fmt, i + 2)
    else if fmt[i + 1] == 's' then [StringArg] + Tokens(fmt, i + 2)
    else if IsSpecifier(fmt[i + 1]) then
      assert ScanSpec(fmt, i + 1, PLAIN).1 > i;
      [Number(ScanSpec(fmt, i + 1, PLAIN).0)] + Tokens(fmt, ScanSpec(fmt, i + 1, PLAIN).1)
    else Tokens(fmt, i + 1)
  }

  // ----- rendering -----

  /** Two's complement reading of the low 64 or 32 bits. */
  function Signed(bits: nat, long: bool): int {
    if long then Wrapped(bits)
    else
      var low := bits % HALF_WORD;
      if low < 0x8000_0000 then low else low - HALF_WORD
  }

  function Unsigned(bits: nat, long: bool): nat {
    if long then bits % WORD else bits % HALF_WORD
  }

  function NumberText(spec: Spec, bits: nat): string {
    (if spec.hex then "0x" else "") +
    if spec.signed then SignedText(Signed(bits, spec.long), spec.Base()) else Text(Unsigned(bits, spec.long), spec.Base())
  }

  /** One argument of the right kind per directive; the smallest 64-bit integer has no itoa text. */
  ghost predicate Matching(ts: seq<Token>, args: seq<Arg>)
    decreases ts
  {
    ts == [] ||
    match ts[0]
    case Literal(c) => c != NUL && Matching(ts[1..], args)
    case StringArg => args != [] && args[0].Str? && NUL !in args[0].s && Matching(ts[1..], args[1..])
    case Number(spec) =>
      && args != [] && args[0].Word?
      && (spec.signed ==> Signed(args[0].bits, spec.long) > -0x8000_0000_0000_0000)
      && Matching(ts[1..], args[1..])
  }

  ghost function Render(ts: seq<Token>, args: seq<Arg>): string
    requires Matching(ts, args)
    decreases ts
  {
    if ts == [] then []
    else
      match ts[0]
      case Literal(c) => [c] + Render(ts[1..], args)
      case StringArg => args[0].s + Render(ts[1..], args[1..])
      case Number(spec) => NumberText(spec, args[0].bits) + Render(ts[1..], args[1..])
  }

  // ----- what the semantics says -----

  /** The specifiers in `run` turn `spec` into `r`: `h` or `p` anywhere means base 16, `u` or `p` unsigned,
      and the last of `i`, `l` and `p` sets the width. */
  ghost predicate Means(run: string, spec: Spec, r: Spec) {
    && (r.hex <==> spec.hex || 'h' in run || 'p' in run)
    && (r.signed <==> spec.signed && 'u' !in run && 'p' !in run)
    && r.long == Width(run, spec.long)
  }

  /** From `i` up to `j` there are specifiers only, as many as there are up to the first `p`. */
  ghost predicate IsRun(fmt: string, i: nat, j: nat) {
    && i <= j <= |fmt|
    && (forall k | i <= k < j :: IsSpecifier(fmt[k]) && (fmt[k] == 'p' ==> k == j - 1))
    && (j == |fmt| || !IsSpecifier(fmt[j]) || (j > i && fmt[j - 1] == 'p'))
  }

  /** The run read declaratively. */
  lemma {:induction false} ScanSpecMeans(fmt: string, i: nat, spec: Spec)
    requires i <= |fmt|
    ensures var (r, j) := ScanSpec(fmt, i, spec);
            IsRun(fmt, i, j) && Means(fmt[i..j], spec, r)
    decreases |fmt| - i
  {
    var (r, j) := ScanSpec(fmt, i, spec);
    if i == |fmt| || !IsSpecifier(fmt[i]) {
      assert fmt[i..j] == "";
    } else if fmt[i] == 'p' {
      assert fmt[i..i + 1] == [] + ['p'];
      MeansFirst('p', "", spec, r);
    } else {
      ScanSpecMeans(fmt, i + 1, Applied(spec, fmt[i]));
      SliceFirst(fmt, i, j);
      MeansFirst(fmt[i], fmt[i + 1..j], spec, r);
    }
  }

  lemma SliceFirst(s: string, i: nat, j: nat)
    requires i < j <= |s|
    ensures s[i..j] == [s[i]] + s[i + 1..j]
  {
  }

  lemma MeansFirst(c: char, run: string, spec: Spec, r: Spec)
    requires IsSpecifier(c) && Means(run, Applied(spec, c), r)
    ensures Means([c] + run, spec, r)
  {
    WidthFirst(c, run, spec.long);
    InFirst('h', c, run);
    InFirst('p', c, run);
    InFirst('u', c, run);
  }

  lemma InFirst(d: char, c: char, run: string)
    ensures d in [c] + run <==> d == c || d in run
  {
  }

  /** 64 bits according to the last of `i`, `l` and `p`, or `long` when there is none. */
  function Width(run: string, long: bool): bool {
    if run == [] then long
    else
      var c := run[|run| - 1];
      if c == 'l' || c == 'p' then true else if c == 'i' then false else Width(run[..|run| - 1], long)
  }

  lemma {:induction false} WidthFirst(c: char, run: string, long: bool)
    ensures Width([c] + run, long) == Width(run, if c == 'l' || c == 'p' then true else if c == 'i' then false else long)
  {
    if run == [] {
      assert ([c] + run)[..|[c] + run| - 1] == [];
    } else {
      WidthFirst(c, run[..|run| - 1], long);
      assert ([c] + run)[..|run|] == [c] + run[..|run| - 1];
    }
  }

  function Directives(ts: seq<Token>): nat
    decreases ts
  {
    if ts == [] then 0 else (if ts[0].Literal? then 0 else 1) + Directives(ts[1..])
  }

  /** Exactly one argument per directive is consumed: what follows on the list does not matter. */
  lemma {:induction false} OneArgPerDirective(ts: seq<Token>, args: seq<Arg>, more: seq<Arg>)
    requires Matching(ts, args)
    ensures Directives(ts) <= |args|
    ensures Matching(ts, args[..Directives(ts)] + more)
    ensures Render(ts, args[..Directives(ts)] + more) == Render(ts, args)
    decreases ts
  {
    if ts != [] {
      var n := Directives(ts);
      if ts[0].Literal? {
        OneArgPerDirective(ts[1..], args, more);
      } else {
        OneArgPerDirective(ts[1..], args[1..], more);
        assert (args[..n] + more)[0] == args[0];
        assert (args[..n] + more)[1..] == args[1..][..n - 1] + more;
      }
    }
  }

  // ----- the interpreter -----

  /** The do-while loop over the specifiers. */
  method ScanSpecifiers(fmt: string, start: nat) returns (spec: Spec, isPtr: bool, i: nat)
    requires start < |fmt| && IsSpecifier(fmt[start])
    ensures (spec, i) == ScanSpec(fmt, start, PLAIN)
    ensures isPtr ==> spec == Spec(true, false, true)
  {
    var hex, sign, long, finished := false, true, false, false;
    isPtr := false;
    i := start;
    while !finished
      invariant start <= i <= |fmt|
      invariant !finished ==> !isPtr && ScanSpec(fmt, start, PLAIN) == ScanSpec(fmt, i, Spec(hex, sign, long))
      invariant finished ==> ScanSpec(fmt, start, PLAIN) == (Spec(hex, sign, long), i)
      invariant isPtr ==> hex && !sign && long
      decreases |fmt| - i, !finished
    {
      if i == |fmt| {
        finished := true;
      } else if fmt[i] == 'i' {
        long := false;
        i := i + 1;
      } else if fmt[i] == 'p' {
        hex, isPtr, sign, long, finished := true, true, false, true, true;
        i := i + 1;
      } else if fmt[i] == 'u' {
        sign := false;
        i := i + 1;
      } else if fmt[i] == 'h' {
        hex := true;
        i := i + 1;
      } else if fmt[i] == 'l' {
        long := true;
        i := i + 1;
      } else {
        finished := true;
      }
    }
    spec := Spec(hex, sign, long);
  }

  /** The loops that copy a terminated string into the buffer. */
  method CopyText(text: string, buffer: array<char>, at: nat) returns (end: nat)
    requires at + |text| <= buffer.Length
    modifies buffer
    ensures end == at + |text| && buffer[..end] == old(buffer[..at]) + text
    ensures forall k | end <= k < buffer.Length :: buffer[k] == old(buffer[k])
  {
    end := at;
    while end < at + |text|
      invariant at <= end <= at + |text|
      invariant forall k | 0 <= k < end - at :: buffer[at + k] == text[k]
      invariant forall k | 0 <= k < buffer.Length && !(at <= k < end) :: buffer[k] == old(buffer[k])
    {
      buffer[end] := text[end - at];
      end := end + 1;
    }
  }

  /** The digits of one number, through a scratch buffer of a hundred bytes. */
  method FormatNumber(spec: Spec, isPtr: bool, bits: nat) returns (text: string)
    requires isPtr ==> spec == Spec(true, false, true)
    requires spec.signed ==> Signed(bits, spec.long) > -0x8000_0000_0000_0000
    ensures text == NumberText(spec, bits)
  {
    var res := new char[100](_ => NUL);
    var ok;
    if isPtr {
      ok := Utoa(bits % WORD, res, 16);
    } else if !spec.signed && !spec.long {
      ok := Utoa(bits % HALF_WORD, res, spec.Base());
    } else if spec.signed && !spec.long {
      ok := Itoa(Signed(bits, false), res, spec.Base());
    } else if !spec.signed {
      ok := Utoa(bits % WORD, res, spec.Base());
    } else {
      ok := Itoa(Signed(bits, true), res, spec.Base());
    }
    text := (if spec.hex then "0x" else "") + CString(res[..]);
  }

  lemma FirstToken(t: Token, ts: seq<Token>, args: seq<Arg>)
    requires Matching([t] + ts, args)
    ensures t.Literal? ==> Matching(ts, args) && Render([t] + ts, args) == [t.c] + Render(ts, args)
    ensures !t.Literal? ==> args != [] && Matching(ts, args[1..])
    ensures t.StringArg? ==> args[0].Str? && Render([t] + ts, args) == args[0].s + Render(ts, args[1..])
    ensures t.Number? ==> && args[0].Word?
                          && (t.spec.signed ==> Signed(args[0].bits, t.spec.long) > -0x8000_0000_0000_0000)
                          && Render([t] + ts, args) == NumberText(t.spec, args[0].bits) + Render(ts, args[1..])
  {
    assert ([t] + ts)[1..] == ts;
  }

  /** One round of _vprintf: the text it appends, and where it goes on in the format and the arguments. */
  method Round(fmt: string, start: nat, args: seq<Arg>, first: nat) returns (text: string, i: nat, a: nat)
    requires start < |fmt| && first <= |args| && Matching(Tokens(fmt, start), args[first..])
    ensures start < i <= |fmt| && first <= a <= |args| && Matching(Tokens(fmt, i), args[a..])
    ensures Render(Tokens(fmt, start), args[first..]) == text + Render(Tokens(fmt, i), args[a..])
  {
    i, a := start, first;
    text := "";
    if fmt[i] == '%' {
      i := i + 1;
      if i < |fmt| {
        if fmt[i] == ' ' || fmt[i] == '%' {
          text := "%";
          i := i + 1;
          FirstToken(Literal('%'), Tokens(fmt, i), args[a..]);
        } else if fmt[i] == 's' {
          i := i + 1;
          FirstToken(StringArg, Tokens(fmt, i), args[a..]);
          text := args[a].s;
          a := a + 1;
          assert args[first..][1..] == args[a..];
        } else if IsSpecifier(fmt[i]) {
          var spec, isPtr;
          spec, isPtr, i := ScanSpecifiers(fmt, i);
          FirstToken(Number(spec), Tokens(fmt, i), args[a..]);
          text := FormatNumber(spec, isPtr, args[a].bits);
          a := a + 1;
          assert args[first..][1..] == args[a..];
        }
      }
    } else {
      text := [fmt[i]];
      i := i + 1;
      FirstToken(Literal(fmt[start]), Tokens(fmt, i), args[a..]);
    }
  }

  lemma Appended(output: string, before: string, text: string, rest: string, after: string)
    requires output == before + (text + rest) && after == before + text
    ensures output == after + rest && |after| <= |output|
  {
  }

  /** One round and the copying of its text. */
  method Advance(fmt: string, start: nat, args: seq<Arg>, first: nat, buffer: array<char>, at: nat, ghost output: string)
    returns (i: nat, a: nat, b: nat)
    requires start < |fmt| && first <= |args| && Matching(Tokens(fmt, start), args[first..])
    requires at <= |output| <= buffer.Length && output == buffer[..at] + Render(Tokens(fmt, start), args[first..])
    modifies buffer
    ensures start < i <= |fmt| && a <= |args| && Matching(Tokens(fmt, i), args[a..])
    ensures b <= |output| && output == buffer[..b] + Render(Tokens(fmt, i), args[a..])
    ensures forall k | |output| <= k < buffer.Length :: buffer[k] == old(buffer[k])
  {
    var text;
    text, i, a := Round(fmt, start, args, first);
    ghost var before, rest := buffer[..at], Render(Tokens(fmt, i), args[a..]);
    b := CopyText(text, buffer, at);
    Appended(output, before, text, rest, buffer[..b]);
  }

  /** _vprintf: it writes exactly the rendering and nothing behind it. */
  method VPrintf(fmt: string, buffer: array<char>, args: seq<Arg>) returns (ghost written: nat)
    requires Matching(Tokens(fmt, 0), args)
    requires |Render(Tokens(fmt, 0), args)| <= buffer.Length
    modifies buffer
    ensures written == |Render(Tokens(fmt, 0), args)|
    ensures buffer[..written] == Render(Tokens(fmt, 0), args)
    ensures forall k | written <= k < buffer.Length :: buffer[k] == old(buffer[k])
  {
    ghost var output := Render(Tokens(fmt, 0), args);
    var i, b, a := 0, 0, 0;
    while i < |fmt|
      invariant 0 <= i <= |fmt| && 0 <= b <= |output| && 0 <= a <= |args|
      invariant Matching(Tokens(fmt, i), args[a..]) && output == buffer[..b] + Render(Tokens(fmt, i), args[a..])
      invariant forall k | |output| <= k < buffer.Length :: buffer[k] == old(buffer[k])
      decreases |fmt| - i
    {
      i, a, b := Advance(fmt, i, args, a, buffer, b, output);
    }
    written := b;
  }

  const PRINTBUFLEN := 1024

  /** printf and serial_printf up to the output device: a cleared buffer of 1024 bytes holds the
      whole rendering when it is shorter than that. */
  method FormatToBuffer(fmt: string, args: seq<Arg>) returns (buffer: array<char>)
    requires Matching(Tokens(fmt, 0), args)
    requires |Render(Tokens(fmt, 0), args)| < 1024
    ensures buffer.Length == 1024 && CString(buffer[..]) == Render(Tokens(fmt, 0), args)
  {
    buffer := new char[PRINTBUFLEN](_ => NUL);
    ghost var n := VPrintf(fmt, buffer, args);
    RenderChars(Tokens(fmt, 0), args);
    CStringIs(buffer[..], n);
  }

  /** A rendering contains no terminator. */
  lemma {:induction false} RenderChars(ts: seq<Token>, args: seq<Arg>)
    requires Matching(ts, args)
    ensures NUL !in Render(ts, args)
    decreases ts
  {
    if ts != [] {
      match ts[0] {
        case Literal(c) => RenderChars(ts[1..], args);
        case StringArg => RenderChars(ts[1..], args[1..]);
        case Number(spec) =>
          RenderChars(ts[1..], args[1..]);
          NumberChars(spec, args[0].bits);
      }
    }
  }

  lemma NumberChars(spec: Spec, bits: nat)
    ensures NUL !in NumberText(spec, bits)
  {
    if spec.signed {
      SignedChars(Signed(bits, spec.long), spec.Base());
    } else {
      TextChars(Unsigned(bits, spec.long), spec.Base());
    }
  }

  lemma SignedChars(n: int, base: nat)
    requires 2 <= base <= 36
    ensures NUL !in SignedText(n, base)
  {
    TextChars(if n < 0 then -n else n, base);
  }
}
