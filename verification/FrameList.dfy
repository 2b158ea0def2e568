/** framealloc.c: the free-frame list, a stack that lives behind its own header in memory. */
module FrameList {
  import opened Machine

  /** The memory from the list's address on, as 64-bit words. Words 0, 1 and 2 are `head`,
      `nextFree` and `numFrames`; the slots follow. Pointers are byte addresses, so that they can
      and do point at the header itself. */
  type Words = seq<nat>

  const HEAD := 0
  const NEXT_FREE := 1
  const NUM_FRAMES := 2
  const SLOTS := 3

  function Index(base: nat, pointer: nat): nat
    requires base <= pointer
  {
    (pointer - base) / 8
  }

  /** The pointers that a push and a pop follow lead into the modelled memory. */
  predicate CanPush(base: nat, m: Words) {
    |m| >= SLOTS && base <= m[HEAD] && Index(base, m[HEAD]) < |m|
  }

  predicate CanPop(base: nat, m: Words) {
    && |m| >= SLOTS && m[HEAD] >= 8
    && (m[NEXT_FREE] == 0 || (base + 8 <= m[NEXT_FREE] && Index(base, m[NEXT_FREE]) < |m|))
  }

  /** push_frame_list, one store after the other. */
  function PushWords(base: nat, m: Words, x: nat): Words
    requires CanPush(base, m)
  {
    var m1 := m[NEXT_FREE := m[HEAD]];
    var m2 := m1[Index(base, m1[NEXT_FREE]) := x];
    var m3 := m2[NUM_FRAMES := (m2[NUM_FRAMES] + 1) % WORD];
    m3[HEAD := m3[NEXT_FREE] + 8]
  }

  /** pop_frame_list: the new memory and the returned address. */
  function PopWords(base: nat, m: Words): (Words, nat)
    requires CanPop(base, m)
  {
    if m[NEXT_FREE] == 0 then (m, 0)
    else
      var address := m[Index(base, m[NEXT_FREE])];
      var m1 := m[NEXT_FREE := if m[NEXT_FREE] - 8 != base then m[NEXT_FREE] - 8 else 0];
      var m2 := m1[NUM_FRAMES := (m1[NUM_FRAMES] + WORD - 1) % WORD];
      (m2[HEAD := m2[HEAD] - 8], address)
  }

  /** The words hold the stack `st`, top last. An empty list has a null `nextFree` when it was never
      filled and points at `numFrames` when it was emptied. */
  ghost predicate Holds(base: nat, m: Words, st: seq<nat>) {
    && 0 < base && SLOTS + |st| <= |m| < WORD
    && m[HEAD] == base + 24 + 8 * |st|
    && m[NUM_FRAMES] == |st|
    && (st != [] ==> m[NEXT_FREE] == m[HEAD] - 8)
    && (st == [] ==> m[NEXT_FREE] == 0 || m[NEXT_FREE] == base + 16)
    && forall i | 0 <= i < |st| :: m[SLOTS + i] == st[i]
  }

  lemma PushHolds(base: nat, m: Words, st: seq<nat>, x: nat)
    requires Holds(base, m, st) && SLOTS + |st| < |m|
    ensures Holds(base, PushWords(base, m, x), st + [x])
  {
  }

  lemma PopHolds(base: nat, m: Words, st: seq<nat>)
    requires Holds(base, m, st) && st != []
    ensures var (m', address) := PopWords(base, m);
            address == st[|st| - 1] && Holds(base, m', st[..|st| - 1])
  {
    assert Index(base, m[NEXT_FREE]) == SLOTS + |st| - 1;
  }

  /** A push stores to the header and one slot, a pop to the header only. */
  lemma OnlyHeader(base: nat, m: Words, x: nat, i: nat)
    requires SLOTS <= i < |m|
    ensures CanPush(base, m) && i != Index(base, m[HEAD]) ==> PushWords(base, m, x)[i] == m[i]
    ensures CanPush(base, m) ==> |PushWords(base, m, x)| == |m|
    ensures CanPop(base, m) ==> |PopWords(base, m).0| == |m| && PopWords(base, m).0[i] == m[i]
  {
  }

  /** Popping an empty list answers NULL, but leaves a list exactly when nothing was ever pushed. */
  lemma PopEmpty(base: nat, m: Words)
    requires Holds(base, m, [])
    ensures var (m', address) := PopWords(base, m);
            address == 0 && (Holds(base, m', []) <==> m[NEXT_FREE] == 0)
  {
  }

  /** After that the next pop hands out an address inside the list itself, and a push followed by a
      pop does not give back what was pushed. */
  lemma PopDrainedTwice(base: nat, m: Words, x: nat)
    requires Holds(base, m, []) && m[NEXT_FREE] != 0 && x < WORD
    ensures var m1 := PopWords(base, m).0;
            && CanPop(base, m1) && PopWords(base, m1).1 == base + 8
            && CanPush(base, m1)
            && var m2 := PushWords(base, m1, x);
               && CanPop(base, m2) && PopWords(base, m2).1 == (x + 1) % WORD != x
  {
  }

  // ----- runs -----

  datatype Op = Push(x: nat) | Pop

  /** The stack the list stands for: its contents and the answers of the pops, NULL when empty. */
  function RunStack(st: seq<nat>, ops: seq<Op>): (seq<nat>, seq<nat>)
    decreases ops
  {
    if ops == [] then (st, [])
    else
      match ops[0]
      case Push(x) => RunStack(st + [x], ops[1..])
      case Pop =>
        var (st', outs) := RunStack(if st == [] then [] else st[..|st| - 1], ops[1..]);
        (st', [if st == [] then 0 else st[|st| - 1]] + outs)
  }

  /** No pop meets a list that was filled and emptied again, and every push has room. */
  ghost predicate Careful(depth: nat, untouched: bool, room: nat, ops: seq<Op>)
    decreases ops
  {
    ops == [] ||
    match ops[0]
    case Push(_) => depth < room && Careful(depth + 1, false, room, ops[1..])
    case Pop =>
      if depth > 0 then Careful(depth - 1, false, room, ops[1..]) else untouched && Careful(0, true, room, ops[1..])
  }

  /** What a run of calls does to the words; `outs` are the answers. */
  ghost predicate RunWords(base: nat, m: Words, ops: seq<Op>, m': Words, outs: seq<nat>)
    decreases ops
  {
    if ops == [] then m' == m && outs == []
    else
      match ops[0]
      case Push(x) =>
        CanPush(base, m) && RunWords(base, PushWords(base, m, x), ops[1..], m', outs)
      case Pop =>
        && CanPop(base, m)
        && outs != [] && outs[0] == PopWords(base, m).1
        && RunWords(base, PopWords(base, m).0, ops[1..], m', outs[1..])
  }

  /** Every careful run goes through, answers like the stack and ends in memory that holds it. */
  lemma {:induction false} RunsLikeAStack(base: nat, m: Words, st: seq<nat>, ops: seq<Op>)
    returns (m': Words, outs: seq<nat>)
    requires Holds(base, m, st) && Careful(|st|, m[NEXT_FREE] == 0, |m| - SLOTS, ops)
    ensures RunWords(base, m, ops, m', outs)
    ensures var (st', answers) := RunStack(st, ops); outs == answers && Holds(base, m', st')
    decreases ops
  {
    if ops == [] {
      return m, [];
    }
    match ops[0] {
      case Push(x) =>
        PushHolds(base, m, st, x);
        m', outs := RunsLikeAStack(base, PushWords(base, m, x), st + [x], ops[1..]);
      case Pop =>
        var (m1, address) := PopWords(base, m);
        if st == [] {
          PopEmpty(base, m);
        } else {
          PopHolds(base, m, st);
        }
        m', outs := RunsLikeAStack(base, m1, if st == [] then [] else st[..|st| - 1], ops[1..]);
        outs := [address] + outs;
    }
  }

  // ----- the list itself -----

  /** How many frames add_frame_region takes from a region when the list already holds `n`: it stops
      behind the first offset of 29999 or more, and when the list has grown beyond a hundred. */
  function RegionCount(n: nat, length: nat): nat {
    var pages := (length + 0xFFF) / 0x1000;
    var few := if pages < 9 then pages else 9;
    var room := if n < 100 then 101 - n else 1;
    if few < room then few else room
  }

  /** The first `n` frames of a region. */
  function RegionFrames(region: nat, n: nat): (frames: seq<nat>)
    ensures |frames| == n && forall i | 0 <= i < n :: frames[i] == region + i * 0x1000
  {
    if n == 0 then [] else RegionFrames(region, n - 1) + [region + (n - 1) * 0x1000]
  }

  /** After pushing frame `k` the loop goes on if and only if there are frames left to take. */
  lemma RegionStep(n: nat, length: nat, k: nat)
    ensures RegionCount(n, length) == 0 <==> length == 0
    ensures k < RegionCount(n, length) ==>
              (n + k + 1 > 100 || k * 0x1000 >= 30000 - 1 || (k + 1) * 0x1000 >= length <==> k + 1 == RegionCount(n, length))
  {
  }

  lemma FramesStep(st: seq<nat>, region: nat, k: nat)
    ensures st + RegionFrames(region, k) + [region + k * 0x1000] == st + RegionFrames(region, k + 1)
  {
  }

  /** The words hold `st` and above it the first `k` frames of the region. */
  ghost predicate HoldsMore(base: nat, m: Words, st: seq<nat>, region: nat, k: nat) {
    Holds(base, m, st + RegionFrames(region, k))
  }

  class FreeFrameList {
    const base: nat
    const words: array<nat>

    /** init_frame_list, before it adds the first region. */
    constructor (base: nat, words: array<nat>)
      requires 0 < base && SLOTS <= words.Length < WORD
      modifies words
      ensures this.base == base && this.words == words
      ensures Holds(base, words[..], []) && words[NEXT_FREE] == 0
    {
      this.base, this.words := base, words;
      words[NEXT_FREE] := 0;
      words[HEAD] := base + 24;
      words[NUM_FRAMES] := 0;
    }

    /** push_frame_list. */
    method Push(x: nat)
      requires CanPush(base, words[..])
      modifies words
      ensures words[..] == PushWords(base, old(words[..]), x)
    {
      words[NEXT_FREE] := words[HEAD];
      words[Index(base, words[NEXT_FREE])] := x;
      words[NUM_FRAMES] := (words[NUM_FRAMES] + 1) % WORD;
      words[HEAD] := words[NEXT_FREE] + 8;
    }

    /** pop_frame_list. */
    method Pop() returns (address: nat)
      requires CanPop(base, words[..])
      modifies words
      ensures (words[..], address) == PopWords(base, old(words[..]))
    {
      if words[NEXT_FREE] == 0 {
        return 0;
      }
      address := words[Index(base, words[NEXT_FREE])];
      if words[NEXT_FREE] - 8 != base {
        words[NEXT_FREE] := words[NEXT_FREE] - 8;
      } else {
        words[NEXT_FREE] := 0;
      }
      words[NUM_FRAMES] := (words[NUM_FRAMES] + WORD - 1) % WORD;
      words[HEAD] := words[HEAD] - 8;
    }

    /** One round of add_frame_region: frame `k` of the region. */
    method PushNth(region: nat, x: nat, ghost st: seq<nat>, ghost k: nat)
      requires HoldsMore(base, words[..], st, region, k) && x == k * 0x1000 && SLOTS + |st| + k < words.Length
      modifies words
      ensures HoldsMore(base, words[..], st, region, k + 1) && words[NUM_FRAMES] == |st| + k + 1
    {
      FramesStep(st, region, k);
      PushHolds(base, words[..], st + RegionFrames(region, k), region + x);
      Push(region + x);
    }

    /** add_frame_region: one push per page of the region, until a limit is reached. */
    method AddFrameRegion(region: nat, length: nat, ghost st: seq<nat>)
      requires Holds(base, words[..], st) && SLOTS + |st| + RegionCount(|st|, length) <= words.Length
      modifies words
      ensures HoldsMore(base, words[..], st, region, RegionCount(|st|, length))
    {
      assert st + RegionFrames(region, 0) == st;
      var x := 0;
      ghost var k, count := 0, RegionCount(|st|, length);
      RegionStep(|st|, length, 0);
      while x < length
        invariant 0 <= k <= count && x == k * 0x1000
        invariant HoldsMore(base, words[..], st, region, k)
        invariant x < length <==> k < count
        decreases length - x
      {
        RegionStep(|st|, length, k);
        PushNth(region, x, st, k);
        k := k + 1;
        if words[NUM_FRAMES] > 100 { break; }
        if x >= 30000 - 1 { break; }
        x := x + 0x1000;
      }
      assert k == count;
    }
  }

  /** An empty list takes min(ceil(length / 4096), 9) frames of a region, and they are all different. */
  lemma RegionOfEmptyList(region: nat, length: nat)
    ensures RegionCount(0, length) == if length <= 8 * 0x1000 then (length + 0xFFF) / 0x1000 else 9
    ensures var frames := RegionFrames(region, RegionCount(0, length));
            && (forall i, j | 0 <= i < j < |frames| :: frames[i] != frames[j])
            && (forall i | 0 <= i < |frames| :: frames[i] < region + length)
  {
  }
}
