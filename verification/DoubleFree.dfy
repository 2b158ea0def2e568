/** What a second kfree of the same pointer does to the headers. */
module DoubleFree {
  import opened Machine
  import opened Wrappers
  import opened PebbleLayout
  import opened HeapModel
  import opened HeapTheorems
  import opened HeapRuns
  import opened HeaderChains

  // ----- a second kfree of the same pointer -----

  /** The headers of a bucket describe some layout of its bytes. */
  ghost predicate InOrder(pm: PebbleMap, base: nat, lo: nat, hi: nat) {
    exists ps :: Tiled(ps, lo, hi) && Chain(pm, base, ps)
  }

  /** The headers of the pebbles before `m` are the same in both maps. */
  ghost predicate SameBefore(pm: PebbleMap, pm': PebbleMap, ps: seq<Pebble>, m: nat) {
    forall j | 0 <= j < m && j < |ps| ::
      ps[j].addr in pm && ps[j].addr in pm' && pm'[ps[j].addr] == pm[ps[j].addr]
  }

  /** Two layouts with the same headers before pebble `m` have the same addresses up to there. */
  lemma {:induction false} SameStart(pm: PebbleMap, pm': PebbleMap, base: nat, ps: seq<Pebble>, qs: seq<Pebble>,
                                     lo: nat, hi: nat, m: nat)
    requires Tiled(ps, lo, hi) && Tiled(qs, lo, hi) && 0 < lo && Chain(pm, base, ps) && Chain(pm', base, qs)
    requires m < |ps| && SameBefore(pm, pm', ps, m)
    ensures m < |qs| && qs[m].addr == ps[m].addr
  {
    if m > 0 {
      SameStart(pm, pm', base, ps, qs, lo, hi, m - 1);
      assert LinkedAt(pm, base, ps, m - 1) && LinkedAt(pm', base, qs, m - 1);
      InRange(ps, lo, hi, m);
    }
  }

  /** Headers that give pebble `m` more bytes than it has describe no layout at all. */
  lemma GrownBreaks(pm: PebbleMap, pm': PebbleMap, base: nat, ps: seq<Pebble>, lo: nat, hi: nat, m: nat)
    requires Tiled(ps, lo, hi) && 0 < lo && Chain(pm, base, ps) && m < |ps| && SameBefore(pm, pm', ps, m)
    requires ps[m].addr in pm' && pm'[ps[m].addr].size > ps[m].size && pm'[ps[m].addr].next == NextAddr(ps, m)
    ensures !InOrder(pm', base, lo, hi)
  {
    if InOrder(pm', base, lo, hi) {
      var qs :| Tiled(qs, lo, hi) && Chain(pm', base, qs);
      SameStart(pm, pm', base, ps, qs, lo, hi, m);
      SizeIsRead(pm', base, ps, qs, lo, hi, m);
      assert false;
    }
  }

  /** In a layout the link of a header determines its size. */
  lemma SizeIsRead(pm: PebbleMap, base: nat, ps: seq<Pebble>, qs: seq<Pebble>, lo: nat, hi: nat, m: nat)
    requires Tiled(ps, lo, hi) && Tiled(qs, lo, hi) && 0 < lo && Chain(pm, base, qs)
    requires m < |ps| && m < |qs| && qs[m].addr == ps[m].addr
    requires ps[m].addr in pm && pm[ps[m].addr].next == NextAddr(ps, m)
    ensures pm[ps[m].addr].size == ps[m].size
  {
    assert LinkedAt(pm, base, qs, m);
    if m + 1 < |ps| { InRange(ps, lo, hi, m + 1); }
    if m + 1 < |qs| { InRange(qs, lo, hi, m + 1); }
  }

  /** Between the two maps `a` has grown, and no header differs but those around it. */
  ghost predicate Grown(once: PebbleMap, twice: PebbleMap, a: nat, x: nat, c: nat, d: nat) {
    && a in once && a in twice && twice.Keys == once.Keys
    && twice[a].size > once[a].size && twice[a].next == once[a].next
    && forall y | y in once && y != a && y != x && y != c && y != d :: twice[y] == once[y]
  }

  /** Melting `x` into `a` a second time. */
  lemma MeltedTwice(pm: PebbleMap, a: nat, x: nat, c: nat, d: nat)
    requires a in pm && x in pm && a != x && a != 0 && pm[x].prev == a && pm[x].next == c && !pm[a].used
    requires c != 0 ==> c in pm && c != a && c != x && pm[c].next == d
    requires d != 0 ==> d in pm && d != a && d != x && d != c
    ensures var once := FreeStores(pm, x);
            var twice := FreeStores(once, x);
            && Grown(once, twice, a, x, c, d)
            && (c != 0 && pm[c].used ==>
                  twice[a].size == pm[a].size + 2 * (pm[x].size + PEBBLE_HEADER) && twice[a].next == c)
  {
    var pm0 := MarkedFree(pm, x);
    var pm1 := Swallowed(pm0, a, x);
    var once := FreeStores(pm, x);
    assert once == AbsorbStores(pm1, a);
    assert once[x] == pm0[x] && !once[a].used;
    assert MarkedFree(once, x) == once;
    assert FreeStores(once, x) == AbsorbStores(Swallowed(once, a, x), a);
  }

  /** kfree of a block twice in a row leaves the bucket's headers in order if and only if the first kfree did
      not melt the block into its left neighbour. If it did, the neighbour is given the bytes twice. */
  lemma DoubleFreeIff(pm: PebbleMap, base: nat, ps: seq<Pebble>, k: nat, lo: nat, hi: nat)
    requires Tiled(ps, lo, hi) && Coalesced(ps) && 0 < lo && Chain(pm, base, ps) && k < |ps| && ps[k].used
    ensures ps[k].addr in pm && InOrder(FreeStores(pm, ps[k].addr), base, lo, hi)
    ensures InOrder(FreeStores(FreeStores(pm, ps[k].addr), ps[k].addr), base, lo, hi) <==> k == 0 || ps[k - 1].used
  {
    FreeChain(pm, base, ps, k, lo, hi);
    FreedKeeps(ps, lo, hi, k);
    var once := FreeStores(pm, ps[k].addr);
    if k == 0 || ps[k - 1].used {
      FreedStays(ps, k);
      FreeChain(once, base, Freed(ps, k), k, lo, hi);
      FreedKeeps(Freed(ps, k), lo, hi, k);
    } else {
      StaleFree(pm, base, ps, k, lo, hi);
    }
  }

  lemma StaleFree(pm: PebbleMap, base: nat, ps: seq<Pebble>, k: nat, lo: nat, hi: nat)
    requires Tiled(ps, lo, hi) && Coalesced(ps) && 0 < lo && Chain(pm, base, ps)
    requires 0 < k < |ps| && !ps[k - 1].used && ps[k].addr in pm
    ensures !InOrder(FreeStores(FreeStores(pm, ps[k].addr), ps[k].addr), base, lo, hi)
  {
    FreeChain(pm, base, ps, k, lo, hi);
    StaleLinks(pm, base, ps, k, lo, hi);
    MeltedTwice(pm, ps[k - 1].addr, ps[k].addr, NextAddr(ps, k), NextAfter(ps, k));
    var once := FreeStores(pm, ps[k].addr);
    GrownLeft(pm, once, FreeStores(once, ps[k].addr), base, ps, k, lo, hi);
  }

  lemma GrownLeft(pm: PebbleMap, once: PebbleMap, twice: PebbleMap, base: nat, ps: seq<Pebble>, k: nat, lo: nat, hi: nat)
    requires Tiled(ps, lo, hi) && Coalesced(ps) && 0 < lo && Chain(pm, base, ps) && once.Keys == pm.Keys
    requires 0 < k < |ps| && !ps[k - 1].used && Chain(once, base, Freed(ps, k))
    requires Grown(once, twice, ps[k - 1].addr, ps[k].addr, NextAddr(ps, k), NextAfter(ps, k))
    ensures !InOrder(twice, base, lo, hi)
  {
    var qs := Freed(ps, k);
    FreedKeeps(ps, lo, hi, k);
    FreedBefore(ps, k);
    StaleLinks(pm, base, ps, k, lo, hi);
    SameBelow(pm, once, twice, base, ps, k, lo, hi);
    assert LinkedAt(once, base, qs, k - 1);
    GrownBreaks(once, twice, base, qs, lo, hi, k - 1);
  }

  /** The pebble after the next. */
  function NextAfter(ps: seq<Pebble>, k: nat): nat
    requires k < |ps|
  {
    if k + 1 < |ps| then NextAddr(ps, k + 1) else 0
  }

  lemma StaleLinks(pm: PebbleMap, base: nat, ps: seq<Pebble>, k: nat, lo: nat, hi: nat)
    requires Tiled(ps, lo, hi) && 0 < lo && Chain(pm, base, ps) && 0 < k < |ps|
    ensures var a, x, c, d := ps[k - 1].addr, ps[k].addr, NextAddr(ps, k), NextAfter(ps, k);
            && a in pm && x in pm && 0 < a < x && pm[x].prev == a && pm[x].next == c && pm[a].used == ps[k - 1].used
            && (c != 0 ==> c in pm && x < c && pm[c].next == d) && (d != 0 ==> d in pm && x < d && c < d)
  {
    assert LinkedAt(pm, base, ps, k - 1) && LinkedAt(pm, base, ps, k) && LinkedAt(pm, base, ps, k + 1);
    assert LinkedAt(pm, base, ps, k + 2);
    Ordered(ps, lo, hi, k - 1, k);
    if k + 1 < |ps| { Ordered(ps, lo, hi, k, k + 1); }
    if k + 2 < |ps| { Ordered(ps, lo, hi, k + 1, k + 2); }
  }

  lemma SameBelow(pm: PebbleMap, once: PebbleMap, twice: PebbleMap, base: nat, ps: seq<Pebble>, k: nat, lo: nat, hi: nat)
    requires Tiled(ps, lo, hi) && Chain(pm, base, ps) && 0 < k < |ps| && once.Keys == pm.Keys && twice.Keys == pm.Keys
    requires 0 < lo && forall y | y in pm && y < ps[k - 1].addr && y != 0 :: twice[y] == once[y]
    ensures SameBefore(once, twice, ps, k - 1)
  {
    forall j | 0 <= j < k - 1
      ensures ps[j].addr in pm && 0 < ps[j].addr < ps[k - 1].addr
    {
      assert LinkedAt(pm, base, ps, j);
      Ordered(ps, lo, hi, j, k - 1);
    }
  }

  lemma FreedBefore(ps: seq<Pebble>, k: nat)
    requires 0 < k < |ps| && !ps[k - 1].used
    ensures k - 1 < |Freed(ps, k)| && Freed(ps, k)[k - 1].addr == ps[k - 1].addr
    ensures forall j | 0 <= j < k - 1 :: Freed(ps, k)[j] == ps[j]
  {
  }

  // ----- a run that gets there -----

  /** kmalloc when only the last pebble of the only bucket is free and it is large enough to be split. */
  lemma MallocLast(h: Heap, r: Rounding, n: nat, ps: seq<Pebble>, last: Pebble)
    requires |h.buckets| == 1 && h.buckets[0].pebbles == ps + [last] && !last.used
    requires (forall k | 0 <= k < |ps| :: ps[k].used) && last.size >= Rounded(r, Request(n)) + 126
    ensures var want := Rounded(r, Request(n));
            && last.size >= want + PEBBLE_HEADER
            && Malloc(h, r, n, true) == (WithPebbles(h, 0, ps + Cut(last, want)), last.addr + PEBBLE_HEADER)
  {
    var want := Rounded(r, Request(n));
    var all, k := h.buckets[0].pebbles, |ps|;
    assert all[k] == last && Fits(all[k], want) && HasFit(all, want);
    assert forall j | 0 <= j < k :: all[j] == ps[j];
    assert Choose(all, h.buckets[0].best, want) == Some(k);
    RoomToSplit(last.size, want);
    assert Pieces(last, want) == Cut(last, want);
    assert all[..k] == ps && all[k + 1..] == [];
    assert Placed(all, k, want) == ps + Cut(last, want);
  }

  lemma RoomToSplit(have: nat, want: nat)
    requires have >= want + 126
    ensures SplitGuard(have, want)
  {
  }

  /** A free pebble after a request was taken off its front. */
  function Cut(p: Pebble, want: nat): (qs: seq<Pebble>)
    requires p.size >= want + PEBBLE_HEADER
  {
    [Pebble(p.addr, want, true), Pebble(p.addr + PEBBLE_HEADER + want, p.size - want - PEBBLE_HEADER, false)]
  }

  /** Where `k` blocks of `want` bytes from `lo` on end. */
  function RowEnd(lo: nat, want: nat, k: nat): (end: nat)
    requires want <= 16384
    ensures lo <= end <= lo + 16444 * k
  {
    if k == 0 then lo else RowEnd(lo, want, k - 1) + PEBBLE_HEADER + want
  }

  function Used(lo: nat, want: nat, k: nat): (ps: seq<Pebble>)
    requires want <= 16384
    ensures |ps| == k && forall i | 0 <= i < k :: ps[i].used
  {
    if k == 0 then [] else Used(lo, want, k - 1) + [Pebble(RowEnd(lo, want, k - 1), want, true)]
  }

  /** Those blocks, and the free rest of a bucket of seventeen pages. */
  function Row(lo: nat, want: nat, k: nat): seq<Pebble>
    requires k <= 3 && want <= 16384
  {
    Used(lo, want, k) + [Rest(lo, RowEnd(lo, want, k))]
  }

  function Rest(lo: nat, end: nat): Pebble
    requires lo <= end <= lo + 69508
  {
    Pebble(end, lo + 69508 - end, false)
  }

  /** The heap of kmalloc_init(0x1000) with `k` such blocks in it. */
  function RowHeap(start: nat, want: nat, k: nat): Heap
    requires k <= 3 && want <= 16384
  {
    Heap(start, start + 17 * PAGE_SIZE, [FreshBucket(start, 0x1000).With(Row(start + BUCKET_HEADER, want, k))])
  }

  lemma RowOfNone(start: nat, want: nat)
    requires 0 < start && want <= 16384
    ensures Initial(start, 0x1000) == RowHeap(start, want, 0)
  {
    var b := FreshBucket(start, 0x1000);
    assert PagesFor(0x1000) == 17;
    assert Used(start + BUCKET_HEADER, want, 0) == [];
    assert b.pebbles == Row(start + BUCKET_HEADER, want, 0);
  }

  lemma RoundedBelow(r: Rounding, n: nat)
    requires n <= 16384
    ensures Rounded(r, n) <= 16384
  {
  }

  lemma RowStep(lo: nat, want: nat, k: nat)
    requires k < 3 && want <= 16384
    ensures Used(lo, want, k) + Cut(Rest(lo, RowEnd(lo, want, k)), want) == Row(lo, want, k + 1)
  {
    var end := RowEnd(lo, want, k);
    assert Cut(Rest(lo, end), want) == [Pebble(end, want, true)] + [Rest(lo, RowEnd(lo, want, k + 1))];
  }

  lemma RowHeapStep(start: nat, want: nat, k: nat)
    requires k < 3 && want <= 16384
    ensures WithPebbles(RowHeap(start, want, k), 0, Row(start + BUCKET_HEADER, want, k + 1)) == RowHeap(start, want, k + 1)
  {
    var b, lo := FreshBucket(start, 0x1000), start + BUCKET_HEADER;
    var ps, qs := Row(lo, want, k), Row(lo, want, k + 1);
    WithTwice(b, ps, qs);
    assert [b.With(ps)][0 := b.With(qs)] == [b.With(qs)];
  }

  /** kmalloc(n) on such a heap makes the row one block longer. */
  lemma MallocInRow(start: nat, r: Rounding, n: nat, want: nat, k: nat)
    requires k < 3 && want == Rounded(r, Request(n)) <= 16384
    ensures Malloc(RowHeap(start, want, k), r, n, true) ==
            (RowHeap(start, want, k + 1), RowEnd(start + BUCKET_HEADER, want, k) + PEBBLE_HEADER)
  {
    var lo := start + BUCKET_HEADER;
    RowStep(lo, want, k);
    RowHeapStep(start, want, k);
    MallocLast(RowHeap(start, want, k), r, n, Used(lo, want, k), Rest(lo, RowEnd(lo, want, k)));
  }

  lemma WithTwice(b: Bucket, ps: seq<Pebble>, qs: seq<Pebble>)
    ensures b.With(ps).With(qs) == b.With(qs)
  {
  }

  /** The block at `a` claims the bytes of the block at `c`, and the headers describe no layout. */
  ghost predicate Broken(pm: PebbleMap, base: nat, a: nat, c: nat, hi: nat) {
    && a in pm && c in pm && pm[a].next == c && c < a + PEBBLE_HEADER + pm[a].size
    && !InOrder(pm, base, base + BUCKET_HEADER, hi)
  }

  /** With three blocks in use at the start of a bucket: after kfree of the first, and of the second twice, the
      first runs over the third. */
  lemma DoubleFreeInput(pm: PebbleMap, base: nat, ps: seq<Pebble>, hi: nat)
    requires Tiled(ps, base + BUCKET_HEADER, hi) && Coalesced(ps) && Chain(pm, base, ps)
    requires |ps| > 2 && ps[0].used && ps[1].used && ps[2].used
    ensures ps[0].addr in pm && ps[1].addr in pm
    ensures Broken(FreeStores(FreeStores(FreeStores(pm, ps[0].addr), ps[1].addr), ps[1].addr),
                   base, ps[0].addr, ps[2].addr, hi)
  {
    var lo, qs := base + BUCKET_HEADER, ps[0 := ps[0].(used := false)];
    FreeChain(pm, base, ps, 0, lo, hi);
    FreedKeeps(ps, lo, hi, 0);
    assert Freed(ps, 0) == qs;
    assert LinkedAt(pm, base, ps, 1) && LinkedAt(pm, base, ps, 2);
    StaleSecond(FreeStores(pm, ps[0].addr), base, qs, lo, hi);
    assert ps[0].End() == ps[1].addr && ps[1].End() == ps[2].addr;
  }

  lemma StaleSecond(pm: PebbleMap, base: nat, qs: seq<Pebble>, lo: nat, hi: nat)
    requires Tiled(qs, lo, hi) && Coalesced(qs) && 0 < lo && Chain(pm, base, qs)
    requires |qs| > 2 && !qs[0].used && qs[1].used && qs[2].used
    ensures qs[0].addr in pm && qs[1].addr in pm
    ensures var twice := FreeStores(FreeStores(pm, qs[1].addr), qs[1].addr);
            && twice[qs[0].addr].size == qs[0].size + 2 * (qs[1].size + PEBBLE_HEADER)
            && twice[qs[0].addr].next == qs[2].addr
            && !InOrder(twice, base, lo, hi)
  {
    assert LinkedAt(pm, base, qs, 0) && LinkedAt(pm, base, qs, 1) && LinkedAt(pm, base, qs, 2);
    StaleFree(pm, base, qs, 1, lo, hi);
    StaleLinks(pm, base, qs, 1, lo, hi);
    InRange(qs, lo, hi, 2);
    MeltedTwice(pm, qs[0].addr, qs[1].addr, NextAddr(qs, 1), NextAfter(qs, 1));
  }

  /** kfree(A) and kfree(B) are legal, a second kfree(B) is not. */
  lemma FreesInARow(h: Heap, a: nat, b: nat)
    requires HeapOk(h) && |h.buckets| == 1 && |h.buckets[0].pebbles| > 2 && h.buckets[0].pebbles[1].used
    requires a == h.buckets[0].pebbles[0].addr + PEBBLE_HEADER && b == h.buckets[0].pebbles[1].addr + PEBBLE_HEADER
    ensures InChain(h, a) && InChain(AfterFree(h, a), b) && !InChain(AfterFree(AfterFree(h, a), b), b)
  {
    assert PebbleAt(h, a, 0, 0);
    AfterFreeIs(h, a, 0, 0);
    FreeKeeps(h, 0, 0);
    FirstFreed(h);
    SecondFreed(FreeAt(h, 0, 0), b);
  }

  lemma SecondFreed(h: Heap, b: nat)
    requires HeapOk(h) && |h.buckets| == 1 && |h.buckets[0].pebbles| > 1 && !h.buckets[0].pebbles[0].used
    requires b == h.buckets[0].pebbles[1].addr + PEBBLE_HEADER
    ensures InChain(h, b) && !InChain(AfterFree(h, b), b)
  {
    assert PebbleAt(h, b, 0, 1);
    AfterFreeIs(h, b, 0, 1);
    MeltedAway(h, 0, 1);
  }

  /** The only bucket of the heap starts with three blocks in use, whose payloads are at `a`, `b` and `c`. */
  ghost predicate ThreeInUse(h: Heap, a: nat, b: nat, c: nat) {
    && |h.buckets| == 1 && h.buckets[0].pages == 17 && |h.buckets[0].pebbles| > 2
    && LiveAt(h, a, 0, 0) && LiveAt(h, b, 0, 1) && LiveAt(h, c, 0, 2)
  }

  lemma RowInUse(start: nat, want: nat)
    requires want <= 16384
    ensures var lo := start + BUCKET_HEADER;
            ThreeInUse(RowHeap(start, want, 3), RowEnd(lo, want, 0) + PEBBLE_HEADER,
                       RowEnd(lo, want, 1) + PEBBLE_HEADER, RowEnd(lo, want, 2) + PEBBLE_HEADER)
  {
    var lo := start + BUCKET_HEADER;
    assert PagesFor(0x1000) == 17;
    assert Used(lo, want, 1) == [Pebble(RowEnd(lo, want, 0), want, true)];
    assert Used(lo, want, 2) == Used(lo, want, 1) + [Pebble(RowEnd(lo, want, 1), want, true)];
    assert Used(lo, want, 3) == Used(lo, want, 2) + [Pebble(RowEnd(lo, want, 2), want, true)];
  }

  lemma RowBreaks(h: Heap, pm: PebbleMap, bm: BucketMap, a: nat, b: nat, c: nat)
    requires HeapOk(h) && ThreeInUse(h, a, b, c) && Represents(pm, bm, h.buckets)
    ensures PEBBLE_HEADER <= a && PEBBLE_HEADER <= b && PEBBLE_HEADER <= c && b - PEBBLE_HEADER in pm
    ensures InChain(h, a) && InChain(AfterFree(h, a), b) && !InChain(AfterFree(AfterFree(h, a), b), b)
    ensures Broken(KFreeStores(KFreeStores(KFreeStores(pm, a), b), b), h.start,
                   a - PEBBLE_HEADER, c - PEBBLE_HEADER, h.start + 17 * PAGE_SIZE)
  {
    FreesInARow(h, a, b);
    assert BucketOk(h.buckets[0]) && PebblesAt(pm, h.buckets, 0);
    DoubleFreeInput(pm, h.start, h.buckets[0].pebbles, h.buckets[0].Limit());
  }

  lemma FirstFreed(h: Heap)
    requires |h.buckets| == 1 && h.buckets[0].base == h.start && |h.buckets[0].pebbles| > 2
    requires h.buckets[0].pebbles[1].used
    ensures var ps := h.buckets[0].pebbles;
            FreeAt(h, 0, 0) == WithPebbles(h, 0, ps[0 := ps[0].(used := false)])
  {
  }
}
