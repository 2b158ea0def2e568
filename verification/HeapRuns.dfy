/** kmalloc with its closing memset, and what holds over whole runs of kmalloc and kfree. */
module HeapRuns {
  import opened Machine
  import opened Wrappers
  import opened PebbleLayout
  import opened HeapModel
  import opened HeapTheorems

  // ----- the closing memset -----

  /** The requests whose rounded size holds them. */
  predicate SafeSize(r: Rounding, n: nat) {
    r == Aligned || Request(n) % PAGE_SIZE == 0 || Request(n) % PAGE_SIZE >= PAGE_SIZE - 63
  }

  lemma SafeSizeHolds(r: Rounding, n: nat)
    ensures SafeSize(r, n) <==> Request(n) <= Rounded(r, Request(n))
  {
    RoundedHolds(Request(n));
  }

  predicate InClear(a: nat, ptr: nat, len: nat) {
    ptr <= a < ptr + len
  }

  ghost predicate ClearMissesBucket(b: Bucket, ptr: nat, len: nat) {
    !InClear(b.base, ptr, len) && forall p | p in b.pebbles :: !InClear(p.addr, ptr, len)
  }

  /** No header starts in the `len` bytes from `ptr` on. */
  ghost predicate ClearMisses(bs: seq<Bucket>, ptr: nat, len: nat) {
    forall i | 0 <= i < |bs| :: ClearMissesBucket(bs[i], ptr, len)
  }

  /** Clearing `len` bytes of a payload hits no header and stays in the bucket if and only if the
      payload has that many. */
  lemma ClearSafeIff(h: Heap, i: nat, k: nat, len: nat)
    requires HeapOk(h) && i < |h.buckets| && k < |h.buckets[i].pebbles|
    ensures var p := h.buckets[i].pebbles[k];
            var payload := p.addr + PEBBLE_HEADER;
            len <= p.size <==> ClearMisses(h.buckets, payload, len) && payload + len <= h.buckets[i].Limit()
  {
    var b := h.buckets[i];
    var p := b.pebbles[k];
    assert BucketOk(b);
    InRange(b.pebbles, b.Start(), b.Limit(), k);
    if len <= p.size {
      forall j | 0 <= j < |h.buckets|
        ensures ClearMissesBucket(h.buckets[j], p.addr + PEBBLE_HEADER, len)
      {
        ClearInsideMisses(h, i, k, len, j);
      }
    } else if k + 1 < |b.pebbles| {
      assert b.pebbles[k + 1] in b.pebbles && p.End() == b.pebbles[k + 1].addr;
      assert !ClearMissesBucket(b, p.addr + PEBBLE_HEADER, len);
    }
  }

  lemma ClearInsideMisses(h: Heap, i: nat, k: nat, len: nat, j: nat)
    requires HeapOk(h) && i < |h.buckets| && k < |h.buckets[i].pebbles| && j < |h.buckets|
    requires len <= h.buckets[i].pebbles[k].size
    ensures ClearMissesBucket(h.buckets[j], h.buckets[i].pebbles[k].addr + PEBBLE_HEADER, len)
  {
    forall l | 0 <= l < |h.buckets[j].pebbles|
      ensures !InClear(h.buckets[j].pebbles[l].addr, h.buckets[i].pebbles[k].addr + PEBBLE_HEADER, len)
    {
      if (i, k) != (j, l) {
        PebblesApart(h, i, k, j, l);
      }
    }
    HeaderApart(h, i, k, j);
  }

  /** For these sizes the block that kmalloc returns has room for the request, and the bytes
      that it clears hold no header, whatever the heap. */
  lemma SafeMallocClears(h: Heap, r: Rounding, n: nat, mapped: bool) returns (q: Pebble)
    requires HeapOk(h) && Malloc(h, r, n, mapped).1 != 0 && SafeSize(r, n)
    ensures var (h', ptr) := Malloc(h, r, n, mapped);
            && LiveIn(h'.buckets, q) && q.addr + PEBBLE_HEADER == ptr && Request(n) <= q.size
            && ClearMisses(h'.buckets, ptr, Request(n))
  {
    q := MallocLive(h, r, n, mapped);
    MallocKeeps(h, r, n, mapped);
    SafeSizeHolds(r, n);
    BlockClears(Malloc(h, r, n, mapped).0, q, Request(n));
  }

  lemma BlockClears(h: Heap, q: Pebble, len: nat)
    requires HeapOk(h) && LiveIn(h.buckets, q) && len <= q.size
    ensures ClearMisses(h.buckets, q.addr + PEBBLE_HEADER, len)
  {
    var i :| 0 <= i < |h.buckets| && IsLive(h.buckets[i].pebbles, q);
    var k :| 0 <= k < |h.buckets[i].pebbles| && h.buckets[i].pebbles[k] == q;
    ClearSafeIff(h, i, k, len);
  }

  lemma SafeClear(h: Heap, r: Rounding, n: nat, mapped: bool)
    requires HeapOk(h) && Malloc(h, r, n, mapped).1 != 0
    ensures SafeSize(r, n) ==> ClearMisses(Malloc(h, r, n, mapped).0.buckets, Malloc(h, r, n, mapped).1, Request(n))
  {
    if SafeSize(r, n) {
      var _ := SafeMallocClears(h, r, n, mapped);
    }
  }

  /** The first two pebbles of bucket `i` are the block for `ptr` and the one behind it, and the block is so short
      that clearing `len` bytes of it wipes the header behind it. */
  ghost predicate Overruns(h: Heap, i: nat, ptr: nat, len: nat) {
    && i < |h.buckets| && |h.buckets[i].pebbles| == 2 && ptr == h.buckets[i].pebbles[0].addr + PEBBLE_HEADER
    && h.buckets[i].pebbles[0].used && h.buckets[i].pebbles[0].size < len
    && InClear(h.buckets[i].pebbles[1].addr, ptr, len)
  }

  lemma OverrunsHits(h: Heap, i: nat, ptr: nat, len: nat)
    requires Overruns(h, i, ptr, len)
    ensures ptr != 0 && !ClearMisses(h.buckets, ptr, len)
  {
    assert h.buckets[i].pebbles[1] in h.buckets[i].pebbles;
    assert !ClearMissesBucket(h.buckets[i], ptr, len);
  }

  /** For every other size the first kmalloc on a new heap, whatever it was made for, returns a block that is too
      short, and clearing the request wipes the header of the pebble behind it. When the request does not
      fit the initial bucket that happens in the second. */
  lemma FirstMallocOverruns(start: nat, size: nat, n: nat)
    requires 0 < start && !SafeSize(AsWritten, n)
    ensures var (h, ptr) := Malloc(Initial(start, size), AsWritten, n, true);
            var fits := Rounded(AsWritten, Request(n)) <= Initial(start, size).buckets[0].pebbles[0].size;
            && Overruns(h, if fits then 0 else 1, ptr, Request(n))
            && ptr != 0 && !ClearMisses(h.buckets, ptr, Request(n))
  {
    var h0 := Initial(start, size);
    var b, want := h0.buckets[0], Rounded(AsWritten, Request(n));
    var (h, ptr) := Malloc(h0, AsWritten, n, true);
    if want <= b.pebbles[0].size {
      FreshOverruns(start, size, n);
      assert h.buckets == [Place(b, want).0];
      OverrunsHits(h, 0, ptr, Request(n));
    } else {
      NoFit(h0, want);
      OverrunArithmetic(Request(n), n);
      FreshOverruns(h0.end, Request(n), n);
      assert h.buckets[1] == Place(FreshBucket(h0.end, Request(n)), want).0;
      OverrunsHits(h, 1, ptr, Request(n));
    }
  }

  lemma NoFit(h: Heap, want: nat)
    requires |h.buckets| == 1 && h.buckets[0].WhollyFree() && h.buckets[0].pebbles[0].size < want
    ensures FindBucket(h.buckets, want, 0) == None
  {
    assert !HasFit(h.buckets[0].pebbles, want);
  }

  /** A new bucket that can hold the rounded request splits behind it. */
  lemma FreshOverruns(base: nat, size: nat, n: nat)
    requires !SafeSize(AsWritten, n) && Rounded(AsWritten, Request(n)) <= FreshBucket(base, size).pebbles[0].size
    ensures var b, want := FreshBucket(base, size), Rounded(AsWritten, Request(n));
            && HasFit(b.pebbles, want) && |Place(b, want).0.pebbles| == 2
            && Place(b, want).1 == Place(b, want).0.pebbles[0].addr + PEBBLE_HEADER
            && Place(b, want).0.pebbles[0].used && Place(b, want).0.pebbles[0].size < Request(n)
            && InClear(Place(b, want).0.pebbles[1].addr, Place(b, want).1, Request(n))
  {
    var b, want := FreshBucket(base, size), Rounded(AsWritten, Request(n));
    SafeSizeHolds(AsWritten, n);
    PagesGuard(PagesFor(size), (Request(n) + MIN_ALIGN - 1) / PAGE_SIZE);
    FirstPlaced(b, want);
  }

  /** Whole pages that fit a bucket of whole pages leave enough behind them for a split. */
  lemma PagesGuard(pages: nat, whole: nat)
    requires whole * PAGE_SIZE <= PAGE_SIZE * pages - BUCKET_HEADER - PEBBLE_HEADER
    ensures SplitGuard(PAGE_SIZE * pages - BUCKET_HEADER - PEBBLE_HEADER, whole * PAGE_SIZE)
  {
    WholePages(whole, pages);
    GuardOfPages(pages, whole * PAGE_SIZE);
  }

  lemma OverrunArithmetic(size: nat, n: nat)
    requires n <= size && !SafeSize(AsWritten, n)
    ensures var want := Rounded(AsWritten, Request(n));
            var have := PAGE_SIZE * PagesFor(size) - BUCKET_HEADER - PEBBLE_HEADER;
            want < Request(n) && want <= have && SplitGuard(have, want)
  {
    SafeSizeHolds(AsWritten, n);
    var want := Rounded(AsWritten, Request(n));
    var pages := PagesFor(size);
    assert want + PAGE_SIZE <= PAGE_SIZE * pages by {
      assert want < PAGE_SIZE * pages;
      WholePages(want / PAGE_SIZE, pages);
    }
    GuardOfPages(pages, want);
  }

  lemma WholePages(a: nat, b: nat)
    requires PAGE_SIZE * a < PAGE_SIZE * b
    ensures PAGE_SIZE * a + PAGE_SIZE <= PAGE_SIZE * b
  {
  }

  lemma GuardOfPages(pages: nat, want: nat)
    requires want + PAGE_SIZE <= PAGE_SIZE * pages
    ensures SplitGuard(PAGE_SIZE * pages - BUCKET_HEADER - PEBBLE_HEADER, want)
  {
    var x := PAGE_SIZE * pages - BUCKET_HEADER - PEBBLE_HEADER + MIN_ALIGN - 1;
    assert x == 64 * (64 * pages - 1) + 3;
    assert x / 64 == 64 * pages - 1;
  }

  lemma FirstPlaced(b: Bucket, want: nat)
    requires b.WhollyFree() && want % MIN_ALIGN == 0 && want <= b.pebbles[0].size && SplitGuard(b.pebbles[0].size, want)
    ensures HasFit(b.pebbles, want)
    ensures var p := b.pebbles[0];
            && Place(b, want).1 == p.addr + PEBBLE_HEADER && |Place(b, want).0.pebbles| == 2
            && Place(b, want).0.pebbles[0] == Pebble(p.addr, want, true)
            && Place(b, want).0.pebbles[1].addr == p.addr + PEBBLE_HEADER + want
  {
    var p := b.pebbles[0];
    assert Fits(b.pebbles[0], want) && HasFit(b.pebbles, want);
    assert Choose(b.pebbles, b.best, want) == Some(0);
    var mid := Pieces(p, want);
    assert Placed(b.pebbles, 0, want) == mid;
  }

  /** The clearing misses every header on every heap if and only if the size is one of these. */
  lemma MallocClearsIff(r: Rounding, n: nat)
    ensures SafeSize(r, n) <==>
            forall h, mapped | HeapOk(h) && Malloc(h, r, n, mapped).1 != 0 ::
              ClearMisses(Malloc(h, r, n, mapped).0.buckets, Malloc(h, r, n, mapped).1, Request(n))
  {
    if SafeSize(r, n) {
      forall h, mapped | HeapOk(h) && Malloc(h, r, n, mapped).1 != 0
        ensures ClearMisses(Malloc(h, r, n, mapped).0.buckets, Malloc(h, r, n, mapped).1, Request(n))
      {
        SafeClear(h, r, n, mapped);
      }
    } else {
      FirstMallocOverruns(1, 0x1000, n);
      assert HeapOk(Initial(1, 0x1000)) && Malloc(Initial(1, 0x1000), r, n, true).1 != 0;
    }
  }

  /** The first kmalloc(100) on the heap that kmalloc_init makes gets a block of no bytes: its address is that
      of the next header. */
  lemma FirstMallocAsWritten(start: nat)
    requires 0 < start
    ensures var (h, ptr) := Malloc(Initial(start, 0x1000), AsWritten, 100, true);
            && |h.buckets[0].pebbles| == 2
            && h.buckets[0].pebbles[0].size == 0
            && ptr == h.buckets[0].pebbles[1].addr
  {
    var b := Initial(start, 0x1000).buckets[0];
    assert Rounded(AsWritten, Request(100)) == 0;
    OverrunArithmetic(0x1000, 100);
    FirstPlaced(b, 0);
  }

  // ----- runs -----

  /** The heap, and the addresses at which memory shows the magic number of a pebble header. A merge
      does not clear it, so these may be more than the headers in the chains. */
  datatype HeapState = HeapState(heap: Heap, magic: set<nat>)

  ghost function Headers(bs: seq<Bucket>): set<nat> {
    set i, a | 0 <= i < |bs| && a in Addrs(bs[i].pebbles) :: a
  }

  ghost predicate StateOk(s: HeapState) {
    HeapOk(s.heap) && Headers(s.heap.buckets) <= s.magic
  }

  datatype Call = KMalloc(n: nat, mapped: bool) | KFree(ptr: nat)

  /** kmalloc writes the headers of the new chains and clears the block it returns. */
  ghost function AfterMalloc(s: HeapState, r: Rounding, n: nat, mapped: bool): HeapState
    requires HeapOk(s.heap)
  {
    var (h, ptr) := Malloc(s.heap, r, n, mapped);
    var magic := s.magic + Headers(h.buckets);
    HeapState(h, if ptr == 0 then magic else set a | a in magic && !InClear(a, ptr, Request(n)))
  }

  /** The header in front of `ptr` belongs to a chain. */
  ghost predicate InChain(h: Heap, ptr: nat) {
    exists i: nat, k: nat :: PebbleAt(h, ptr, i, k)
  }

  /** kfree of a pointer without a magic number in front of it changes nothing. */
  ghost function AfterFree(h: Heap, ptr: nat): Heap {
    if InChain(h, ptr) then
      var i: nat, k: nat :| PebbleAt(h, ptr, i, k);
      FreeAt(h, i, k)
    else h
  }

  /** kfree may be given NULL, an address with no header in front of it, or a pebble that is still in its
      chain, in use or not: everything but a header that was merged or unmapped away. */
  ghost predicate LegalFree(s: HeapState, ptr: nat) {
    || ptr < PEBBLE_HEADER || ptr - PEBBLE_HEADER !in s.magic
    || InChain(s.heap, ptr)
  }

  ghost predicate Legal(s: HeapState, r: Rounding, c: Call) {
    match c
    case KMalloc(n, _) => SafeSize(r, n)
    case KFree(ptr) => LegalFree(s, ptr)
  }

  /** One call; what an illegal one does is not defined here. */
  ghost function Step(s: HeapState, r: Rounding, c: Call): HeapState
    requires HeapOk(s.heap) && Legal(s, r, c)
  {
    match c
    case KMalloc(n, mapped) => AfterMalloc(s, r, n, mapped)
    case KFree(ptr) => s.(heap := AfterFree(s.heap, ptr))
  }

  lemma StepHeapOk(s: HeapState, r: Rounding, c: Call)
    requires HeapOk(s.heap) && Legal(s, r, c)
    ensures HeapOk(Step(s, r, c).heap)
  {
    match c {
      case KMalloc(n, mapped) => MallocKeeps(s.heap, r, n, mapped);
      case KFree(ptr) =>
        forall i: nat, k: nat | PebbleAt(s.heap, ptr, i, k)
          ensures HeapOk(FreeAt(s.heap, i, k))
        {
          FreeKeeps(s.heap, i, k);
        }
    }
  }

  ghost predicate LegalRun(s: HeapState, r: Rounding, calls: seq<Call>)
    requires HeapOk(s.heap)
    decreases calls
  {
    || calls == []
    || (Legal(s, r, calls[0]) && (StepHeapOk(s, r, calls[0]); LegalRun(Step(s, r, calls[0]), r, calls[1..])))
  }

  lemma StepKeeps(s: HeapState, r: Rounding, c: Call)
    requires StateOk(s) && Legal(s, r, c)
    ensures StateOk(Step(s, r, c))
  {
    StepHeapOk(s, r, c);
    match c {
      case KMalloc(n, mapped) => MallocHeaders(s, r, n, mapped);
      case KFree(ptr) =>
        forall i: nat, k: nat | PebbleAt(s.heap, ptr, i, k)
          ensures Headers(FreeAt(s.heap, i, k).buckets) <= Headers(s.heap.buckets)
        {
          FreeHeaders(s.heap, i, k);
        }
    }
  }

  lemma MallocHeaders(s: HeapState, r: Rounding, n: nat, mapped: bool)
    requires HeapOk(s.heap) && SafeSize(r, n)
    ensures Headers(AfterMalloc(s, r, n, mapped).heap.buckets) <= AfterMalloc(s, r, n, mapped).magic
  {
    var (h, ptr) := Malloc(s.heap, r, n, mapped);
    if ptr != 0 {
      var _ := SafeMallocClears(s.heap, r, n, mapped);
      ClearKeepsHeaders(h.buckets, ptr, Request(n));
    }
  }

  lemma ClearKeepsHeaders(bs: seq<Bucket>, ptr: nat, len: nat)
    requires ClearMisses(bs, ptr, len)
    ensures forall a | a in Headers(bs) :: !InClear(a, ptr, len)
  {
    forall a | a in Headers(bs)
      ensures !InClear(a, ptr, len)
    {
      var i :| 0 <= i < |bs| && a in Addrs(bs[i].pebbles);
      assert ClearMissesBucket(bs[i], ptr, len);
    }
  }

  lemma FreeHeaders(h: Heap, i: nat, k: nat)
    requires i < |h.buckets| && k < |h.buckets[i].pebbles|
    ensures Headers(FreeAt(h, i, k).buckets) <= Headers(h.buckets)
  {
    var bs, cs := h.buckets, FreeAt(h, i, k).buckets;
    FreedAddrs(bs[i].pebbles, k);
    forall j | 0 <= j < |cs|
      ensures Addrs(cs[j].pebbles) <= Headers(bs)
    {
      var l := if j >= i && |cs| < |bs| then j + 1 else j;
      assert Addrs(cs[j].pebbles) <= Addrs(bs[l].pebbles);
    }
  }

  /** After any legal sequence of calls the heap is in order and all its headers are intact. */
  ghost function Run(s: HeapState, r: Rounding, calls: seq<Call>): (s': HeapState)
    requires StateOk(s) && LegalRun(s, r, calls)
    ensures StateOk(s')
    decreases calls
  {
    if calls == [] then s
    else
      StepKeeps(s, r, calls[0]);
      Run(Step(s, r, calls[0]), r, calls[1..])
  }

  /** A second kfree of the same pointer is legal again if and only if the first one neither melted the pebble into
      its left neighbour nor gave its bucket back. */
  lemma SecondFreeLegalIff(s: HeapState, i: nat, k: nat)
    requires StateOk(s) && i < |s.heap.buckets| && k < |s.heap.buckets[i].pebbles|
    ensures var b := s.heap.buckets[i];
            LegalFree(s.(heap := FreeAt(s.heap, i, k)), b.pebbles[k].addr + PEBBLE_HEADER) <==>
            && (k == 0 || b.pebbles[k - 1].used)
            && !(i > 0 && b.With(Freed(b.pebbles, k)).WhollyFree())
  {
    var h := s.heap;
    var b, x := h.buckets[i], h.buckets[i].pebbles[k].addr;
    assert b.pebbles[k] in b.pebbles && x in Addrs(b.pebbles) && x in Headers(h.buckets);
    if i > 0 { BasesDiffer(h, i); }
    var h' := FreeAt(h, i, k);
    if i > 0 && b.With(Freed(b.pebbles, k)).WhollyFree() {
      GivenBack(h, i, k);
    } else if k == 0 || b.pebbles[k - 1].used {
      FreedStays(b.pebbles, k);
      assert PebbleAt(h', x + PEBBLE_HEADER, i, k);
    } else {
      MeltedAway(h, i, k);
    }
  }

  lemma GivenBack(h: Heap, i: nat, k: nat)
    requires HeapOk(h) && i < |h.buckets| && k < |h.buckets[i].pebbles|
    ensures !InChain(h.(buckets := h.buckets[..i] + h.buckets[i + 1..]), h.buckets[i].pebbles[k].addr + PEBBLE_HEADER)
  {
    var h', ptr := h.(buckets := h.buckets[..i] + h.buckets[i + 1..]), h.buckets[i].pebbles[k].addr + PEBBLE_HEADER;
    forall j: nat, l: nat | j < |h'.buckets| && l < |h'.buckets[j].pebbles|
      ensures !PebbleAt(h', ptr, j, l)
    {
      assert h'.buckets[j] == h.buckets[if j < i then j else j + 1];
      PebblesApart(h, i, k, if j < i then j else j + 1, l);
    }
  }

  lemma MeltedAway(h: Heap, i: nat, k: nat)
    requires HeapOk(h) && i < |h.buckets| && 0 < k < |h.buckets[i].pebbles| && !h.buckets[i].pebbles[k - 1].used
    requires !(i > 0 && h.buckets[i].With(Freed(h.buckets[i].pebbles, k)).WhollyFree())
    ensures !InChain(FreeAt(h, i, k), h.buckets[i].pebbles[k].addr + PEBBLE_HEADER)
  {
    var b := h.buckets[i];
    assert BucketOk(b);
    FreedDrops(b.pebbles, b.Start(), b.Limit(), k);
    ReplacedAway(h, i, k, b.With(Freed(b.pebbles, k)));
  }

  lemma ReplacedAway(h: Heap, i: nat, k: nat, b: Bucket)
    requires HeapOk(h) && i < |h.buckets| && k < |h.buckets[i].pebbles|
    requires h.buckets[i].pebbles[k].addr !in Addrs(b.pebbles)
    ensures !InChain(h.(buckets := h.buckets[i := b]), h.buckets[i].pebbles[k].addr + PEBBLE_HEADER)
  {
    var h', ptr := h.(buckets := h.buckets[i := b]), h.buckets[i].pebbles[k].addr + PEBBLE_HEADER;
    forall j: nat, l: nat | j < |h'.buckets| && l < |h'.buckets[j].pebbles|
      ensures !PebbleAt(h', ptr, j, l)
    {
      if j == i {
        assert b.pebbles[l] in b.pebbles;
      } else {
        assert h'.buckets[j] == h.buckets[j];
        PebblesApart(h, i, k, j, l);
      }
    }
  }

  // ----- header stores and payloads -----

  /** A header of `size` bytes at `a` lies outside the payload of every block in use. */
  ghost predicate SparesPayloads(a: nat, size: nat, bs: seq<Bucket>) {
    forall p | LiveIn(bs, p) :: a + size <= p.addr + PEBBLE_HEADER || p.End() <= a
  }

  lemma HeaderSpares(h: Heap, a: nat)
    requires HeapOk(h) && a in Headers(h.buckets)
    ensures SparesPayloads(a, PEBBLE_HEADER, h.buckets)
  {
    var i :| 0 <= i < |h.buckets| && a in Addrs(h.buckets[i].pebbles);
    var k :| 0 <= k < |h.buckets[i].pebbles| && h.buckets[i].pebbles[k].addr == a;
    forall p | LiveIn(h.buckets, p)
      ensures a + PEBBLE_HEADER <= p.addr + PEBBLE_HEADER || p.End() <= a
    {
      var j, l := LiveSomewhere(h.buckets, p);
      if (i, k) != (j, l) {
        PebblesApart(h, i, k, j, l);
      }
    }
  }

  lemma BucketSpares(h: Heap, i: nat)
    requires HeapOk(h) && i < |h.buckets|
    ensures SparesPayloads(h.buckets[i].base, BUCKET_HEADER, h.buckets)
  {
    forall p | LiveIn(h.buckets, p)
      ensures h.buckets[i].base + BUCKET_HEADER <= p.addr + PEBBLE_HEADER || p.End() <= h.buckets[i].base
    {
      var j, l := LiveSomewhere(h.buckets, p);
      HeaderApart(h, j, l, i);
    }
  }

  /** A block in use stays in use, at its address and with its size, until it is freed. */
  lemma {:induction false} RunKeepsLive(s: HeapState, r: Rounding, calls: seq<Call>, p: Pebble)
    requires StateOk(s) && LegalRun(s, r, calls) && LiveIn(s.heap.buckets, p)
    requires KFree(p.addr + PEBBLE_HEADER) !in calls
    ensures LiveIn(Run(s, r, calls).heap.buckets, p)
    decreases calls
  {
    if calls != [] {
      StepKeeps(s, r, calls[0]);
      StepKeepsLive(s, r, calls[0], p);
      RunKeepsLive(Step(s, r, calls[0]), r, calls[1..], p);
    }
  }

  lemma StepKeepsLive(s: HeapState, r: Rounding, c: Call, p: Pebble)
    requires StateOk(s) && Legal(s, r, c) && LiveIn(s.heap.buckets, p) && c != KFree(p.addr + PEBBLE_HEADER)
    ensures LiveIn(Step(s, r, c).heap.buckets, p)
  {
    match c {
      case KMalloc(n, mapped) => MallocKeepsLive(s.heap, r, n, mapped, p);
      case KFree(ptr) =>
        forall i: nat, k: nat | PebbleAt(s.heap, ptr, i, k)
          ensures LiveIn(FreeAt(s.heap, i, k).buckets, p)
        {
          FreeKeepsLive(s.heap, i, k, p);
        }
    }
  }

  lemma MallocKeepsLive(h: Heap, r: Rounding, n: nat, mapped: bool, p: Pebble)
    requires HeapOk(h) && LiveIn(h.buckets, p)
    ensures LiveIn(Malloc(h, r, n, mapped).0.buckets, p)
  {
    if Malloc(h, r, n, mapped).1 != 0 {
      var _ := MallocLive(h, r, n, mapped);
    } else if mapped {
      InsertedLive(h.buckets, Place(FreshBucket(h.end, Request(n)), Rounded(r, Request(n))).0, p);
    }
  }

  lemma FreeKeepsLive(h: Heap, i: nat, k: nat, p: Pebble)
    requires HeapOk(h) && i < |h.buckets| && k < |h.buckets[i].pebbles|
    requires LiveIn(h.buckets, p) && p.addr != h.buckets[i].pebbles[k].addr
    ensures LiveIn(FreeAt(h, i, k).buckets, p)
  {
    if h.buckets[i].pebbles[k].used {
      FreeLive(h, i, k, p);
    } else {
      FreeOfFree(h, i, k);
      if h.buckets[i].WhollyFree() {
        LiveInSplit(h.buckets, i, p);
        assert !IsLive(h.buckets[i].pebbles, p);
        LiveInBoth(h.buckets[..i], h.buckets[i + 1..], p);
      }
    }
  }
}
