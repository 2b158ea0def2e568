/** The kernel heap as a list of buckets: what kmalloc and kfree do to the layout. */
module HeapModel {
  import opened Machine
  import opened Wrappers
  import opened PebbleLayout

  const MIN_INITIAL_ALLOC: nat := 65536 + BUCKET_HEADER + PEBBLE_HEADER

  // ----- requests -----

  /** bucketalloc.c:235 masks the padded size with the page size; line 156 shows that the
      64-byte unit is meant. The layout theorems hold for both. */
  datatype Rounding = AsWritten | Aligned

  function Request(n: nat): nat {
    Max(n, MIN_ALIGN)
  }

  lemma WholeUnits(q: nat)
    ensures q * MIN_ALIGN % MIN_ALIGN == 0 && q * PAGE_SIZE % MIN_ALIGN == 0
  {
    assert q * PAGE_SIZE == PAGE_SIZE / MIN_ALIGN * q * MIN_ALIGN;
  }

  function Rounded(r: Rounding, n: nat): (want: nat)
    ensures want % MIN_ALIGN == 0
  {
    WholeUnits((n + MIN_ALIGN - 1) / PAGE_SIZE);
    WholeUnits((n + MIN_ALIGN - 1) / MIN_ALIGN);
    match r
    case AsWritten => (n + MIN_ALIGN - 1) / PAGE_SIZE * PAGE_SIZE
    case Aligned => RoundUp(n)
  }

  /** The intended rounding always holds the request, the written one only for sizes that end
      in the last 63 bytes of a page or fill it. */
  lemma RoundedHolds(n: nat)
    ensures n <= Rounded(Aligned, n) < n + MIN_ALIGN
    ensures n <= Rounded(AsWritten, n) <==> n % PAGE_SIZE == 0 || n % PAGE_SIZE >= PAGE_SIZE - 63
    ensures Rounded(AsWritten, 100) == 0
  {
    RoundUpHolds(n);
    PageMaskHolds(n);
  }

  lemma RoundUpHolds(n: nat)
    ensures n <= RoundUp(n) < n + MIN_ALIGN
  {
  }

  lemma PageMaskHolds(n: nat)
    ensures n <= (n + MIN_ALIGN - 1) / PAGE_SIZE * PAGE_SIZE <==> n % PAGE_SIZE == 0 || n % PAGE_SIZE >= PAGE_SIZE - 63
  {
    var q, rest := n / PAGE_SIZE, n % PAGE_SIZE;
    assert n == q * PAGE_SIZE + rest;
    assert (n + MIN_ALIGN - 1) / PAGE_SIZE == if rest + 63 >= PAGE_SIZE then q + 1 else q;
  }

  // ----- buckets -----

  datatype Bucket = Bucket(base: nat, pages: nat, largest: nat, best: bool, pebbles: seq<Pebble>) {
    function Start(): nat {
      base + BUCKET_HEADER
    }

    function Limit(): nat {
      base + PAGE_SIZE * pages
    }

    /** The bucket with new pebbles and its cache brought up to date. */
    function With(ps: seq<Pebble>): Bucket {
      this.(pebbles := ps, largest := LargestSize(ps))
    }

    predicate WhollyFree() {
      |pebbles| == 1 && !pebbles[0].used
    }
  }

  ghost predicate BucketOk(b: Bucket) {
    && Tiled(b.pebbles, b.Start(), b.Limit())
    && Coalesced(b.pebbles)
    && b.largest == LargestSize(b.pebbles)
  }

  function PagesFor(n: nat): nat {
    (Max(n, MIN_INITIAL_ALLOC) + PAGE_SIZE - 1) / PAGE_SIZE
  }

  /** create_bucket. */
  function FreshBucket(base: nat, n: nat): (b: Bucket)
    ensures BucketOk(b) && b.WhollyFree() && b.base == base
  {
    var pages := PagesFor(n);
    var size := PAGE_SIZE * pages - BUCKET_HEADER - PEBBLE_HEADER;
    var ps := [Pebble(base + BUCKET_HEADER, size, false)];
    assert ps[..0] == [] && LargestSize(ps) == size;
    Bucket(base, pages, size, false, ps)
  }

  /** The kernel heap: its buckets in list order, and how far the region has grown. */
  datatype Heap = Heap(start: nat, end: nat, buckets: seq<Bucket>)

  /** The initial bucket comes first and the buckets lie apart inside the region. */
  ghost predicate HeapOk(h: Heap) {
    && 0 < h.start
    && |h.buckets| > 0 && h.buckets[0].base == h.start
    && InRegion(h.buckets, h.start, h.end) && AllApart(h.buckets)
  }

  ghost predicate InRegion(bs: seq<Bucket>, start: nat, end: nat) {
    forall i {:trigger BucketOk(bs[i])} | 0 <= i < |bs| ::
      BucketOk(bs[i]) && start <= bs[i].base && bs[i].Limit() <= end
  }

  ghost predicate AllApart(bs: seq<Bucket>) {
    forall i, j {:trigger Apart(bs[i], bs[j])} | 0 <= i < j < |bs| :: Apart(bs[i], bs[j])
  }

  ghost predicate Apart(a: Bucket, b: Bucket) {
    a.Limit() <= b.base || b.Limit() <= a.base
  }

  /** kmalloc_init on a heap that has not grown yet. */
  function Initial(start: nat, n: nat): (h: Heap)
    requires 0 < start
    ensures HeapOk(h)
  {
    Heap(start, start + PAGE_SIZE * PagesFor(n), [FreshBucket(start, n)])
  }

  // ----- kmalloc -----

  /** The first bucket from `i` on with a pebble that fits: no cache involved. */
  function FindBucket(bs: seq<Bucket>, want: nat, i: nat): (r: Option<nat>)
    requires i <= |bs|
    ensures r.Some? ==> i <= r.value < |bs| && HasFit(bs[r.value].pebbles, want)
    ensures forall j | i <= j < (if r.Some? then r.value else |bs|) :: !HasFit(bs[j].pebbles, want)
    decreases |bs| - i
  {
    if i == |bs| then None
    else if HasFit(bs[i].pebbles, want) then Some(i)
    else FindBucket(bs, want, i + 1)
  }

  /** The bucket after the chosen pebble took the request, and the payload address. */
  function Place(b: Bucket, want: nat): (Bucket, nat)
    requires want % MIN_ALIGN == 0
  {
    match Choose(b.pebbles, b.best, want)
    case None => (b, 0)
    case Some(k) => (b.With(Placed(b.pebbles, k, want)), b.pebbles[k].addr + PEBBLE_HEADER)
  }

  /** UPDATE_NODE puts a new bucket right behind the initial one. */
  function Insert(bs: seq<Bucket>, b: Bucket): seq<Bucket>
    requires |bs| > 0
  {
    bs[..1] + [b] + bs[1..]
  }

  /** The heap with a new bucket at its end. */
  function WithBucket(h: Heap, b: Bucket): Heap
    requires |h.buckets| > 0
  {
    h.(buckets := Insert(h.buckets, b), end := h.end + PAGE_SIZE * b.pages)
  }

  /** The request is served from bucket `i`. */
  function MallocFrom(h: Heap, want: nat, i: nat): (Heap, nat)
    requires i < |h.buckets| && want % MIN_ALIGN == 0
  {
    var (b, ptr) := Place(h.buckets[i], want);
    (h.(buckets := h.buckets[i := b]), ptr)
  }

  /** The request is served from a new bucket; `mapped` tells whether mmap could provide a region. */
  function MallocFresh(h: Heap, want: nat, size: nat, mapped: bool): (Heap, nat)
    requires |h.buckets| > 0 && want % MIN_ALIGN == 0
  {
    if !mapped then (h, 0)
    else
      var (b, ptr) := Place(FreshBucket(h.end, size), want);
      (WithBucket(h, b), ptr)
  }

  /** kmalloc. */
  function Malloc(h: Heap, r: Rounding, n: nat, mapped: bool): (Heap, nat)
    requires |h.buckets| > 0
  {
    var want := Rounded(r, Request(n));
    match FindBucket(h.buckets, want, 0)
    case Some(i) => MallocFrom(h, want, i)
    case None => MallocFresh(h, want, Request(n), mapped)
  }

  // ----- kfree -----

  /** The payload of pebble `k` of bucket `i` starts at `ptr`. */
  ghost predicate PebbleAt(h: Heap, ptr: nat, i: nat, k: nat) {
    i < |h.buckets| && k < |h.buckets[i].pebbles| && h.buckets[i].pebbles[k].addr + PEBBLE_HEADER == ptr
  }

  /** That pebble is in use. */
  ghost predicate LiveAt(h: Heap, ptr: nat, i: nat, k: nat) {
    PebbleAt(h, ptr, i, k) && h.buckets[i].pebbles[k].used
  }

  /** kfree of pebble `k` of bucket `i`: a bucket that became wholly free is given back,
      except for the initial one. */
  function FreeAt(h: Heap, i: nat, k: nat): Heap
    requires i < |h.buckets| && k < |h.buckets[i].pebbles|
  {
    var b := h.buckets[i].With(Freed(h.buckets[i].pebbles, k));
    if b.WhollyFree() && b.base != h.start then h.(buckets := h.buckets[..i] + h.buckets[i + 1..])
    else h.(buckets := h.buckets[i := b])
  }

  // ----- what both keep -----

  lemma PlaceKeeps(b: Bucket, want: nat)
    requires BucketOk(b) && want % MIN_ALIGN == 0
    ensures var (b', ptr) := Place(b, want);
            && BucketOk(b') && b'.base == b.base && b'.pages == b.pages
            && (ptr == 0 <==> !HasFit(b.pebbles, want))
  {
    var c := Choose(b.pebbles, b.best, want);
    if c.Some? {
      PlacedKeeps(b.pebbles, b.Start(), b.Limit(), c.value, want);
      WithOk(b, Placed(b.pebbles, c.value, want));
    }
  }

  lemma WithOk(b: Bucket, ps: seq<Pebble>)
    requires Tiled(ps, b.Start(), b.Limit()) && Coalesced(ps)
    ensures BucketOk(b.With(ps))
  {
  }

  lemma {:induction false} MallocKeeps(h: Heap, r: Rounding, n: nat, mapped: bool)
    requires HeapOk(h)
    ensures HeapOk(Malloc(h, r, n, mapped).0)
  {
    var want := Rounded(r, Request(n));
    match FindBucket(h.buckets, want, 0) {
      case Some(i) =>
        PlaceKeeps(h.buckets[i], want);
        ReplaceKeeps(h, i, Place(h.buckets[i], want).0);
      case None =>
        if mapped {
          var created := FreshBucket(h.end, Request(n));
          PlaceKeeps(created, want);
          InsertKeeps(h, Place(created, want).0);
        }
    }
  }

  lemma ReplaceKeeps(h: Heap, i: nat, b: Bucket)
    requires HeapOk(h) && i < |h.buckets| && BucketOk(b)
    requires b.base == h.buckets[i].base && b.pages == h.buckets[i].pages
    ensures HeapOk(h.(buckets := h.buckets[i := b]))
  {
    var bs, cs := h.buckets, h.buckets[i := b];
    assert BucketOk(bs[i]);
    forall j, l | 0 <= j < l < |cs|
      ensures Apart(cs[j], cs[l])
    {
      assert Apart(bs[j], bs[l]);
    }
    forall j | 0 <= j < |cs|
      ensures BucketOk(cs[j]) && h.start <= cs[j].base && cs[j].Limit() <= h.end
    {
      assert BucketOk(bs[j]);
    }
    assert InRegion(cs, h.start, h.end) && AllApart(cs);
  }

  lemma InsertKeeps(h: Heap, b: Bucket)
    requires HeapOk(h) && BucketOk(b) && b.base == h.end
    ensures HeapOk(WithBucket(h, b))
  {
    var bs := Insert(h.buckets, b);
    assert bs[0] == h.buckets[0] && bs[1] == b;
    forall i, j | 0 <= i < j < |bs|
      ensures Apart(bs[i], bs[j])
    {
      InsertedApart(h, b, i, j);
    }
    forall i | 0 <= i < |bs|
      ensures BucketOk(bs[i]) && h.start <= bs[i].base && bs[i].Limit() <= h.end + PAGE_SIZE * b.pages
    {
      assert BucketOk(h.buckets[0]);
      if i >= 2 { assert bs[i] == h.buckets[i - 1] && BucketOk(h.buckets[i - 1]); }
    }
    assert InRegion(bs, h.start, h.end + PAGE_SIZE * b.pages) && AllApart(bs);
  }

  lemma InsertedApart(h: Heap, b: Bucket, i: nat, j: nat)
    requires HeapOk(h) && b.base == h.end && i < j <= |h.buckets|
    ensures Apart(Insert(h.buckets, b)[i], Insert(h.buckets, b)[j])
  {
    var bs := Insert(h.buckets, b);
    assert bs[0] == h.buckets[0] && bs[1] == b && (j >= 2 ==> bs[j] == h.buckets[j - 1]);
    assert BucketOk(h.buckets[0]);
    assert j >= 2 ==> BucketOk(h.buckets[j - 1]) && (i == 0 ==> Apart(h.buckets[0], h.buckets[j - 1]));
    if i >= 2 { assert bs[i] == h.buckets[i - 1] && Apart(h.buckets[i - 1], h.buckets[j - 1]); }
  }

  lemma RemoveKeeps(h: Heap, i: nat)
    requires HeapOk(h) && 0 < i < |h.buckets|
    ensures HeapOk(h.(buckets := h.buckets[..i] + h.buckets[i + 1..]))
  {
    var bs := h.buckets[..i] + h.buckets[i + 1..];
    assert bs[0] == h.buckets[0];
    forall j, l | 0 <= j < l < |bs|
      ensures Apart(bs[j], bs[l])
    {
      assert Apart(h.buckets[if j < i then j else j + 1], h.buckets[if l < i then l else l + 1]);
    }
    forall j | 0 <= j < |bs|
      ensures BucketOk(bs[j]) && h.start <= bs[j].base && bs[j].Limit() <= h.end
    {
      assert BucketOk(h.buckets[if j < i then j else j + 1]);
    }
    assert InRegion(bs, h.start, h.end) && AllApart(bs);
  }

  lemma FreeKeeps(h: Heap, i: nat, k: nat)
    requires HeapOk(h) && i < |h.buckets| && k < |h.buckets[i].pebbles|
    ensures HeapOk(FreeAt(h, i, k))
  {
    var b := h.buckets[i];
    assert BucketOk(b);
    FreedKeeps(b.pebbles, b.Start(), b.Limit(), k);
    ReplaceKeeps(h, i, b.With(Freed(b.pebbles, k)));
    if i > 0 {
      RemoveKeeps(h, i);
    }
  }
}
