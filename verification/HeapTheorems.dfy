/** What holds of the kernel heap in every state that kmalloc and kfree can reach. */
module HeapTheorems {
  import opened Machine
  import opened Wrappers
  import opened PebbleLayout
  import opened HeapModel

  // ----- disjoint memory -----

  /** Two pebbles anywhere in the heap share no byte, and none touches a bucket header. */
  lemma PebblesApart(h: Heap, i: nat, k: nat, j: nat, l: nat)
    requires HeapOk(h) && i < |h.buckets| && j < |h.buckets|
    requires k < |h.buckets[i].pebbles| && l < |h.buckets[j].pebbles| && (i, k) != (j, l)
    ensures var p, q := h.buckets[i].pebbles[k], h.buckets[j].pebbles[l];
            p.End() <= q.addr || q.End() <= p.addr
    ensures var p, b := h.buckets[i].pebbles[k], h.buckets[j];
            p.End() <= b.base || b.Start() <= p.addr
  {
    var a, b := h.buckets[i], h.buckets[j];
    assert BucketOk(a) && BucketOk(b);
    InRange(a.pebbles, a.Start(), a.Limit(), k);
    InRange(b.pebbles, b.Start(), b.Limit(), l);
    HeaderApart(h, i, k, j);
    if i == j {
      if k < l {
        Ordered(a.pebbles, a.Start(), a.Limit(), k, l);
      } else {
        Ordered(a.pebbles, a.Start(), a.Limit(), l, k);
      }
    } else if i < j {
      assert Apart(a, b);
    } else {
      assert Apart(b, a);
    }
  }

  lemma HeaderApart(h: Heap, i: nat, k: nat, j: nat)
    requires HeapOk(h) && i < |h.buckets| && k < |h.buckets[i].pebbles| && j < |h.buckets|
    ensures var p, b := h.buckets[i].pebbles[k], h.buckets[j];
            p.End() <= b.base || b.Start() <= p.addr
  {
    var a, b := h.buckets[i], h.buckets[j];
    assert BucketOk(a) && BucketOk(b);
    InRange(a.pebbles, a.Start(), a.Limit(), k);
    InRange(b.pebbles, b.Start(), b.Limit(), 0);
    assert i < j ==> Apart(a, b);
    assert j < i ==> Apart(b, a);
  }

  /** A bucket is filled to the last byte: header, pebble headers and payloads. */
  lemma BucketFilled(b: Bucket)
    requires BucketOk(b)
    ensures BUCKET_HEADER + Footprint(b.pebbles) == PAGE_SIZE * b.pages
  {
    FootprintIsRange(b.pebbles, b.Start(), b.Limit());
  }

  /** A bucket with nothing in use is one pebble of everything behind the two headers. */
  lemma EmptyBucket(b: Bucket)
    requires BucketOk(b) && forall k | 0 <= k < |b.pebbles| :: !b.pebbles[k].used
    ensures b.WhollyFree() && b.pebbles[0].addr == b.Start()
            && b.pebbles[0].size == PAGE_SIZE * b.pages - BUCKET_HEADER - PEBBLE_HEADER
  {
    AllFreeIsOne(b.pebbles, b.Start(), b.Limit());
  }

  // ----- live blocks -----

  ghost predicate LiveIn(bs: seq<Bucket>, p: Pebble) {
    exists i :: 0 <= i < |bs| && IsLive(bs[i].pebbles, p)
  }

  lemma LiveSomewhere(bs: seq<Bucket>, p: Pebble) returns (i: nat, k: nat)
    requires LiveIn(bs, p)
    ensures i < |bs| && k < |bs[i].pebbles| && bs[i].pebbles[k] == p && p.used
  {
    var j :| 0 <= j < |bs| && IsLive(bs[j].pebbles, p);
    var l :| 0 <= l < |bs[j].pebbles| && bs[j].pebbles[l] == p;
    i, k := j, l;
  }

  lemma LiveInBoth(a: seq<Bucket>, b: seq<Bucket>, p: Pebble)
    ensures LiveIn(a + b, p) <==> LiveIn(a, p) || LiveIn(b, p)
  {
    var c := a + b;
    if LiveIn(a, p) {
      var i :| 0 <= i < |a| && IsLive(a[i].pebbles, p);
      assert IsLive(c[i].pebbles, p);
    }
    if LiveIn(b, p) {
      var i :| 0 <= i < |b| && IsLive(b[i].pebbles, p);
      assert IsLive(c[|a| + i].pebbles, p);
    }
    if LiveIn(c, p) {
      var i :| 0 <= i < |c| && IsLive(c[i].pebbles, p);
      assert i < |a| ==> IsLive(a[i].pebbles, p);
      assert i >= |a| ==> IsLive(b[i - |a|].pebbles, p);
    }
  }

  lemma LiveInOne(b: Bucket, p: Pebble)
    ensures LiveIn([b], p) <==> IsLive(b.pebbles, p)
  {
    assert IsLive([b][0].pebbles, p) <==> IsLive(b.pebbles, p);
  }

  /** The live blocks of a list in which bucket `i` is singled out. */
  lemma LiveInSplit(bs: seq<Bucket>, i: nat, p: Pebble)
    requires i < |bs|
    ensures LiveIn(bs, p) <==> LiveIn(bs[..i], p) || IsLive(bs[i].pebbles, p) || LiveIn(bs[i + 1..], p)
  {
    assert bs == bs[..i] + ([bs[i]] + bs[i + 1..]);
    LiveInBoth(bs[..i], [bs[i]] + bs[i + 1..], p);
    LiveInBoth([bs[i]], bs[i + 1..], p);
    LiveInOne(bs[i], p);
  }

  lemma LiveInReplaced(bs: seq<Bucket>, i: nat, b: Bucket, p: Pebble)
    requires i < |bs|
    ensures LiveIn(bs[i := b], p) <==> LiveIn(bs[..i], p) || IsLive(b.pebbles, p) || LiveIn(bs[i + 1..], p)
  {
    var cs := bs[i := b];
    assert cs[..i] == bs[..i] && cs[i + 1..] == bs[i + 1..];
    LiveInSplit(cs, i, p);
  }

  /** The block that Place hands out. */
  lemma PlaceLive(b: Bucket, want: nat) returns (q: Pebble)
    requires BucketOk(b) && want % MIN_ALIGN == 0 && HasFit(b.pebbles, want)
    ensures IsBlock(q, Place(b, want).1, want)
    ensures IsLive(Place(b, want).0.pebbles, q)
    ensures !IsLive(b.pebbles, q)
    ensures forall p :: IsLive(Place(b, want).0.pebbles, p) <==> IsLive(b.pebbles, p) || p == q
  {
    var k := Choose(b.pebbles, b.best, want).value;
    PlacedKeeps(b.pebbles, b.Start(), b.Limit(), k, want);
    q := Placed(b.pebbles, k, want)[k];
    forall p
      ensures IsLive(Placed(b.pebbles, k, want), p) <==> IsLive(b.pebbles, p) || p == q
    {
      PlacedLive(b.pebbles, k, want, p);
    }
    Distinct(b.pebbles, b.Start(), b.Limit());
    assert forall j | 0 <= j < |b.pebbles| && b.pebbles[j].addr == q.addr :: j == k;
  }

  /** The ranges of two blocks, headers included, have no byte in common. */
  predicate DisjointBlocks(p: Pebble, q: Pebble) {
    p.End() <= q.addr || q.End() <= p.addr
  }

  /** The live blocks of `after` are those of `before` and `q`. */
  ghost predicate OneMore(before: seq<Bucket>, after: seq<Bucket>, q: Pebble) {
    forall p :: LiveIn(after, p) <==> LiveIn(before, p) || p == q
  }

  ghost predicate ApartFromLive(bs: seq<Bucket>, q: Pebble) {
    forall p | LiveIn(bs, p) :: DisjointBlocks(p, q)
  }

  /** `q` became live, apart from all that was live before, and nothing else changed. */
  ghost predicate AddsBlock(before: seq<Bucket>, after: seq<Bucket>, q: Pebble) {
    OneMore(before, after, q) && ApartFromLive(before, q)
  }

  /** `q` is a block for the pointer `ptr` that holds the rounded request. */
  predicate IsBlock(q: Pebble, ptr: nat, want: nat) {
    q.used && q.addr + PEBBLE_HEADER == ptr && want <= q.size <= want + 125
  }

  /** A successful kmalloc adds one block, disjoint from every block in use, and changes no other. */
  lemma MallocLive(h: Heap, r: Rounding, n: nat, mapped: bool) returns (q: Pebble)
    requires HeapOk(h) && Malloc(h, r, n, mapped).1 != 0
    ensures var (h', ptr) := Malloc(h, r, n, mapped);
            IsBlock(q, ptr, Rounded(r, Request(n))) && AddsBlock(h.buckets, h'.buckets, q)
  {
    var want := Rounded(r, Request(n));
    match FindBucket(h.buckets, want, 0) {
      case Some(i) => q := MallocFromLive(h, want, i);
      case None => q := MallocFreshLive(h, want, Request(n));
    }
  }

  lemma MallocFromLive(h: Heap, want: nat, i: nat) returns (q: Pebble)
    requires HeapOk(h) && want % MIN_ALIGN == 0 && i < |h.buckets| && HasFit(h.buckets[i].pebbles, want)
    ensures var (h', ptr) := MallocFrom(h, want, i);
            IsBlock(q, ptr, want) && AddsBlock(h.buckets, h'.buckets, q)
  {
    q := PlaceLive(h.buckets[i], want);
    var b := Place(h.buckets[i], want).0;
    ReplacedLive(h.buckets, i, b, h.buckets[i := b], q);
    PlacedDisjoint(h, i, want, b, q);
  }

  lemma ReplacedLive(bs: seq<Bucket>, i: nat, b: Bucket, cs: seq<Bucket>, q: Pebble)
    requires i < |bs| && cs == bs[i := b] && forall p :: IsLive(b.pebbles, p) <==> IsLive(bs[i].pebbles, p) || p == q
    ensures OneMore(bs, cs, q)
  {
    forall p
      ensures LiveIn(cs, p) <==> LiveIn(bs, p) || p == q
    {
      LiveInSplit(bs, i, p);
      LiveInReplaced(bs, i, b, p);
    }
  }

  lemma PlacedDisjoint(h: Heap, i: nat, want: nat, b: Bucket, q: Pebble)
    requires HeapOk(h) && want % MIN_ALIGN == 0 && i < |h.buckets| && HasFit(h.buckets[i].pebbles, want)
    requires Place(h.buckets[i], want) == (b, q.addr + PEBBLE_HEADER) && OneMore(h.buckets, h.buckets[i := b], q)
    ensures ApartFromLive(h.buckets, q)
  {
    forall p | LiveIn(h.buckets, p)
      ensures DisjointBlocks(p, q)
    {
      PlacedApart(h, i, want, b, p, q);
    }
  }

  lemma MallocFreshLive(h: Heap, want: nat, size: nat) returns (q: Pebble)
    requires HeapOk(h) && want % MIN_ALIGN == 0 && MallocFresh(h, want, size, true).1 != 0
    ensures var (h', ptr) := MallocFresh(h, want, size, true);
            IsBlock(q, ptr, want) && AddsBlock(h.buckets, h'.buckets, q)
  {
    q := MallocLiveNew(h, want, FreshBucket(h.end, size));
  }

  lemma PlacedApart(h: Heap, i: nat, want: nat, b: Bucket, p: Pebble, q: Pebble)
    requires HeapOk(h) && want % MIN_ALIGN == 0 && i < |h.buckets| && HasFit(h.buckets[i].pebbles, want)
    requires Place(h.buckets[i], want) == (b, q.addr + PEBBLE_HEADER) && OneMore(h.buckets, h.buckets[i := b], q)
    requires LiveIn(h.buckets, p)
    ensures DisjointBlocks(p, q)
  {
    var k := Choose(h.buckets[i].pebbles, h.buckets[i].best, want).value;
    LiveNotAt(h, i, k, p);
    PlaceKeeps(h.buckets[i], want);
    ReplaceKeeps(h, i, b);
    LiveApart(h.(buckets := h.buckets[i := b]), p, q);
  }

  lemma MallocLiveNew(h: Heap, want: nat, b0: Bucket) returns (q: Pebble)
    requires HeapOk(h) && want % MIN_ALIGN == 0 && Place(b0, want).1 != 0
    requires BucketOk(b0) && b0.WhollyFree() && b0.base == h.end
    ensures var (b, ptr) := Place(b0, want);
            IsBlock(q, ptr, want) && AddsBlock(h.buckets, Insert(h.buckets, b), q)
  {
    PlaceKeeps(b0, want);
    q := PlaceLive(b0, want);
    var b := Place(b0, want).0;
    InsertedOne(h.buckets, b, b0, Insert(h.buckets, b), q);
    LiveAbove(b, q);
    forall p | LiveIn(h.buckets, p)
      ensures DisjointBlocks(p, q)
    {
      LiveBelow(h, p);
    }
  }

  lemma InsertedOne(bs: seq<Bucket>, b: Bucket, b0: Bucket, cs: seq<Bucket>, q: Pebble)
    requires |bs| > 0 && cs == Insert(bs, b) && b0.WhollyFree()
    requires forall p :: IsLive(b.pebbles, p) <==> IsLive(b0.pebbles, p) || p == q
    ensures OneMore(bs, cs, q)
  {
    forall p
      ensures LiveIn(cs, p) <==> LiveIn(bs, p) || p == q
    {
      InsertedLive(bs, b, p);
    }
  }

  lemma LiveAbove(b: Bucket, q: Pebble)
    requires BucketOk(b) && IsLive(b.pebbles, q)
    ensures b.base <= q.addr
  {
    var k :| 0 <= k < |b.pebbles| && b.pebbles[k] == q;
    InRange(b.pebbles, b.Start(), b.Limit(), k);
  }

  lemma LiveBelow(h: Heap, p: Pebble)
    requires HeapOk(h) && LiveIn(h.buckets, p)
    ensures p.End() <= h.end
  {
    var i :| 0 <= i < |h.buckets| && IsLive(h.buckets[i].pebbles, p);
    var j :| 0 <= j < |h.buckets[i].pebbles| && h.buckets[i].pebbles[j] == p;
    assert BucketOk(h.buckets[i]);
    InRange(h.buckets[i].pebbles, h.buckets[i].Start(), h.buckets[i].Limit(), j);
  }

  /** A live block does not start where a free pebble starts. */
  lemma LiveNotAt(h: Heap, i: nat, k: nat, p: Pebble)
    requires HeapOk(h) && i < |h.buckets| && k < |h.buckets[i].pebbles| && !h.buckets[i].pebbles[k].used
    requires LiveIn(h.buckets, p)
    ensures p.addr != h.buckets[i].pebbles[k].addr
  {
    var j :| 0 <= j < |h.buckets| && IsLive(h.buckets[j].pebbles, p);
    var l :| 0 <= l < |h.buckets[j].pebbles| && h.buckets[j].pebbles[l] == p;
    PebblesApart(h, i, k, j, l);
  }

  lemma LiveApart(h: Heap, p: Pebble, q: Pebble)
    requires HeapOk(h) && LiveIn(h.buckets, p) && LiveIn(h.buckets, q) && p.addr != q.addr
    ensures DisjointBlocks(p, q)
  {
    var i :| 0 <= i < |h.buckets| && IsLive(h.buckets[i].pebbles, p);
    var k :| 0 <= k < |h.buckets[i].pebbles| && h.buckets[i].pebbles[k] == p;
    var j :| 0 <= j < |h.buckets| && IsLive(h.buckets[j].pebbles, q);
    var l :| 0 <= l < |h.buckets[j].pebbles| && h.buckets[j].pebbles[l] == q;
    PebblesApart(h, i, k, j, l);
  }

  lemma InsertedLive(bs: seq<Bucket>, b: Bucket, p: Pebble)
    requires |bs| > 0
    ensures LiveIn(Insert(bs, b), p) <==> LiveIn(bs, p) || IsLive(b.pebbles, p)
  {
    var cs := Insert(bs, b);
    assert cs[..1] == bs[..1] && cs[1] == b && cs[2..] == bs[1..];
    LiveInSplit(cs, 1, p);
    LiveInBoth(bs[..1], bs[1..], p);
    assert bs[..1] + bs[1..] == bs;
  }

  /** kfree retires exactly the block it is given. */
  lemma FreeLive(h: Heap, i: nat, k: nat, p: Pebble)
    requires HeapOk(h) && i < |h.buckets| && k < |h.buckets[i].pebbles| && h.buckets[i].pebbles[k].used
    ensures LiveIn(FreeAt(h, i, k).buckets, p) <==> LiveIn(h.buckets, p) && p != h.buckets[i].pebbles[k]
  {
    var b := h.buckets[i];
    var q := b.pebbles[k];
    var b' := b.With(Freed(b.pebbles, k));
    assert BucketOk(b);
    FreedLive(b.pebbles, b.Start(), b.Limit(), k, p);
    LiveInSplit(h.buckets, i, p);
    LiveInReplaced(h.buckets, i, b', p);
    LiveInBoth(h.buckets[..i], h.buckets[i + 1..], p);
    LiveElsewhere(h, i, k);
    if b'.WhollyFree() {
      assert !IsLive(b'.pebbles, p);
    }
  }

  lemma LiveElsewhere(h: Heap, i: nat, k: nat)
    requires HeapOk(h) && i < |h.buckets| && k < |h.buckets[i].pebbles|
    ensures !LiveIn(h.buckets[..i], h.buckets[i].pebbles[k]) && !LiveIn(h.buckets[i + 1..], h.buckets[i].pebbles[k])
  {
    var q := h.buckets[i].pebbles[k];
    forall j, l | 0 <= j < |h.buckets| && j != i && 0 <= l < |h.buckets[j].pebbles|
      ensures h.buckets[j].pebbles[l] != q
    {
      PebblesApart(h, i, k, j, l);
    }
  }

  /** The payload address determines the pebble. */
  lemma PebbleAtUnique(h: Heap, ptr: nat, i: nat, k: nat, j: nat, l: nat)
    requires HeapOk(h) && PebbleAt(h, ptr, i, k) && PebbleAt(h, ptr, j, l)
    ensures i == j && k == l
  {
    if (i, k) != (j, l) {
      PebblesApart(h, i, k, j, l);
    }
  }

  /** kfree of a pebble that is free and still in its chain changes nothing, unless the pebble fills
      a bucket other than the initial one, which is then given back. */
  lemma FreeOfFree(h: Heap, i: nat, k: nat)
    requires HeapOk(h) && i < |h.buckets| && k < |h.buckets[i].pebbles| && !h.buckets[i].pebbles[k].used
    ensures FreeAt(h, i, k) == if h.buckets[i].WhollyFree() && i > 0
                               then h.(buckets := h.buckets[..i] + h.buckets[i + 1..]) else h
  {
    assert BucketOk(h.buckets[i]);
    FreedAgain(h.buckets[i].pebbles, k);
    assert h.buckets[i := h.buckets[i]] == h.buckets;
    if i > 0 {
      BasesDiffer(h, i);
    }
  }

  // ----- kfree undoes kmalloc -----

  /** Giving back what kmalloc just returned restores the heap; a bucket that was wholly free
      and is not the initial one disappears, as does the bucket kmalloc had to create. */
  lemma FreeUndoesMalloc(h: Heap, r: Rounding, n: nat, mapped: bool) returns (i: nat, k: nat)
    requires HeapOk(h) && Malloc(h, r, n, mapped).1 != 0
    ensures var (h', ptr) := Malloc(h, r, n, mapped);
            && LiveAt(h', ptr, i, k)
            && FreeAt(h', i, k).(end := h.end) ==
               if i > 0 && FindBucket(h.buckets, Rounded(r, Request(n)), 0) == Some(i) && h.buckets[i].WhollyFree()
               then h.(buckets := h.buckets[..i] + h.buckets[i + 1..])
               else h
  {
    var want := Rounded(r, Request(n));
    match FindBucket(h.buckets, want, 0) {
      case Some(j) =>
        i := j;
        k := UndoPlace(h.buckets[i], want);
        UndoOld(h, Place(h.buckets[i], want).0, i, k);
      case None =>
        i := 1;
        k := UndoNew(h, want, FreshBucket(h.end, Request(n)));
    }
  }

  lemma UndoNew(h: Heap, want: nat, b0: Bucket) returns (k: nat)
    requires HeapOk(h) && want % MIN_ALIGN == 0 && Place(b0, want).1 != 0
    requires BucketOk(b0) && b0.WhollyFree() && b0.base == h.end
    ensures var (b, ptr) := Place(b0, want);
            var h' := WithBucket(h, b);
            LiveAt(h', ptr, 1, k) && FreeAt(h', 1, k).(end := h.end) == h
  {
    PlaceKeeps(b0, want);
    k := UndoPlace(b0, want);
    BucketNotEmpty(h.buckets[0]);
    UndoInsert(h, Place(b0, want).0, k);
  }

  lemma UndoInsert(h: Heap, b: Bucket, k: nat)
    requires |h.buckets| > 0 && k < |b.pebbles| && b.pebbles[k].used
    requires b.With(Freed(b.pebbles, k)).WhollyFree() && b.base != h.start
    ensures var h' := WithBucket(h, b);
            LiveAt(h', b.pebbles[k].addr + PEBBLE_HEADER, 1, k) && FreeAt(h', 1, k).(end := h.end) == h
  {
    var bs := Insert(h.buckets, b);
    assert bs[1] == b;
    assert bs[..1] + bs[1 + 1..] == h.buckets;
  }

  lemma BucketNotEmpty(b: Bucket)
    requires BucketOk(b)
    ensures b.base < b.Limit()
  {
    InRange(b.pebbles, b.Start(), b.Limit(), 0);
  }

  lemma UndoPlace(b: Bucket, want: nat) returns (k: nat)
    requires BucketOk(b) && want % MIN_ALIGN == 0 && HasFit(b.pebbles, want)
    ensures var (b', ptr) := Place(b, want);
            && k < |b'.pebbles| && b'.pebbles[k].used && b'.pebbles[k].addr + PEBBLE_HEADER == ptr
            && b'.base == b.base && b'.With(Freed(b'.pebbles, k)) == b
  {
    k := Choose(b.pebbles, b.best, want).value;
    PlacedKeeps(b.pebbles, b.Start(), b.Limit(), k, want);
    FreedPlaced(b.pebbles, k, want);
  }

  lemma UndoOld(h: Heap, b: Bucket, i: nat, k: nat)
    requires HeapOk(h) && i < |h.buckets| && k < |b.pebbles| && b.With(Freed(b.pebbles, k)) == h.buckets[i]
    ensures var h' := h.(buckets := h.buckets[i := b]);
            FreeAt(h', i, k) == if h.buckets[i].WhollyFree() && i > 0
                                then h.(buckets := h.buckets[..i] + h.buckets[i + 1..]) else h
  {
    var bs := h.buckets[i := b];
    assert bs[..i] == h.buckets[..i] && bs[i + 1..] == h.buckets[i + 1..];
    assert bs[i := h.buckets[i]] == h.buckets;
    if i > 0 {
      BasesDiffer(h, i);
    }
  }

  lemma BasesDiffer(h: Heap, i: nat)
    requires HeapOk(h) && 0 < i < |h.buckets|
    ensures h.buckets[i].base != h.start
  {
    assert Apart(h.buckets[0], h.buckets[i]);
    BucketNotEmpty(h.buckets[0]);
    BucketNotEmpty(h.buckets[i]);
  }

  // ----- the cache and the answer -----

  /** The cached size never hides a pebble that fits. */
  lemma CacheNeverHides(b: Bucket, want: nat)
    requires BucketOk(b) && HasFit(b.pebbles, want)
    ensures b.largest >= want
  {
    var k :| 0 <= k < |b.pebbles| && Fits(b.pebbles[k], want);
    LargestBounds(b.pebbles, k);
  }

  /** kmalloc answers NULL exactly when no pebble fits and either no region was mapped or the
      bucket created for it cannot hold it: create_bucket is given the request without room
      for the two headers. */
  lemma MallocFailsIff(h: Heap, r: Rounding, n: nat, mapped: bool)
    requires HeapOk(h)
    ensures var want := Rounded(r, Request(n));
            Malloc(h, r, n, mapped).1 == 0 <==>
            && (forall i | 0 <= i < |h.buckets| :: !HasFit(h.buckets[i].pebbles, want))
            && (!mapped || want > PAGE_SIZE * PagesFor(Request(n)) - BUCKET_HEADER - PEBBLE_HEADER)
  {
    var want := Rounded(r, Request(n));
    match FindBucket(h.buckets, want, 0) {
      case Some(i) => PlaceKeeps(h.buckets[i], want);
      case None =>
        var b := FreshBucket(h.end, Request(n));
        PlaceKeeps(b, want);
        assert HasFit(b.pebbles, want) <==> Fits(b.pebbles[0], want);
    }
  }

  /** So every request of up to 64 KiB succeeds when a region can be mapped; 69600 bytes does not
      fit the seventeen pages that are made for it. */
  lemma SmallRequestsSucceed(h: Heap, r: Rounding, n: nat)
    requires HeapOk(h) && n <= 65536
    ensures Malloc(h, r, n, true).1 != 0
    ensures Rounded(Aligned, Request(69600)) > PAGE_SIZE * PagesFor(Request(69600)) - BUCKET_HEADER - PEBBLE_HEADER
  {
    MallocFailsIff(h, r, n, true);
    SmallFits(r, Request(n));
  }

  lemma SmallFits(r: Rounding, n: nat)
    requires n <= 65536
    ensures Rounded(r, n) <= PAGE_SIZE * PagesFor(n) - BUCKET_HEADER - PEBBLE_HEADER
    ensures Rounded(Aligned, Request(69600)) > PAGE_SIZE * PagesFor(Request(69600)) - BUCKET_HEADER - PEBBLE_HEADER
  {
    assert PagesFor(n) == 17 && PagesFor(69600) == 17;
    assert Rounded(Aligned, 69600) == 69632;
  }
}
