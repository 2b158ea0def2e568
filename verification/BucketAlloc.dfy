/** bucketalloc.c on its own data: headers in memory that point at each other by address. */
module BucketAlloc {
  import opened Machine
  import opened Wrappers
  import opened PebbleLayout
  import opened HeapModel
  import opened HeapTheorems
  import opened HeapRuns
  import opened HeapAnswers
  import opened HeaderChains
  import opened DoubleFree

  class KernelHeap {
    var pebbles: PebbleMap
    var buckets: BucketMap
    var end: nat
    const start: nat
    const rounding: Rounding
    ghost var model: Heap

    /** kmalloc_init: the initial bucket, at the start of a heap that has not grown yet. */
    constructor (start: nat, size: nat, rounding: Rounding)
      requires 0 < start
      ensures Valid() && model == Initial(start, size) && AllFirstFound(model)
      ensures this.start == start && this.rounding == rounding
    {
      var b := FreshBucket(start, size);
      this.start, this.rounding := start, rounding;
      end := b.Limit();
      pebbles := map[b.Start() := PebbleHeader(false, b.pebbles[0].size, start, 0, 0)];
      buckets := map[start := BucketHeader(b.best, b.largest, b.pages, b.Start(), 0, 0)];
      model := Initial(start, size);
      new;
      FreshRepresents(pebbles, buckets, b);
    }

    ghost predicate Valid()
      reads this
    {
      HeapOk(model) && model.start == start && model.end == end && Represents(pebbles, buckets, model.buckets)
    }

    /** The represented heap, and where memory shows a pebble header. */
    ghost function State(): HeapState
      reads this
    {
      HeapState(model, pebbles.Keys)
    }

    /** bucket_update_largest. */
    method UpdateLargest(bucket: nat, ghost ps: seq<Pebble>, ghost lo: nat, ghost hi: nat)
      requires bucket in buckets && Tiled(ps, lo, hi) && 0 < lo && Chain(pebbles, bucket, ps) && buckets[bucket].first == lo
      modifies this`buckets
      ensures buckets == old(buckets)[bucket := old(buckets)[bucket].(largest := LargestSize(ps))]
    {
      var p := buckets[bucket].first;
      var ret := 0;
      ghost var k := 0;
      while p != 0
        invariant 0 <= k <= |ps| && p == (if k == |ps| then 0 else ps[k].addr)
        invariant ret == LargestSize(ps[..k]) && buckets == old(buckets)
        decreases |ps| - k
      {
        assert LinkedAt(pebbles, bucket, ps, k);
        assert ps[..k + 1][..k] == ps[..k];
        if pebbles[p].size > ret {
          ret := pebbles[p].size;
        }
        p := pebbles[p].next;
        k := k + 1;
        if k < |ps| { InRange(ps, lo, hi, k); }
      }
      assert ps[..k] == ps;
      buckets := buckets[bucket := buckets[bucket].(largest := ret)];
    }

    /** split_pebble. */
    method SplitPebble(pebble: nat, want: nat,
                       ghost base: nat, ghost ps: seq<Pebble>, ghost k: nat, ghost lo: nat, ghost hi: nat)
      requires Tiled(ps, lo, hi) && 0 < lo && Chain(pebbles, base, ps)
      requires k < |ps| && ps[k].addr == pebble && want % MIN_ALIGN == 0 && want <= ps[k].size
      modifies this`pebbles
      ensures SameOutside(old(pebbles), pebbles, lo, hi)
      ensures Chain(pebbles, base, Splice(ps, k, k + 1, Halves(ps[k], want)))
      ensures OnlyAt(old(pebbles), pebbles, Addrs(Splice(ps, k, k + 1, Halves(ps[k], want))))
    {
      SplitLinks(pebbles, base, ps, k, want, lo, hi);
      var header := pebbles[pebble];
      if SplitGuard(header.size, want) {
        WriteSplit(pebble, RoundUp(want), base, ps, k, lo, hi);
        SplitChain(old(pebbles), pebbles, base, ps, k, want, lo, hi);
        SplicedIsSplit(ps, k, want);
        SplitOnly(old(pebbles), pebbles, base, ps, Splice(ps, k, k + 1, Halves(ps[k], want)), k, want);
      }
    }

    /** The stores of split_pebble. */
    method WriteSplit(pebble: nat, newSize: nat,
                      ghost base: nat, ghost ps: seq<Pebble>, ghost k: nat, ghost lo: nat, ghost hi: nat)
      requires k < |ps| && ps[k].addr == pebble && newSize + PEBBLE_HEADER <= ps[k].size
      requires lo <= ps[k].addr && ps[k].End() <= hi && pebble in pebbles && pebbles[pebble] == HeaderOf(base, ps, k)
      requires var next := NextAddr(ps, k); next != 0 ==> next in pebbles && ps[k].End() <= next < hi
      modifies this`pebbles
      ensures SameOutside(old(pebbles), pebbles, lo, hi)
      ensures SplitStores(old(pebbles), pebbles, base, ps, k, newSize)
    {
      var header := pebbles[pebble];
      var newPebble := pebble + PEBBLE_HEADER + newSize;
      pebbles := pebbles[newPebble := header.(size := header.size - newSize - PEBBLE_HEADER, prev := pebble)];
      if header.next != 0 {
        pebbles := pebbles[header.next := pebbles[header.next].(prev := newPebble)];
      }
      pebbles := pebbles[pebble := pebbles[pebble].(size := newSize, next := newPebble)];
    }

    /** The two statements of place_pebble that take the pebble it found. */
    method TakePebble(pebble: nat, want: nat,
                      ghost base: nat, ghost ps: seq<Pebble>, ghost k: nat, ghost lo: nat, ghost hi: nat)
      requires Tiled(ps, lo, hi) && 0 < lo && Chain(pebbles, base, ps)
      requires k < |ps| && ps[k].addr == pebble && want % MIN_ALIGN == 0 && want <= ps[k].size
      modifies this`pebbles
      ensures SameOutside(old(pebbles), pebbles, lo, hi)
      ensures Chain(pebbles, base, Placed(ps, k, want))
      ensures OnlyAt(old(pebbles), pebbles, Addrs(Placed(ps, k, want)))
    {
      SplitPebble(pebble, want, base, ps, k, lo, hi);
      TakenIsPlaced(pebbles, base, ps, k, want, lo, hi);
      TakenOnly(old(pebbles), pebbles, ps, k, want);
      InRange(ps, lo, hi, k);
      pebbles := pebbles[pebble := pebbles[pebble].(used := true)];
    }

    /** The first-found loop of place_pebble. */
    method FindFirst(bucket: nat, want: nat, ghost b: Bucket) returns (found: nat, ghost at: nat)
      requires bucket == b.base && bucket in buckets && buckets[bucket].first == b.Start()
      requires Tiled(b.pebbles, b.Start(), b.Limit()) && Chain(pebbles, bucket, b.pebbles)
      ensures found == 0 <==> !HasFit(b.pebbles, want)
      ensures found != 0 ==> at < |b.pebbles| && found == b.pebbles[at].addr && IsFirstFit(b.pebbles, want, at)
    {
      ghost var ps := b.pebbles;
      var start := buckets[bucket].first;
      at := 0;
      while start != 0
        invariant 0 <= at <= |ps| && start == (if at == |ps| then 0 else ps[at].addr)
        invariant forall i | 0 <= i < at :: !Fits(ps[i], want)
        decreases |ps| - at
      {
        assert LinkedAt(pebbles, bucket, ps, at);
        if !pebbles[start].used && pebbles[start].size >= want {
          return start, at;
        }
        start := pebbles[start].next;
        at := at + 1;
        if at < |ps| { InRange(ps, b.Start(), b.Limit(), at); }
      }
      found := 0;
    }

    /** The best-fit loop of place_pebble. */
    method FindBest(bucket: nat, want: nat, ghost b: Bucket) returns (best: nat, ghost at: nat)
      requires bucket == b.base && bucket in buckets && buckets[bucket].first == b.Start()
      requires Tiled(b.pebbles, b.Start(), b.Limit()) && Chain(pebbles, bucket, b.pebbles)
      ensures best == 0 <==> !HasFit(b.pebbles, want)
      ensures best != 0 ==> at < |b.pebbles| && best == b.pebbles[at].addr && IsBestFit(b.pebbles, want, at)
    {
      ghost var ps := b.pebbles;
      var start := buckets[bucket].first;
      var bestSize := 0;
      best, at := 0, 0;
      ghost var k := 0;
      while start != 0
        invariant 0 <= k <= |ps| && start == (if k == |ps| then 0 else ps[k].addr)
        invariant best == 0 ==> forall i | 0 <= i < k :: !Fits(ps[i], want)
        invariant best != 0 ==> at < k && best == ps[at].addr && bestSize == ps[at].size && Fits(ps[at], want)
        invariant best != 0 ==> forall i | 0 <= i < k && Fits(ps[i], want) ::
                    if i < at then bestSize < ps[i].size else bestSize <= ps[i].size
        decreases |ps| - k
      {
        assert LinkedAt(pebbles, bucket, ps, k);
        InRange(ps, b.Start(), b.Limit(), k);
        if !pebbles[start].used && pebbles[start].size >= want {
          if best == 0 || pebbles[start].size < bestSize {
            best, bestSize, at := start, pebbles[start].size, k;
          }
        }
        start := pebbles[start].next;
        k := k + 1;
        if k < |ps| { InRange(ps, b.Start(), b.Limit(), k); }
      }
      if best != 0 {
        assert HasFit(ps, want);
      } else {
        assert forall i | 0 <= i < |ps| :: !Fits(ps[i], want);
      }
    }

    /** place_pebble: best-fit or first-found, as the bucket's flag says. */
    method PlacePebble(bucket: nat, want: nat, ghost b: Bucket) returns (ret: nat)
      requires bucket == b.base && bucket in buckets && buckets[bucket].first == b.Start() && buckets[bucket].best == b.best
      requires Tiled(b.pebbles, b.Start(), b.Limit()) && Chain(pebbles, bucket, b.pebbles) && want % MIN_ALIGN == 0
      modifies this`pebbles
      ensures SameOutside(old(pebbles), pebbles, b.Start(), b.Limit())
      ensures ret == 0 <==> !HasFit(b.pebbles, want)
      ensures match Choose(b.pebbles, b.best, want)
              case None => pebbles == old(pebbles)
              case Some(k) =>
                && ret == b.pebbles[k].addr && Chain(pebbles, bucket, Placed(b.pebbles, k, want))
                && OnlyAt(old(pebbles), pebbles, Addrs(Placed(b.pebbles, k, want)))
    {
      ghost var k;
      if buckets[bucket].best {
        ret, k := FindBest(bucket, want, b);
      } else {
        ret, k := FindFirst(bucket, want, b);
      }
      if ret != 0 {
        ChoiceUnique(b.pebbles, b.best, want, k, Choose(b.pebbles, b.best, want).value);
        TakePebble(ret, want, bucket, b.pebbles, k, b.Start(), b.Limit());
      }
    }

    /** place_pebble followed by bucket_update_largest. When nothing fits, the cache is already exact. */
    method PlaceAndUpdate(bucket: nat, want: nat, ghost b: Bucket) returns (ret: nat)
      requires BucketOk(b) && bucket == b.base && bucket in buckets
      requires buckets[bucket].first == b.Start() && buckets[bucket].best == b.best
      requires Chain(pebbles, bucket, b.pebbles) && want % MIN_ALIGN == 0
      modifies this`pebbles, this`buckets
      ensures SameOutside(old(pebbles), pebbles, b.Start(), b.Limit())
      ensures match Choose(b.pebbles, b.best, want)
              case None => ret == 0 && pebbles == old(pebbles) && buckets == old(buckets)
              case Some(k) =>
                var qs := Placed(b.pebbles, k, want);
                && ret == b.pebbles[k].addr + PEBBLE_HEADER && Chain(pebbles, bucket, qs)
                && Tiled(qs, b.Start(), b.Limit()) && Coalesced(qs)
                && OnlyAt(old(pebbles), pebbles, Addrs(qs))
                && buckets == old(buckets)[bucket := old(buckets)[bucket].(largest := LargestSize(qs))]
    {
      ret := PlacePebble(bucket, want, b);
      if ret != 0 {
        ghost var k := Choose(b.pebbles, b.best, want).value;
        PlacedKeeps(b.pebbles, b.Start(), b.Limit(), k, want);
        UpdateLargest(bucket, Placed(b.pebbles, k, want), b.Start(), b.Limit());
        ret := ret + PEBBLE_HEADER;
      }
    }

    /** The same with the whole heap in view. */
    method PlaceInBucket(bucket: nat, want: nat, ghost i: nat) returns (ret: nat)
      requires Valid() && i < |model.buckets| && bucket == model.buckets[i].base && want % MIN_ALIGN == 0
      modifies this
      ensures Valid() && end == old(end) && Touches(old(pebbles), pebbles, old(buckets), buckets, model.buckets)
      ensures var b := old(model).buckets[i];
              match Choose(b.pebbles, b.best, want)
              case None => ret == 0 && model == old(model) && pebbles == old(pebbles) && buckets == old(buckets)
              case Some(k) =>
                ret == b.pebbles[k].addr + PEBBLE_HEADER && model == WithPebbles(old(model), i, Placed(b.pebbles, k, want))
    {
      ghost var b := model.buckets[i];
      assert BucketAt(buckets, model.buckets, i) && PebblesAt(pebbles, model.buckets, i);
      ghost var c := Choose(b.pebbles, b.best, want);
      ret := PlaceAndUpdate(bucket, want, b);
      if c.Some? {
        ghost var qs := Placed(b.pebbles, c.value, want);
        Commit(old(pebbles), old(buckets), i, qs);
        TouchesBucket(old(pebbles), pebbles, old(buckets), buckets, model.buckets, i);
      }
    }

    /** The representation after the headers of bucket `i` have been rewritten. */
    ghost method Commit(pm: PebbleMap, bm: BucketMap, i: nat, qs: seq<Pebble>)
      requires HeapOk(model) && model.start == start && model.end == end
      requires Represents(pm, bm, model.buckets) && i < |model.buckets| && model.buckets[i].base in bm
      requires SameOutside(pm, pebbles, model.buckets[i].Start(), model.buckets[i].Limit())
      requires Chain(pebbles, model.buckets[i].base, qs)
      requires Tiled(qs, model.buckets[i].Start(), model.buckets[i].Limit()) && Coalesced(qs)
      requires buckets == bm[model.buckets[i].base := bm[model.buckets[i].base].(largest := LargestSize(qs))]
      modifies this`model
      ensures Valid() && model == WithPebbles(old(model), i, qs)
    {
      UpdatedBucket(pm, bm, model, i, qs, pebbles, buckets);
      model := WithPebbles(model, i, qs);
    }

    /** create_bucket; `mapped` is whether mmap returned a region. */
    method CreateBucket(size: nat, mapped: bool) returns (bucket: nat)
      modifies this`pebbles, this`buckets, this`end
      ensures !mapped ==> bucket == 0 && pebbles == old(pebbles) && buckets == old(buckets) && end == old(end)
      ensures mapped ==>
                var b := FreshBucket(old(end), size);
                && bucket == b.base && end == b.Limit() && !b.best
                && pebbles == old(pebbles)[b.Start() := PebbleHeader(false, b.pebbles[0].size, bucket, 0, 0)]
                && buckets == old(buckets)[bucket := BucketHeader(b.best, b.largest, b.pages, b.Start(), 0, 0)]
    {
      if !mapped {
        return 0;
      }
      var pages := PagesFor(size);
      bucket := end;
      end := end + PAGE_SIZE * pages;
      var largest := PAGE_SIZE * pages - BUCKET_HEADER - PEBBLE_HEADER;
      var first := bucket + BUCKET_HEADER;
      buckets := buckets[bucket := BucketHeader(false, largest, pages, first, 0, 0)];
      pebbles := pebbles[first := PebbleHeader(false, largest, bucket, 0, 0)];
    }

    /** insert_bucket: UPDATE_NODE puts `bucket` behind `dest`, the head of the list `bs`. */
    method InsertBucket(bucket: nat, dest: nat, ghost bs: seq<Bucket>)
      requires |bs| > 0 && dest == bs[0].base && BucketAt(buckets, bs, 0) && BucketAt(buckets, bs, 1)
      requires bucket in buckets && bucket != dest && (|bs| > 1 ==> bs[1].base != bucket && bs[1].base != dest)
      requires 0 < bucket && forall i | 0 <= i < |bs| :: 0 < bs[i].base
      modifies this`buckets
      ensures var next := if |bs| == 1 then 0 else bs[1].base;
              var bm := old(buckets);
              && buckets.Keys == bm.Keys
              && buckets[bucket] == bm[bucket].(prev := dest, next := next)
              && buckets[dest] == bm[dest].(next := bucket)
              && (next != 0 ==> next in buckets && buckets[next] == bm[next].(prev := bucket))
              && forall c | c != bucket && c != dest && (next == 0 || c != next) :: SameAt(bm, buckets, c)
    {
      buckets := buckets[bucket := buckets[bucket].(next := buckets[dest].next)];
      buckets := buckets[dest := buckets[dest].(next := bucket)];
      buckets := buckets[bucket := buckets[bucket].(prev := dest)];
      var next := buckets[bucket].next;
      if next != 0 {
        buckets := buckets[next := buckets[next].(prev := bucket)];
      }
    }

    /** The bucket that kmalloc creates when nothing fits. */
    method CreateAndInsert(size: nat, mapped: bool) returns (bucket: nat)
      requires Valid()
      modifies this
      ensures Valid() && Touches(old(pebbles), pebbles, old(buckets), buckets, model.buckets)
      ensures bucket == if mapped then old(end) else 0
      ensures model == if mapped then WithBucket(old(model), FreshBucket(old(end), size)) else old(model)
    {
      ghost var bs, b := model.buckets, FreshBucket(end, size);
      HeapBases(model);
      BasesBelowEnd(model);
      assert BucketAt(buckets, bs, 0) && BucketAt(buckets, bs, 1);
      bucket := CreateBucket(size, mapped);
      if bucket != 0 {
        ghost var created := buckets;
        InsertBucket(bucket, start, bs);
        forall c | SameAt(created, buckets, c) && c != bucket
          ensures SameAt(old(buckets), buckets, c)
        {}
        InsertKeeps(model, b);
        InsertRepresents(old(pebbles), old(buckets), model, b, pebbles, buckets);
        model := WithBucket(model, b);
        InsertTouches(old(pebbles), old(buckets), buckets, bs, b, pebbles[b.Start()]);
      }
    }

    /** One round of that loop: the cached size is looked at first. */
    method TryBucket(bucket: nat, want: nat, ghost i: nat) returns (ret: nat)
      requires Valid() && i < |model.buckets| && bucket == model.buckets[i].base && want % MIN_ALIGN == 0
      modifies this
      ensures Valid() && Touches(old(pebbles), pebbles, old(buckets), buckets, model.buckets)
      ensures if HasFit(old(model).buckets[i].pebbles, want) then ret != 0 && (model, ret) == MallocFrom(old(model), want, i)
              else ret == 0 && model == old(model) && pebbles == old(pebbles) && buckets == old(buckets)
    {
      ghost var b := model.buckets[i];
      assert BucketAt(buckets, model.buckets, i);
      ret := 0;
      if buckets[bucket].largest >= want {
        MallocFromIs(model, want, i);
        ret := PlaceInBucket(bucket, want, i);
      } else {
        FilteredOut(b, want);
      }
    }

    /** The loop of kmalloc over the buckets. The cached size filters them, and still the first
        bucket with a pebble that fits is the one that is found. */
    method SearchBuckets(want: nat) returns (ret: nat)
      requires Valid() && want % MIN_ALIGN == 0
      modifies this
      ensures Valid() && Touches(old(pebbles), pebbles, old(buckets), buckets, model.buckets)
      ensures match FindBucket(old(model).buckets, want, 0)
              case None => ret == 0 && model == old(model) && pebbles == old(pebbles) && buckets == old(buckets)
              case Some(i) => ret != 0 && (model, ret) == MallocFrom(old(model), want, i)
    {
      ghost var bs := model.buckets;
      HeapBases(model);
      var bucket := start;
      ghost var i := 0;
      while bucket != 0
        invariant Valid() && model == old(model) && pebbles == old(pebbles) && buckets == old(buckets)
        invariant 0 <= i <= |bs| && bucket == (if i == |bs| then 0 else bs[i].base)
        invariant forall j | 0 <= j < i :: !HasFit(bs[j].pebbles, want)
        decreases |bs| - i
      {
        ret := TryBucket(bucket, want, i);
        if ret != 0 {
          FirstWithFit(bs, want, i);
          return;
        }
        assert BucketAt(buckets, bs, i);
        bucket := buckets[bucket].next;
        i := i + 1;
      }
      ret := 0;
    }

    /** The branch of kmalloc that creates a bucket. */
    method UseNewBucket(size: nat, want: nat, mapped: bool) returns (ret: nat)
      requires Valid() && want % MIN_ALIGN == 0
      modifies this
      ensures Valid() && Touches(old(pebbles), pebbles, old(buckets), buckets, model.buckets)
      ensures (model, ret) == MallocFresh(old(model), want, size, mapped)
    {
      var bucket := CreateAndInsert(size, mapped);
      ret := 0;
      if bucket != 0 {
        ghost var h, pm, bm := model, pebbles, buckets;
        FreshIsInserted(old(model), size, want);
        MallocFromIs(h, want, 1);
        ret := PlaceInBucket(bucket, want, 1);
        PlaceKeepsHeaders(h.buckets, 1, want);
        TouchesTrans(old(pebbles), pm, pebbles, old(buckets), bm, buckets, h.buckets, model.buckets);
      }
    }

    /** memset: a header that starts in the cleared bytes is no longer there. */
    method ClearBytes(ptr: nat, len: nat)
      modifies this`pebbles, this`buckets
      ensures pebbles == Cleared(old(pebbles), ptr, len) && buckets == Cleared(old(buckets), ptr, len)
    {
      pebbles, buckets := Cleared(pebbles, ptr, len), Cleared(buckets, ptr, len);
    }

    /** kmalloc up to its closing memset, for the size it has raised to the minimum. */
    method Allocate(size: nat, mapped: bool) returns (ret: nat)
      requires Valid() && size >= MIN_ALIGN
      modifies this
      ensures Valid() && (model, ret) == Malloc(old(model), rounding, size, mapped)
      ensures Touches(old(pebbles), pebbles, old(buckets), buckets, model.buckets)
    {
      var want := Rounded(rounding, size);
      ret := SearchBuckets(want);
      if ret == 0 {
        ret := UseNewBucket(size, want, mapped);
      }
    }

    /** kmalloc with its closing memset, which leaves the headers in order exactly when it misses them all. The
        header stores before it miss the payload of every block in use. */
    method KMalloc(n: nat, mapped: bool) returns (ret: nat)
      requires Valid()
      modifies this
      ensures (model, ret) == Malloc(old(model), rounding, n, mapped)
      ensures State() == AfterMalloc(old(State()), rounding, n, mapped)
      ensures Valid() <==> ret == 0 || ClearMisses(model.buckets, ret, Request(n))
      ensures SafeSize(rounding, n) ==> Valid()
      ensures var cleared := if ret == 0 then 0 else Request(n);
              && SparesLive(old(pebbles), pebbles, PEBBLE_HEADER, model.buckets, ret, cleared)
              && SparesLive(old(buckets), buckets, BUCKET_HEADER, model.buckets, ret, cleared)
      ensures AllFirstFound(old(model)) ==>
                && AllFirstFound(model) && Answers(old(model), rounding, n, mapped, ret)
                && Places(old(model), rounding, n, mapped, model)
    {
      Answered(model, rounding, n, mapped);
      var size := if n < MIN_ALIGN then MIN_ALIGN else n;
      ret := Allocate(size, mapped);
      FinishedMalloc(old(pebbles), pebbles, old(buckets), buckets, model, ret, size);
      if ret != 0 {
        SafeClear(old(model), rounding, n, mapped);
        ClearBytes(ret, size);
      }
    }

    /** The stores that merge pebble `k` with its right neighbour, as in absorb_next and melt_prev. */
    method MergeWithNext(pebble: nat, ghost base: nat, ghost ps: seq<Pebble>, ghost k: nat, ghost lo: nat, ghost hi: nat)
      requires Tiled(ps, lo, hi) && 0 < lo && Chain(pebbles, base, ps)
      requires k + 1 < |ps| && ps[k].addr == pebble && !ps[k].used
      modifies this`pebbles
      ensures SameOutside(old(pebbles), pebbles, lo, hi)
      ensures Chain(pebbles, base, Merged(ps, k))
      ensures {pebble, ps[k + 1].addr} <= old(pebbles).Keys && pebbles == Swallowed(old(pebbles), pebble, ps[k + 1].addr)
    {
      SwallowedChain(pebbles, base, ps, k, lo, hi);
      MergeLinks(pebbles, base, ps, k);
      var next := pebbles[pebble].next;
      var size := pebbles[pebble].size + pebbles[next].size + PEBBLE_HEADER;
      var after := pebbles[next].next;
      pebbles := pebbles[pebble := pebbles[pebble].(size := size, next := after)];
      if after != 0 {
        pebbles := pebbles[after := pebbles[after].(prev := pebble)];
      }
    }

    /** What absorb_next and melt_prev do once they have found two free neighbours: keep `first` valid,
        merge, and bring the cache up to date. */
    method SwallowNext(pebble: nat, ghost base: nat, ghost ps: seq<Pebble>, ghost k: nat, ghost lo: nat, ghost hi: nat)
      requires Tiled(ps, lo, hi) && 0 < lo && Chain(pebbles, base, ps) && CacheOk(buckets, base, lo, ps)
      requires k + 1 < |ps| && ps[k].addr == pebble && !ps[k].used
      modifies this`pebbles, this`buckets
      ensures SameOutside(old(pebbles), pebbles, lo, hi)
      ensures Chain(pebbles, base, Merged(ps, k)) && CacheOk(buckets, base, lo, Merged(ps, k))
      ensures OnlyCache(old(buckets), buckets, base)
      ensures {pebble, ps[k + 1].addr} <= old(pebbles).Keys && pebbles == Swallowed(old(pebbles), pebble, ps[k + 1].addr)
    {
      assert LinkedAt(pebbles, base, ps, k);
      var parent := pebbles[pebble].parent;
      var header := buckets[parent];
      InRange(ps, lo, hi, k);
      Ordered(ps, lo, hi, k, k + 1);
      buckets := buckets[parent := header.(first := Instead(header.first, pebbles[pebble].next, pebble))];
      assert buckets == old(buckets);
      MergedKeeps(ps, lo, hi, k);
      MergeWithNext(pebble, base, ps, k, lo, hi);
      UpdateLargest(parent, Merged(ps, k), lo, hi);
    }

    /** melt_prev: a free pebble is swallowed by its free left neighbour. */
    method MeltPrev(pebble: nat,
                    ghost base: nat, ghost ps: seq<Pebble>, ghost k: nat, ghost lo: nat, ghost hi: nat) returns (r: nat)
      requires Tiled(ps, lo, hi) && 0 < lo && Chain(pebbles, base, ps) && CacheOk(buckets, base, lo, ps)
      requires k < |ps| && ps[k].addr == pebble && !ps[k].used
      modifies this`pebbles, this`buckets
      ensures SameOutside(old(pebbles), pebbles, lo, hi)
      ensures Chain(pebbles, base, LeftMerged(ps, k)) && CacheOk(buckets, base, lo, LeftMerged(ps, k))
      ensures OnlyCache(old(buckets), buckets, base)
      ensures r == ps[MeltIndex(ps, k)].addr
      ensures pebble in old(pebbles) && (pebbles, r) == MeltStores(old(pebbles), pebble)
    {
      assert LinkedAt(pebbles, base, ps, k);
      r := pebble;
      var prev := pebbles[pebble].prev;
      if k > 0 {
        assert LinkedAt(pebbles, base, ps, k - 1);
        InRange(ps, lo, hi, k - 1);
      }
      if prev != 0 && !pebbles[prev].used {
        SwallowNext(prev, base, ps, k - 1, lo, hi);
        r := prev;
      }
    }

    /** absorb_next: a free pebble swallows its free right neighbour. */
    method AbsorbNext(pebble: nat, ghost base: nat, ghost ps: seq<Pebble>, ghost k: nat, ghost lo: nat, ghost hi: nat)
      requires Tiled(ps, lo, hi) && 0 < lo && Chain(pebbles, base, ps) && CacheOk(buckets, base, lo, ps)
      requires k < |ps| && ps[k].addr == pebble && !ps[k].used
      modifies this`pebbles, this`buckets
      ensures SameOutside(old(pebbles), pebbles, lo, hi)
      ensures Chain(pebbles, base, Absorbed(ps, k)) && CacheOk(buckets, base, lo, Absorbed(ps, k))
      ensures OnlyCache(old(buckets), buckets, base)
      ensures pebble in old(pebbles) && pebbles == AbsorbStores(old(pebbles), pebble)
    {
      assert LinkedAt(pebbles, base, ps, k);
      var next := pebbles[pebble].next;
      if k + 1 < |ps| {
        assert LinkedAt(pebbles, base, ps, k + 1);
        InRange(ps, lo, hi, k + 1);
      }
      if next != 0 && !pebbles[next].used {
        SwallowNext(pebble, base, ps, k, lo, hi);
      }
    }

    /** The store that marks a pebble free. */
    method ClearFlag(pebble: nat, ghost base: nat, ghost ps: seq<Pebble>, ghost k: nat, ghost lo: nat, ghost hi: nat)
      requires Tiled(ps, lo, hi) && Chain(pebbles, base, ps) && k < |ps| && ps[k].addr == pebble
      modifies this`pebbles
      ensures SameOutside(old(pebbles), pebbles, lo, hi)
      ensures var qs := ps[k := ps[k].(used := false)];
              Chain(pebbles, base, qs) && Tiled(qs, lo, hi) && LargestSize(qs) == LargestSize(ps)
      ensures pebble in old(pebbles) && pebbles == MarkedFree(old(pebbles), pebble)
    {
      assert LinkedAt(pebbles, base, ps, k);
      MarkChain(pebbles, base, ps, k, false, lo, hi);
      MarkedTiled(ps, lo, hi, k);
      LargestMarked(ps, k, false);
      InRange(ps, lo, hi, k);
      pebbles := pebbles[pebble := pebbles[pebble].(used := false)];
    }

    /** The first half of kfree, in one bucket: clear the flag and melt with the free neighbours. */
    method Coalesce(pebble: nat,
                    ghost base: nat, ghost ps: seq<Pebble>, ghost k: nat, ghost lo: nat, ghost hi: nat) returns (r: nat)
      requires Tiled(ps, lo, hi) && Coalesced(ps) && 0 < lo && Chain(pebbles, base, ps)
      requires CacheOk(buckets, base, lo, ps)
      requires k < |ps| && ps[k].addr == pebble
      modifies this`pebbles, this`buckets
      ensures SameOutside(old(pebbles), pebbles, lo, hi)
      ensures Chain(pebbles, base, Freed(ps, k)) && CacheOk(buckets, base, lo, Freed(ps, k))
      ensures OnlyCache(old(buckets), buckets, base)
      ensures r in pebbles && pebbles[r].parent == base
      ensures pebble in old(pebbles) && pebbles == FreeStores(old(pebbles), pebble)
    {
      MeltedKeeps(ps, lo, hi, k);
      ClearFlag(pebble, base, ps, k, lo, hi);
      r := MeltPrev(pebble, base, ps[k := ps[k].(used := false)], k, lo, hi);
      ghost var m := MeltIndex(ps, k);
      AbsorbNext(r, base, Melted(ps, k), m, lo, hi);
      assert LinkedAt(pebbles, base, Freed(ps, k), m);
    }

    /** The same with the whole heap in view. */
    method ReleasePebble(pebble: nat, ghost i: nat, ghost k: nat) returns (r: nat)
      requires Valid() && PebbleAt(model, pebble + PEBBLE_HEADER, i, k)
      modifies this
      ensures Valid() && end == old(end)
      ensures model == WithPebbles(old(model), i, Freed(old(model).buckets[i].pebbles, k))
      ensures Touches(old(pebbles), pebbles, old(buckets), buckets, old(model).buckets)
      ensures r in pebbles && pebbles[r].parent == model.buckets[i].base
      ensures pebble in old(pebbles) && pebbles == FreeStores(old(pebbles), pebble)
    {
      ghost var b := model.buckets[i];
      assert BucketOk(b) && BucketAt(buckets, model.buckets, i) && PebblesAt(pebbles, model.buckets, i);
      r := Coalesce(pebble, b.base, b.pebbles, k, b.Start(), b.Limit());
      FreedKeeps(b.pebbles, b.Start(), b.Limit(), k);
      CacheStored(old(buckets), buckets, b.base, b.Start(), Freed(b.pebbles, k));
      FreeOnly(old(pebbles), b.base, b.pebbles, k, b.Start(), b.Limit());
      TouchesBucket(old(pebbles), pebbles, old(buckets), buckets, model.buckets, i);
      Commit(old(pebbles), old(buckets), i, Freed(b.pebbles, k));
    }

    /** remove_bucket: unlink a bucket other than the initial one; munmap gives its pages back. */
    method RemoveBucket(bucket: nat, ghost bs: seq<Bucket>, ghost i: nat)
      requires DistinctBases(bs) && i < |bs| && bs[0].base == start && bs[i].base == bucket && BucketChain(buckets, bs)
      modifies this`buckets
      ensures bucket == start ==> buckets == old(buckets)
      ensures bucket != start ==> BucketChain(buckets, bs[..i] + bs[i + 1..])
      ensures OnlyAt(old(buckets), buckets, Bases(bs))
    {
      assert BucketAt(buckets, bs, i) && (i > 0 ==> BucketAt(buckets, bs, i - 1)) && BucketAt(buckets, bs, i + 1);
      if bucket != start {
        var prev, next := buckets[bucket].prev, buckets[bucket].next;
        if prev != 0 {
          buckets := buckets[prev := buckets[prev].(next := next)];
        }
        if next != 0 {
          buckets := buckets[next := buckets[next].(prev := prev)];
        }
        RemoveChain(old(buckets), buckets, bs, i);
        RemoveOnly(old(buckets), buckets, bs, i);
      }
    }

    /** The second half of kfree: a bucket that became wholly free is removed. */
    method ReturnBucket(bucket: nat, ghost i: nat)
      requires Valid() && i < |model.buckets| && model.buckets[i].base == bucket
      modifies this
      ensures Valid() && pebbles == old(pebbles) && OnlyAt(old(buckets), buckets, Bases(old(model).buckets))
      ensures model == if old(model).buckets[i].WhollyFree() && bucket != start
                       then old(model).(buckets := old(model).buckets[..i] + old(model).buckets[i + 1..]) else old(model)
    {
      ghost var bs, b := model.buckets, model.buckets[i];
      assert BucketAt(buckets, bs, i) && PebblesAt(pebbles, bs, i) && LinkedAt(pebbles, bucket, b.pebbles, 0);
      var first := buckets[bucket].first;
      NotLast(b);
      if !pebbles[first].used && pebbles[first].prev == 0 && pebbles[first].next == 0 {
        HeapBases(model);
        RemoveBucket(bucket, bs, i);
        if bucket != start {
          RemoveKeeps(model, i);
          RemovePebbles(pebbles, bs, i, bs[..i] + bs[i + 1..]);
          model := model.(buckets := bs[..i] + bs[i + 1..]);
        }
      } else {
        UpdateLargest(bucket, b.pebbles, b.Start(), b.Limit());
        assert buckets == old(buckets);
      }
    }

    /** kfree of any pointer but one whose header was merged or unmapped away. Its stores miss the payload of
        every block in use, the freed one included. */
    method KFree(ptr: nat)
      requires Valid() && LegalFree(State(), ptr)
      modifies this
      ensures Valid() && model == AfterFree(old(model), ptr) && pebbles == KFreeStores(old(pebbles), ptr)
      ensures SparesLive(old(pebbles), pebbles, PEBBLE_HEADER, old(model).buckets, ptr, 0)
      ensures SparesLive(old(buckets), buckets, BUCKET_HEADER, old(model).buckets, ptr, 0)
      ensures AllFirstFound(old(model)) ==> AllFirstFound(model)
    {
      if AllFirstFound(model) {
        AfterFreeFirstFound(model, ptr);
      }
      if InChain(model, ptr) {
        ChainHasHeader(pebbles, model, ptr);
      }
      UnchangedSpares(pebbles, PEBBLE_HEADER, model.buckets, ptr, 0);
      UnchangedSpares(buckets, BUCKET_HEADER, model.buckets, ptr, 0);
      if ptr < PEBBLE_HEADER || ptr - PEBBLE_HEADER !in pebbles {
        return;
      }
      ghost var i: nat, k: nat :| PebbleAt(model, ptr, i, k);
      AfterFreeIs(model, ptr, i, k);
      FreePebble(ptr, i, k);
    }

    /** kfree once it has found the header. */
    method FreePebble(ptr: nat, ghost i: nat, ghost k: nat)
      requires Valid() && PebbleAt(model, ptr, i, k) && ptr >= PEBBLE_HEADER && ptr - PEBBLE_HEADER in pebbles
      modifies this
      ensures Valid() && model == FreeAt(old(model), i, k) && pebbles == KFreeStores(old(pebbles), ptr)
      ensures SparesLive(old(pebbles), pebbles, PEBBLE_HEADER, old(model).buckets, ptr, 0)
      ensures SparesLive(old(buckets), buckets, BUCKET_HEADER, old(model).buckets, ptr, 0)
    {
      FreeInTwo(model, i, k);
      ghost var stores := KFreeStores(pebbles, ptr);
      var left := ReleasePebble(ptr - PEBBLE_HEADER, i, k);
      assert pebbles == stores;
      ghost var bm, bs := buckets, model.buckets;
      ReturnBucket(pebbles[left].parent, i);
      SameBases(old(model), i, bs);
      OnlyAtTrans(old(buckets), bm, buckets, Bases(bs), Bases(bs));
      TouchesSpares(old(pebbles), pebbles, pebbles, old(buckets), buckets, buckets, old(model), ptr, 0);
    }

    lemma ValidState()
      requires Valid()
      ensures StateOk(State())
    {
      HeadersPresent(pebbles, model.buckets);
    }

    /** Any legal sequence of calls keeps the linked headers in order and computes the modelled run. */
    method Run(calls: seq<Call>)
      requires Valid() && LegalRun(State(), rounding, calls)
      modifies this
      ensures Valid() && StateOk(old(State())) && State() == HeapRuns.Run(old(State()), rounding, calls)
      ensures AllFirstFound(old(model)) ==> AllFirstFound(model)
      decreases calls
    {
      ValidState();
      if calls != [] {
        StepKeeps(State(), rounding, calls[0]);
        match calls[0] {
          case KMalloc(n, mapped) => var _ := KMalloc(n, mapped);
          case KFree(ptr) => KFree(ptr);
        }
        Run(calls[1..]);
      }
    }
  }

  /** kmalloc(n) on a heap that holds a row of `k` blocks of that size. */
  method AddBlock(heap: KernelHeap, n: nat, ghost want: nat, ghost k: nat) returns (ptr: nat)
    requires heap.Valid() && SafeSize(heap.rounding, n) && want == Rounded(heap.rounding, Request(n)) <= 16384
    requires k < 3 && heap.model == RowHeap(heap.start, want, k)
    modifies heap
    ensures heap.Valid() && heap.model == RowHeap(heap.start, want, k + 1)
    ensures ptr == RowEnd(heap.start + BUCKET_HEADER, want, k) + PEBBLE_HEADER
  {
    MallocInRow(heap.start, heap.rounding, n, want, k);
    ptr := heap.KMalloc(n, true);
  }

  /** Three calls of kmalloc(n) on the heap of kmalloc_init(0x1000). */
  method ThreeBlocks(start: nat, rounding: Rounding, n: nat) returns (heap: KernelHeap, a: nat, b: nat, c: nat)
    requires 0 < start && n <= 16384 && SafeSize(rounding, n)
    ensures fresh(heap) && heap.Valid() && heap.start == start && ThreeInUse(heap.model, a, b, c)
  {
    ghost var want := Rounded(rounding, Request(n));
    RoundedBelow(rounding, Request(n));
    RowOfNone(start, want);
    RowInUse(start, want);
    heap := new KernelHeap(start, 0x1000, rounding);
    a := AddBlock(heap, n, want, 0);
    b := AddBlock(heap, n, want, 1);
    c := AddBlock(heap, n, want, 2);
  }

  /** Five legal calls after which a sixth, a second kfree(b), would let the block of `a` run over that of `c`. */
  method ReachDoubleFree(start: nat, rounding: Rounding, n: nat) returns (heap: KernelHeap, a: nat, b: nat, c: nat)
    requires 0 < start && n <= 16384 && SafeSize(rounding, n)
    ensures heap.Valid() && PEBBLE_HEADER <= a && PEBBLE_HEADER <= b && PEBBLE_HEADER <= c
    ensures b - PEBBLE_HEADER in heap.pebbles && !LegalFree(heap.State(), b)
    ensures Broken(KFreeStores(heap.pebbles, b), start, a - PEBBLE_HEADER, c - PEBBLE_HEADER, start + 17 * PAGE_SIZE)
  {
    heap, a, b, c := ThreeBlocks(start, rounding, n);
    RowBreaks(heap.model, heap.pebbles, heap.buckets, a, b, c);
    heap.KFree(a);
    heap.KFree(b);
  }
}
