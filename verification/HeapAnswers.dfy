/** What kmalloc answers, told by the heap it finds: the first free pebble that is large enough, in list order. */
module HeapAnswers {
  import opened Machine
  import opened Wrappers
  import opened PebbleLayout
  import opened HeapModel
  import opened HeapTheorems
  import opened HeapRuns

  // ----- every bucket is first-found -----

  ghost predicate AllFirstFound(h: Heap) {
    forall i | 0 <= i < |h.buckets| :: !h.buckets[i].best
  }

  lemma InitialFirstFound(start: nat, n: nat)
    requires 0 < start
    ensures AllFirstFound(Initial(start, n))
  {
  }

  lemma MallocFirstFound(h: Heap, r: Rounding, n: nat, mapped: bool)
    requires |h.buckets| > 0 && AllFirstFound(h)
    ensures AllFirstFound(Malloc(h, r, n, mapped).0)
  {
    var want := Rounded(r, Request(n));
    if FindBucket(h.buckets, want, 0) == None && mapped {
      InsertFirstFound(h, Place(FreshBucket(h.end, Request(n)), want).0);
    }
  }

  lemma InsertFirstFound(h: Heap, b: Bucket)
    requires |h.buckets| > 0 && AllFirstFound(h) && !b.best
    ensures AllFirstFound(WithBucket(h, b))
  {
  }

  lemma FreeFirstFound(h: Heap, i: nat, k: nat)
    requires i < |h.buckets| && k < |h.buckets[i].pebbles| && AllFirstFound(h)
    ensures AllFirstFound(FreeAt(h, i, k))
  {
  }

  lemma AfterFreeFirstFound(h: Heap, ptr: nat)
    requires AllFirstFound(h)
    ensures AllFirstFound(AfterFree(h, ptr))
  {
    forall i: nat, k: nat | PebbleAt(h, ptr, i, k)
      ensures AllFirstFound(FreeAt(h, i, k))
    {
      FreeFirstFound(h, i, k);
    }
  }

  /** So are all buckets of every heap that a run on the heap of kmalloc_init reaches. */
  lemma {:induction false} RunFirstFound(s: HeapState, r: Rounding, calls: seq<Call>)
    requires StateOk(s) && LegalRun(s, r, calls) && AllFirstFound(s.heap)
    ensures AllFirstFound(Run(s, r, calls).heap)
    decreases calls
  {
    if calls != [] {
      StepKeeps(s, r, calls[0]);
      match calls[0] {
        case KMalloc(n, mapped) => MallocFirstFound(s.heap, r, n, mapped);
        case KFree(ptr) => AfterFreeFirstFound(s.heap, ptr);
      }
      RunFirstFound(Step(s, r, calls[0]), r, calls[1..]);
    }
  }

  // ----- sizes -----

  /** What is looked for when `n` bytes are asked for: at least 64, rounded up to 64 or, as written, down to whole pages
      after adding 63. */
  predicate IsWant(r: Rounding, n: nat, want: nat) {
    var size := if n < 64 then 64 else n;
    match r
    case Aligned => want % 64 == 0 && size <= want < size + 64
    case AsWritten => want % 4096 == 0 && want <= size + 63 < want + 4096
  }

  /** The least number of pages for at least 65660 bytes and the request. */
  predicate IsPages(n: nat, pages: nat) {
    var size := if n < 65660 then 65660 else n;
    size <= 4096 * pages && 4096 * pages < size + 4096
  }

  lemma WantIs(r: Rounding, n: nat)
    ensures IsWant(r, n, Rounded(r, Request(n)))
  {
    var size := Request(n);
    match r {
      case Aligned => RoundedHolds(size);
      case AsWritten => WholePagesBelow(size + 63);
    }
  }

  lemma WholePagesBelow(x: nat)
    ensures x / 4096 * 4096 % 4096 == 0 && x / 4096 * 4096 <= x < x / 4096 * 4096 + 4096
  {
  }

  lemma MultiplesDiffer(a: nat, b: nat, unit: nat)
    requires 0 < unit && a % unit == 0 && b % unit == 0 && a < b
    ensures a + unit <= b
  {
    assert a == unit * (a / unit) && b == unit * (b / unit);
    if b / unit <= a / unit {
      MulLess(unit, b / unit, a / unit);
      assert false;
    }
    MulLess(unit, a / unit + 1, b / unit);
  }

  lemma MulLess(unit: nat, x: nat, y: nat)
    requires x <= y
    ensures unit * x <= unit * y
  {
  }

  lemma WantUnique(r: Rounding, n: nat, want: nat)
    requires IsWant(r, n, want)
    ensures want == Rounded(r, Request(n))
  {
    WantIs(r, n);
    var w := Rounded(r, Request(n));
    var unit := if r == Aligned then 64 else 4096;
    if want < w {
      MultiplesDiffer(want, w, unit);
    } else if w < want {
      MultiplesDiffer(w, want, unit);
    }
  }

  lemma PagesUnique(n: nat, pages: nat)
    requires IsPages(n, pages)
    ensures pages == PagesFor(n)
  {
    PagesForLeast(n);
  }

  lemma PagesForLeast(n: nat)
    ensures IsPages(n, PagesFor(n))
  {
    assert MIN_INITIAL_ALLOC == 65660;
  }

  // ----- the answer -----

  /** Pebble `k` of bucket `i` is the first one in list order that is free and holds `want` bytes. */
  ghost predicate IsFirst(h: Heap, want: nat, i: nat, k: nat) {
    && IsHole(h, want, i, k)
    && (forall j, l | 0 <= j < i :: !IsHole(h, want, j, l))
    && (forall l | 0 <= l < k :: !IsHole(h, want, i, l))
  }

  ghost predicate IsHole(h: Heap, want: nat, i: int, k: int) {
    && 0 <= i < |h.buckets| && 0 <= k < |h.buckets[i].pebbles|
    && !h.buckets[i].pebbles[k].used && h.buckets[i].pebbles[k].size >= want
  }

  ghost predicate NoHole(h: Heap, want: nat) {
    forall i, k :: !IsHole(h, want, i, k)
  }

  /** The exact sizes at which a pebble is split. */
  predicate Splits(have: nat, want: nat) {
    if want / 64 % 2 == 0 then have >= want + 65 else want + 62 <= have <= want + 64 || have >= want + 126
  }

  lemma SplitExactly(have: nat, want: nat)
    requires want % 64 == 0 && want <= have
    ensures SplitGuard(have, want) <==> Splits(have, want)
  {
    var x, w := have + 63, want / 64;
    assert want == 64 * w && x / 64 >= w;
    var q, rest := x / 64, x % 64;
    assert x == 64 * q + rest;
  }

  /** The answer to a request of `n` bytes: the payload of the first hole in list order; else, if a region can be
      mapped and its one pebble holds the request, that of the new bucket at the end of the heap; else NULL. */
  ghost predicate IsAnswer(h: Heap, want: nat, pages: nat, mapped: bool, ptr: nat) {
    && (forall i: nat, k: nat | IsFirst(h, want, i, k) :: ptr == h.buckets[i].pebbles[k].addr + 60)
    && (NoHole(h, want) ==> ptr == if mapped && want + 124 <= 4096 * pages then h.end + 124 else 0)
  }

  ghost predicate Answers(h: Heap, r: Rounding, n: nat, mapped: bool, ptr: nat) {
    forall want, pages | IsWant(r, n, want) && IsPages(n, pages) :: IsAnswer(h, want, pages, mapped, ptr)
  }

  /** What the heap is afterwards: the hole became a block, cut to the request exactly when it splits, in its place in
      an otherwise unchanged list; or the new bucket is second in the list. */
  ghost predicate IsPlaced(h: Heap, h': Heap, want: nat, mapped: bool) {
    && h'.start == h.start
    && (forall i: nat, k: nat | IsFirst(h, want, i, k) :: HoleTaken(h, h', want, i, k))
    && (NoHole(h, want) ==> if mapped then SecondIsNew(h, h') else h' == h)
  }

  ghost predicate HoleTaken(h: Heap, h': Heap, want: nat, i: nat, k: nat)
    requires IsHole(h, want, i, k)
  {
    && h'.end == h.end && |h'.buckets| == |h.buckets|
    && (forall j | 0 <= j < |h.buckets| && j != i :: h'.buckets[j] == h.buckets[j])
    && k < |h'.buckets[i].pebbles|
    && var p := h.buckets[i].pebbles[k];
       h'.buckets[i].pebbles[k] == Pebble(p.addr, if Splits(p.size, want) then want else p.size, true)
  }

  ghost predicate SecondIsNew(h: Heap, h': Heap) {
    && |h'.buckets| == |h.buckets| + 1 && |h.buckets| > 0
    && h'.buckets[0] == h.buckets[0] && h'.buckets[1].base == h.end && h'.end == h.end + 4096 * h'.buckets[1].pages
    && forall j, l | 1 <= j < |h.buckets| && l == j + 1 :: h'.buckets[l] == h.buckets[j]
  }

  ghost predicate Places(h: Heap, r: Rounding, n: nat, mapped: bool, h': Heap) {
    forall want | IsWant(r, n, want) :: IsPlaced(h, h', want, mapped)
  }

  lemma MallocPlaces(h: Heap, r: Rounding, n: nat, mapped: bool)
    requires HeapOk(h) && AllFirstFound(h)
    ensures Places(h, r, n, mapped, Malloc(h, r, n, mapped).0)
  {
    forall want | IsWant(r, n, want)
      ensures IsPlaced(h, Malloc(h, r, n, mapped).0, want, mapped)
    {
      WantUnique(r, n, want);
      AnswerAt(h, r, n, mapped);
    }
  }

  /** kmalloc gives this answer on every heap of first-found buckets. */
  lemma MallocAnswers(h: Heap, r: Rounding, n: nat, mapped: bool)
    requires HeapOk(h) && AllFirstFound(h)
    ensures Answers(h, r, n, mapped, Malloc(h, r, n, mapped).1)
  {
    forall want, pages | IsWant(r, n, want) && IsPages(n, pages)
      ensures IsAnswer(h, want, pages, mapped, Malloc(h, r, n, mapped).1)
    {
      WantUnique(r, n, want);
      PagesUnique(n, pages);
      PagesOfRequest(n);
      AnswerAt(h, r, n, mapped);
    }
  }

  /** A request below 64 bytes is one of 64. */
  lemma SmallIsMinimum(h: Heap, r: Rounding, n: nat, mapped: bool)
    requires |h.buckets| > 0
    ensures n <= 64 ==> Malloc(h, r, n, mapped) == Malloc(h, r, 64, mapped)
    ensures Request(n) == if n < 64 then 64 else n
  {
  }

  lemma Answered(h: Heap, r: Rounding, n: nat, mapped: bool)
    requires HeapOk(h)
    ensures AllFirstFound(h) ==>
              && AllFirstFound(Malloc(h, r, n, mapped).0) && Answers(h, r, n, mapped, Malloc(h, r, n, mapped).1)
              && Places(h, r, n, mapped, Malloc(h, r, n, mapped).0)
  {
    if AllFirstFound(h) {
      MallocFirstFound(h, r, n, mapped);
      MallocAnswers(h, r, n, mapped);
      MallocPlaces(h, r, n, mapped);
    }
  }

  lemma PagesOfRequest(n: nat)
    ensures PagesFor(Request(n)) == PagesFor(n)
  {
  }

  lemma AnswerAt(h: Heap, r: Rounding, n: nat, mapped: bool)
    requires HeapOk(h) && AllFirstFound(h)
    ensures IsAnswer(h, Rounded(r, Request(n)), PagesFor(Request(n)), mapped, Malloc(h, r, n, mapped).1)
    ensures IsPlaced(h, Malloc(h, r, n, mapped).0, Rounded(r, Request(n)), mapped)
  {
    var want := Rounded(r, Request(n));
    match FindBucket(h.buckets, want, 0) {
      case Some(i) =>
        var k := FirstHole(h, want, i);
        OnlyFirst(h, want, i, k);
        TakenAt(h, want, i, k);
        assert !NoHole(h, want);
      case None =>
        NoneFits(h, want);
        if mapped {
          FreshAnswer(h, want, FreshBucket(h.end, Request(n)));
        }
    }
  }

  lemma FirstHole(h: Heap, want: nat, i: nat) returns (k: nat)
    requires want % MIN_ALIGN == 0 && FindBucket(h.buckets, want, 0) == Some(i) && AllFirstFound(h)
    ensures IsFirst(h, want, i, k) && Choose(h.buckets[i].pebbles, h.buckets[i].best, want) == Some(k)
  {
    var ps := h.buckets[i].pebbles;
    k := Choose(ps, false, want).value;
    forall j, l | 0 <= j < i
      ensures !IsHole(h, want, j, l)
    {
      assert !HasFit(h.buckets[j].pebbles, want);
      if IsHole(h, want, j, l) {
        assert Fits(h.buckets[j].pebbles[l], want);
      }
    }
    forall l | 0 <= l < k
      ensures !IsHole(h, want, i, l)
    {
      assert !Fits(ps[l], want);
    }
    assert Fits(ps[k], want);
  }

  lemma OnlyFirst(h: Heap, want: nat, i: nat, k: nat)
    requires IsFirst(h, want, i, k)
    ensures forall j: nat, l: nat | IsFirst(h, want, j, l) :: j == i && l == k
  {
    forall j: nat, l: nat | IsFirst(h, want, j, l)
      ensures j == i && l == k
    {
      assert IsHole(h, want, i, k) && IsHole(h, want, j, l);
    }
  }

  lemma TakenAt(h: Heap, want: nat, i: nat, k: nat)
    requires IsHole(h, want, i, k) && want % MIN_ALIGN == 0
    requires Choose(h.buckets[i].pebbles, h.buckets[i].best, want) == Some(k)
    ensures HoleTaken(h, MallocFrom(h, want, i).0, want, i, k)
    ensures MallocFrom(h, want, i).0.start == h.start
    ensures MallocFrom(h, want, i).1 == h.buckets[i].pebbles[k].addr + 60
  {
    var p := h.buckets[i].pebbles[k];
    SplitExactly(p.size, want);
    SplitArithmetic(p.size, want);
    var mid := Pieces(p, want);
    assert Placed(h.buckets[i].pebbles, k, want)[k + 0] == mid[0];
  }

  lemma NoneFits(h: Heap, want: nat)
    requires FindBucket(h.buckets, want, 0) == None
    ensures NoHole(h, want)
  {
    forall i, k
      ensures !IsHole(h, want, i, k)
    {
      if IsHole(h, want, i, k) {
        assert !HasFit(h.buckets[i].pebbles, want);
        assert Fits(h.buckets[i].pebbles[k], want);
        assert false;
      }
    }
  }

  lemma FreshAnswer(h: Heap, want: nat, b: Bucket)
    requires HeapOk(h) && want % MIN_ALIGN == 0 && BucketOk(b) && b.WhollyFree() && b.base == h.end
    ensures SecondIsNew(h, WithBucket(h, Place(b, want).0))
    ensures Place(b, want).1 == if want + 124 <= 4096 * b.pages then h.end + 124 else 0
  {
    PlaceKeeps(b, want);
    EmptyBucket(b);
    assert HasFit(b.pebbles, want) <==> Fits(b.pebbles[0], want);
    var cs := Insert(h.buckets, Place(b, want).0);
    assert cs[0] == h.buckets[0] && cs[1] == Place(b, want).0;
  }

  // ----- kfree -----

  /** kfree gives the bucket back if and only if it is not the initial one and holds no other block in use; every other
      bucket stays as it is, in its place. */
  lemma FreePlaces(h: Heap, i: nat, k: nat)
    requires HeapOk(h) && i < |h.buckets| && k < |h.buckets[i].pebbles|
    ensures var ps, h' := h.buckets[i].pebbles, FreeAt(h, i, k);
            && h'.start == h.start && h'.end == h.end
            && if i > 0 && (forall l | 0 <= l < |ps| && l != k :: !ps[l].used)
               then h'.buckets == h.buckets[..i] + h.buckets[i + 1..]
               else |h'.buckets| == |h.buckets| && h'.buckets[i].base == h.buckets[i].base
                    && forall j | 0 <= j < |h.buckets| && j != i :: h'.buckets[j] == h.buckets[j]
  {
    assert BucketOk(h.buckets[i]);
    EmptiedIff(h.buckets[i], k);
    if i > 0 { BasesDiffer(h, i); }
  }

  lemma EmptiedIff(b: Bucket, k: nat)
    requires BucketOk(b) && k < |b.pebbles|
    ensures b.With(Freed(b.pebbles, k)).WhollyFree() <==> forall l | 0 <= l < |b.pebbles| && l != k :: !b.pebbles[l].used
  {
    var ps, qs := b.pebbles, Freed(b.pebbles, k);
    FreedKeeps(ps, b.Start(), b.Limit(), k);
    if forall l | 0 <= l < |qs| :: !qs[l].used {
      AllFreeIsOne(qs, b.Start(), b.Limit());
    }
    UsedAfter(b, k);
  }

  lemma UsedAfter(b: Bucket, k: nat)
    requires BucketOk(b) && k < |b.pebbles|
    ensures (forall l | 0 <= l < |Freed(b.pebbles, k)| :: !Freed(b.pebbles, k)[l].used) <==>
            forall l | 0 <= l < |b.pebbles| && l != k :: !b.pebbles[l].used
  {
    var ps, qs := b.pebbles, Freed(b.pebbles, k);
    if ps[k].used {
      forall p: Pebble
        ensures IsLive(qs, p) <==> IsLive(ps, p) && p != ps[k]
      {
        FreedLive(ps, b.Start(), b.Limit(), k, p);
      }
      Distinct(ps, b.Start(), b.Limit());
      SameUsed(ps, qs, k);
    } else {
      FreedAgain(ps, k);
    }
  }

  lemma SameUsed(ps: seq<Pebble>, qs: seq<Pebble>, k: nat)
    requires k < |ps| && ps[k].used && forall i, j | 0 <= i < j < |ps| :: ps[i].addr < ps[j].addr
    requires forall p :: IsLive(qs, p) <==> IsLive(ps, p) && p != ps[k]
    ensures (forall l | 0 <= l < |qs| :: !qs[l].used) <==> forall l | 0 <= l < |ps| && l != k :: !ps[l].used
  {
    forall l | 0 <= l < |ps| && l != k && ps[l].used
      ensures IsLive(qs, ps[l])
    {
      assert IsLive(ps, ps[l]);
    }
    forall l | 0 <= l < |qs| && qs[l].used
      ensures IsLive(ps, qs[l]) && qs[l] != ps[k]
    {
      assert IsLive(qs, qs[l]);
    }
  }
}
