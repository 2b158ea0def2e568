/** How pebble and bucket headers that point at each other by address represent sequences, and
    what the header stores of bucketalloc.c do to the sequences they represent. */
module HeaderChains {
  import opened Wrappers
  import opened PebbleLayout
  import opened HeapModel
  import opened HeapTheorems
  import opened HeapRuns

  // ----- headers represent sequences -----

  datatype PebbleHeader = PebbleHeader(used: bool, size: nat, parent: nat, prev: nat, next: nat)
  datatype BucketHeader = BucketHeader(best: bool, largest: nat, size: nat, first: nat, prev: nat, next: nat)

  type PebbleMap = map<nat, PebbleHeader>
  type BucketMap = map<nat, BucketHeader>

  function PrevAddr(ps: seq<Pebble>, k: nat): nat
    requires k < |ps|
  {
    if k == 0 then 0 else ps[k - 1].addr
  }

  function NextAddr(ps: seq<Pebble>, k: nat): nat
    requires k < |ps|
  {
    if k + 1 == |ps| then 0 else ps[k + 1].addr
  }

  /** The header of pebble `k` with its links: `prev` and `next` are mutual inverses. */
  function HeaderOf(base: nat, ps: seq<Pebble>, k: nat): PebbleHeader
    requires k < |ps|
  {
    PebbleHeader(ps[k].used, ps[k].size, base, PrevAddr(ps, k), NextAddr(ps, k))
  }

  ghost predicate LinkedAt(pm: PebbleMap, base: nat, ps: seq<Pebble>, k: nat) {
    k < |ps| ==> ps[k].addr in pm && pm[ps[k].addr] == HeaderOf(base, ps, k)
  }

  /** The headers represent the sequence `ps`. */
  ghost predicate Chain(pm: PebbleMap, base: nat, ps: seq<Pebble>) {
    forall k :: LinkedAt(pm, base, ps, k)
  }

  function BucketHeaderOf(bs: seq<Bucket>, i: nat): BucketHeader
    requires i < |bs|
  {
    BucketHeader(bs[i].best, bs[i].largest, bs[i].pages, bs[i].Start(),
                 if i == 0 then 0 else bs[i - 1].base, if i + 1 == |bs| then 0 else bs[i + 1].base)
  }

  ghost predicate BucketAt(bm: BucketMap, bs: seq<Bucket>, i: nat) {
    i < |bs| ==> bs[i].base in bm && bm[bs[i].base] == BucketHeaderOf(bs, i)
  }

  ghost predicate BucketChain(bm: BucketMap, bs: seq<Bucket>) {
    forall i :: BucketAt(bm, bs, i)
  }

  ghost predicate PebblesAt(pm: PebbleMap, bs: seq<Bucket>, i: nat) {
    i < |bs| ==> Chain(pm, bs[i].base, bs[i].pebbles)
  }

  /** The headers in memory represent the buckets `bs` with their pebbles. */
  ghost predicate Represents(pm: PebbleMap, bm: BucketMap, bs: seq<Bucket>) {
    BucketChain(bm, bs) && forall i :: PebblesAt(pm, bs, i)
  }

  /** Headers outside the bytes from `lo` up to `hi` are untouched. */
  ghost predicate SameOutside(pm: PebbleMap, pm': PebbleMap, lo: nat, hi: nat) {
    forall a | a in pm && (a < lo || hi <= a) :: a in pm' && pm'[a] == pm[a]
  }

  ghost predicate SameAt<T>(m: map<nat, T>, m': map<nat, T>, a: nat) {
    if a in m then a in m' && m'[a] == m[a] else a !in m'
  }

  /** The two maps differ at most at the addresses in `keys`. */
  ghost predicate OnlyAt<T>(m: map<nat, T>, m': map<nat, T>, keys: set<nat>) {
    forall a | a !in keys :: SameAt(m, m', a)
  }

  lemma OnlyAtTrans<T>(m0: map<nat, T>, m1: map<nat, T>, m2: map<nat, T>, keys0: set<nat>, keys: set<nat>)
    requires OnlyAt(m0, m1, keys0) && OnlyAt(m1, m2, keys) && keys0 <= keys
    ensures OnlyAt(m0, m2, keys)
  {
    forall a | a !in keys
      ensures SameAt(m0, m2, a)
    {
      assert SameAt(m0, m1, a) && SameAt(m1, m2, a);
    }
  }

  lemma ChainFrame(pm: PebbleMap, pm': PebbleMap, b: Bucket, lo: nat, hi: nat)
    requires Tiled(b.pebbles, b.Start(), b.Limit()) && Chain(pm, b.base, b.pebbles)
    requires SameOutside(pm, pm', lo, hi) && (b.Limit() <= lo || hi <= b.Start())
    ensures Chain(pm', b.base, b.pebbles)
  {
    forall k: nat | k < |b.pebbles|
      ensures LinkedAt(pm', b.base, b.pebbles, k)
    {
      assert LinkedAt(pm, b.base, b.pebbles, k);
      InRange(b.pebbles, b.Start(), b.Limit(), k);
    }
  }

  /** The header of a bucket knows its first pebble and the largest size. */
  ghost predicate CacheOk(bm: BucketMap, base: nat, lo: nat, ps: seq<Pebble>) {
    base in bm && bm[base].first == lo && bm[base].largest == LargestSize(ps)
  }

  /** Nothing but the cached size of bucket `base` differs. */
  ghost predicate OnlyCache(bm: BucketMap, bm': BucketMap, base: nat) {
    && bm'.Keys == bm.Keys
    && (forall c | c in bm && c != base :: bm'[c] == bm[c])
    && (base in bm ==> bm'[base] == bm[base].(largest := bm'[base].largest))
  }

  lemma CacheStored(bm: BucketMap, bm': BucketMap, base: nat, lo: nat, ps: seq<Pebble>)
    requires OnlyCache(bm, bm', base) && CacheOk(bm', base, lo, ps)
    ensures base in bm && bm' == bm[base := bm[base].(largest := LargestSize(ps))]
  {
  }

  // ----- stores to pebble headers -----

  /** Setting one flag. */
  lemma MarkChain(pm: PebbleMap, base: nat, ps: seq<Pebble>, k: nat, used: bool, lo: nat, hi: nat)
    requires Tiled(ps, lo, hi) && Chain(pm, base, ps) && k < |ps| && ps[k].addr in pm
    ensures Chain(pm[ps[k].addr := pm[ps[k].addr].(used := used)], base, ps[k := ps[k].(used := used)])
  {
    var pm' := pm[ps[k].addr := pm[ps[k].addr].(used := used)];
    var qs := ps[k := ps[k].(used := used)];
    forall j: nat | j < |qs|
      ensures LinkedAt(pm', base, qs, j)
    {
      assert LinkedAt(pm, base, ps, j);
      if j < k { Ordered(ps, lo, hi, j, k); } else if k < j { Ordered(ps, lo, hi, k, j); }
    }
  }

  /** What split_pebble makes of a pebble, before the caller sets the flags. */
  function Halves(p: Pebble, want: nat): seq<Pebble>
    requires p.size >= want && want % MIN_ALIGN == 0
  {
    var qs := Pieces(p, want);
    qs[0 := qs[0].(used := p.used)]
  }

  lemma HalvesOf(p: Pebble, want: nat)
    requires p.size >= want && want % MIN_ALIGN == 0
    ensures !SplitGuard(p.size, want) ==> Halves(p, want) == [p]
    ensures SplitGuard(p.size, want) ==>
              && p.size >= want + PEBBLE_HEADER
              && Halves(p, want) == [Pebble(p.addr, want, p.used),
                                     Pebble(p.addr + PEBBLE_HEADER + want, p.size - want - PEBBLE_HEADER, p.used)]
    ensures Tiled(Halves(p, want), p.addr, p.End())
  {
    SplitArithmetic(p.size, want);
  }

  /** The three header stores of split_pebble. */
  ghost predicate SplitStores(pm: PebbleMap, pm': PebbleMap, base: nat, ps: seq<Pebble>, k: nat, want: nat)
    requires k < |ps| && ps[k].size >= want + PEBBLE_HEADER
  {
    var a, b, next := ps[k].addr, ps[k].addr + PEBBLE_HEADER + want, NextAddr(ps, k);
    && a in pm' && b in pm' && (next != 0 ==> next in pm && next in pm')
    && pm'[a] == HeaderOf(base, ps, k).(size := want, next := b)
    && pm'[b] == HeaderOf(base, ps, k).(size := ps[k].size - want - PEBBLE_HEADER, prev := a)
    && (next != 0 ==> pm'[next] == pm[next].(prev := b))
    && forall c | c != a && c != b && (next == 0 || c != next) :: SameAt(pm, pm', c)
  }

  /** What split_pebble finds at pebble `k`. */
  lemma SplitLinks(pm: PebbleMap, base: nat, ps: seq<Pebble>, k: nat, want: nat, lo: nat, hi: nat)
    requires Tiled(ps, lo, hi) && Chain(pm, base, ps) && k < |ps| && want % MIN_ALIGN == 0 && want <= ps[k].size
    ensures lo <= ps[k].addr && ps[k].End() <= hi
    ensures ps[k].addr in pm && pm[ps[k].addr] == HeaderOf(base, ps, k)
    ensures var next := NextAddr(ps, k); next != 0 ==> next in pm && ps[k].End() <= next < hi
    ensures RoundUp(want) == want
    ensures if SplitGuard(ps[k].size, want) then ps[k].size >= want + PEBBLE_HEADER
            else Splice(ps, k, k + 1, Halves(ps[k], want)) == ps
  {
    assert LinkedAt(pm, base, ps, k);
    InRange(ps, lo, hi, k);
    if k + 1 < |ps| {
      assert LinkedAt(pm, base, ps, k + 1);
      InRange(ps, lo, hi, k + 1);
    }
    SplitArithmetic(ps[k].size, want);
    HalvesOf(ps[k], want);
  }

  /** `qs` is `ps` with pebble `k` split behind `want` bytes. */
  ghost predicate IsSplit(ps: seq<Pebble>, qs: seq<Pebble>, k: nat, want: nat)
    requires k < |ps| && ps[k].size >= want + PEBBLE_HEADER
  {
    && |qs| == |ps| + 1
    && (forall x | 0 <= x < k :: qs[x] == ps[x])
    && qs[k] == Pebble(ps[k].addr, want, ps[k].used)
    && qs[k + 1] == Pebble(ps[k].addr + PEBBLE_HEADER + want, ps[k].size - want - PEBBLE_HEADER, ps[k].used)
    && (forall x, y | k + 2 <= x < |qs| && y == x - 1 :: qs[x] == ps[y])
  }

  lemma SplicedIsSplit(ps: seq<Pebble>, k: nat, want: nat)
    requires k < |ps| && want % MIN_ALIGN == 0 && ps[k].size >= want + PEBBLE_HEADER && SplitGuard(ps[k].size, want)
    ensures IsSplit(ps, Splice(ps, k, k + 1, Halves(ps[k], want)), k, want)
  {
    var mid := Halves(ps[k], want);
    HalvesOf(ps[k], want);
    var qs := Splice(ps, k, k + 1, mid);
    assert qs[k + 0] == mid[0] && qs[k + 1] == mid[1];
  }

  lemma SplitChain(pm: PebbleMap, pm': PebbleMap, base: nat, ps: seq<Pebble>, k: nat, want: nat, lo: nat, hi: nat)
    requires Tiled(ps, lo, hi) && 0 < lo && Chain(pm, base, ps) && k < |ps|
    requires want % MIN_ALIGN == 0 && ps[k].size >= want + PEBBLE_HEADER && SplitGuard(ps[k].size, want)
    requires SplitStores(pm, pm', base, ps, k, want)
    ensures Chain(pm', base, Splice(ps, k, k + 1, Halves(ps[k], want)))
  {
    var qs := Splice(ps, k, k + 1, Halves(ps[k], want));
    SplicedIsSplit(ps, k, want);
    forall j: nat | j < |qs|
      ensures LinkedAt(pm', base, qs, j)
    {
      if j < k {
        SplitBefore(pm, pm', base, ps, qs, k, want, lo, hi, j);
      } else if j >= k + 2 {
        SplitBehind(pm, pm', base, ps, qs, k, want, lo, hi, j);
      } else {
        SplitHere(pm, pm', base, ps, qs, k, want, j);
      }
    }
  }

  /** The stores touch headers of the new chain only. */
  lemma SplitOnly(pm: PebbleMap, pm': PebbleMap, base: nat, ps: seq<Pebble>, qs: seq<Pebble>, k: nat, want: nat)
    requires k < |ps| && ps[k].size >= want + PEBBLE_HEADER && IsSplit(ps, qs, k, want)
    requires SplitStores(pm, pm', base, ps, k, want)
    ensures OnlyAt(pm, pm', Addrs(qs))
  {
    SplitAddrs(ps, qs, k, want);
  }

  lemma SplitAddrs(ps: seq<Pebble>, qs: seq<Pebble>, k: nat, want: nat)
    requires k < |ps| && ps[k].size >= want + PEBBLE_HEADER && IsSplit(ps, qs, k, want)
    ensures ps[k].addr in Addrs(qs) && ps[k].addr + PEBBLE_HEADER + want in Addrs(qs)
    ensures NextAddr(ps, k) != 0 ==> NextAddr(ps, k) in Addrs(qs)
  {
    assert qs[k] in qs && qs[k + 1] in qs;
    if k + 1 < |ps| { assert qs[k + 2] == ps[k + 1] && qs[k + 2] in qs; }
  }

  lemma SplitHere(pm: PebbleMap, pm': PebbleMap, base: nat, ps: seq<Pebble>, qs: seq<Pebble>, k: nat, want: nat, j: nat)
    requires k < |ps| && ps[k].size >= want + PEBBLE_HEADER && IsSplit(ps, qs, k, want) && k <= j <= k + 1
    requires SplitStores(pm, pm', base, ps, k, want)
    ensures LinkedAt(pm', base, qs, j)
  {
    assert k + 1 < |ps| ==> qs[k + 2] == ps[k + 1];
    assert k > 0 ==> qs[k - 1] == ps[k - 1];
  }

  lemma SplitBefore(pm: PebbleMap, pm': PebbleMap, base: nat, ps: seq<Pebble>, qs: seq<Pebble>, k: nat, want: nat,
                    lo: nat, hi: nat, j: nat)
    requires Tiled(ps, lo, hi) && 0 < lo && Chain(pm, base, ps) && j < k < |ps|
    requires ps[k].size >= want + PEBBLE_HEADER && IsSplit(ps, qs, k, want) && SplitStores(pm, pm', base, ps, k, want)
    ensures LinkedAt(pm', base, qs, j)
  {
    assert LinkedAt(pm, base, ps, j);
    assert j > 0 ==> qs[j - 1] == ps[j - 1];
    assert j + 1 < k ==> qs[j + 1] == ps[j + 1];
    Ordered(ps, lo, hi, j, k);
    if k + 1 < |ps| { Ordered(ps, lo, hi, j, k + 1); }
    assert SameAt(pm, pm', ps[j].addr);
  }

  lemma SplitBehind(pm: PebbleMap, pm': PebbleMap, base: nat, ps: seq<Pebble>, qs: seq<Pebble>, k: nat, want: nat,
                    lo: nat, hi: nat, j: nat)
    requires Tiled(ps, lo, hi) && 0 < lo && Chain(pm, base, ps) && k + 2 <= j <= |ps|
    requires ps[k].size >= want + PEBBLE_HEADER && IsSplit(ps, qs, k, want) && SplitStores(pm, pm', base, ps, k, want)
    ensures LinkedAt(pm', base, qs, j)
  {
    assert qs[j] == ps[j - 1] && (j > k + 2 ==> qs[j - 1] == ps[j - 2]) && (j + 1 < |qs| ==> qs[j + 1] == ps[j]);
    assert LinkedAt(pm, base, ps, j - 1);
    Ordered(ps, lo, hi, k, j - 1);
    if j > k + 2 {
      Ordered(ps, lo, hi, k + 1, j - 1);
      assert SameAt(pm, pm', ps[j - 1].addr);
    }
  }

  lemma TakenIsPlaced(pm: PebbleMap, base: nat, ps: seq<Pebble>, k: nat, want: nat, lo: nat, hi: nat)
    requires Tiled(ps, lo, hi) && k < |ps| && want % MIN_ALIGN == 0 && want <= ps[k].size
    requires Chain(pm, base, Splice(ps, k, k + 1, Halves(ps[k], want)))
    ensures ps[k].addr in pm
    ensures Chain(pm[ps[k].addr := pm[ps[k].addr].(used := true)], base, Placed(ps, k, want))
  {
    var mid := Halves(ps[k], want);
    var qs := Splice(ps, k, k + 1, mid);
    HalvesOf(ps[k], want);
    SpliceTiled(ps, lo, hi, k, k + 1, mid);
    assert qs[k + 0] == mid[0];
    assert LinkedAt(pm, base, qs, k);
    MarkChain(pm, base, qs, k, true, lo, hi);
    HalvesPlaced(ps, k, want);
  }

  lemma TakenOnly(pm: PebbleMap, pm': PebbleMap, ps: seq<Pebble>, k: nat, want: nat)
    requires k < |ps| && want % MIN_ALIGN == 0 && want <= ps[k].size && ps[k].addr in pm'
    requires OnlyAt(pm, pm', Addrs(Splice(ps, k, k + 1, Halves(ps[k], want))))
    ensures OnlyAt(pm, pm'[ps[k].addr := pm'[ps[k].addr].(used := true)], Addrs(Placed(ps, k, want)))
  {
    var qs, rs := Splice(ps, k, k + 1, Halves(ps[k], want)), Placed(ps, k, want);
    HalvesPlaced(ps, k, want);
    forall j | 0 <= j < |qs|
      ensures qs[j].addr in Addrs(rs)
    {
      assert rs[j] in rs && rs[j].addr == qs[j].addr;
    }
    assert qs[k] in qs && rs[k].addr == qs[k].addr == ps[k].addr;
    forall a | a !in Addrs(rs)
      ensures SameAt(pm, pm'[ps[k].addr := pm'[ps[k].addr].(used := true)], a)
    {
      assert SameAt(pm, pm', a);
    }
  }

  lemma HalvesPlaced(ps: seq<Pebble>, k: nat, want: nat)
    requires k < |ps| && want % MIN_ALIGN == 0 && want <= ps[k].size
    ensures var qs := Splice(ps, k, k + 1, Halves(ps[k], want));
            k < |qs| && qs[k := qs[k].(used := true)] == Placed(ps, k, want)
  {
    var mid := Halves(ps[k], want);
    assert mid[0 := mid[0].(used := true)] == Pieces(ps[k], want);
    MarkedSplice(ps, k, mid);
  }

  lemma MarkedSplice(ps: seq<Pebble>, k: nat, mid: seq<Pebble>)
    requires k < |ps| && |mid| > 0
    ensures var qs := Splice(ps, k, k + 1, mid);
            qs[k := qs[k].(used := true)] == Splice(ps, k, k + 1, mid[0 := mid[0].(used := true)])
  {
    var m := mid[0].(used := true);
    MarkMiddle(ps[..k], mid[0], mid[1..], ps[k + 1..], m);
    assert mid == [mid[0]] + mid[1..] && mid[0 := m] == [m] + mid[1..];
  }

  /** `first` after header `gone` was merged into `heir`. */
  function Instead(first: nat, gone: nat, heir: nat): nat {
    if first == gone then heir else first
  }

  /** The two header stores of a merge. */
  ghost predicate MergeStores(pm: PebbleMap, pm': PebbleMap, base: nat, ps: seq<Pebble>, k: nat)
    requires k + 1 < |ps|
  {
    var a, next, after := ps[k].addr, ps[k + 1].addr, NextAddr(ps, k + 1);
    && a in pm' && (after != 0 ==> after in pm && after in pm')
    && pm'[a] == HeaderOf(base, ps, k).(size := ps[k].size + ps[k + 1].size + PEBBLE_HEADER, next := after)
    && (after != 0 ==> pm'[after] == pm[after].(prev := a))
    && forall c | c in pm && c != a && c != after :: c in pm' && pm'[c] == pm[c]
  }

  lemma MergeChain(pm: PebbleMap, pm': PebbleMap, base: nat, ps: seq<Pebble>, k: nat, lo: nat, hi: nat)
    requires Tiled(ps, lo, hi) && 0 < lo && Chain(pm, base, ps) && k + 1 < |ps| && !ps[k].used
    requires MergeStores(pm, pm', base, ps, k)
    ensures Chain(pm', base, Merged(ps, k))
  {
    var qs := Merged(ps, k);
    forall j: nat | j < |qs|
      ensures LinkedAt(pm', base, qs, j)
    {
      if j < k {
        assert LinkedAt(pm, base, ps, j);
        Ordered(ps, lo, hi, j, k);
        if k + 2 < |ps| { Ordered(ps, lo, hi, j, k + 2); }
      } else if j > k {
        MergeBehind(pm, pm', base, ps, k, lo, hi, j);
      } else if k + 1 < |qs| {
        assert qs[k + 1] == ps[k + 2];
      }
    }
  }

  lemma MergeBehind(pm: PebbleMap, pm': PebbleMap, base: nat, ps: seq<Pebble>, k: nat, lo: nat, hi: nat, j: nat)
    requires Tiled(ps, lo, hi) && 0 < lo && Chain(pm, base, ps) && k + 1 < |ps| && k < j < |ps| - 1
    requires MergeStores(pm, pm', base, ps, k)
    ensures LinkedAt(pm', base, Merged(ps, k), j)
  {
    var qs := Merged(ps, k);
    assert LinkedAt(pm, base, ps, j + 1);
    assert qs[j] == ps[j + 1] && (j > k + 1 ==> qs[j - 1] == ps[j]) && (j + 1 < |qs| ==> qs[j + 1] == ps[j + 2]);
    Ordered(ps, lo, hi, k, j + 1);
    if j > k + 1 { Ordered(ps, lo, hi, k + 2, j + 1); }
  }

  // ----- the stores of kfree -----

  /** Header `b` merged into header `a`, as absorb_next and melt_prev do it: `b` itself stays as it is. */
  function Swallowed(pm: PebbleMap, a: nat, b: nat): (pm': PebbleMap)
    requires a in pm && b in pm
    ensures pm'.Keys == pm.Keys
  {
    var after := pm[b].next;
    var joined := pm[a := pm[a].(size := pm[a].size + pm[b].size + PEBBLE_HEADER, next := after)];
    if after != 0 && after in pm then joined[after := joined[after].(prev := a)] else joined
  }

  /** melt_prev: the headers, and the pebble that remains. */
  function MeltStores(pm: PebbleMap, x: nat): (r: (PebbleMap, nat))
    requires x in pm
    ensures r.0.Keys == pm.Keys && r.1 in r.0
  {
    var prev := pm[x].prev;
    if prev != 0 && prev in pm && !pm[prev].used then (Swallowed(pm, prev, x), prev) else (pm, x)
  }

  /** absorb_next. */
  function AbsorbStores(pm: PebbleMap, x: nat): (pm': PebbleMap)
    requires x in pm
    ensures pm'.Keys == pm.Keys
  {
    var next := pm[x].next;
    if next != 0 && next in pm && !pm[next].used then Swallowed(pm, x, next) else pm
  }

  function MarkedFree(pm: PebbleMap, x: nat): (pm': PebbleMap)
    requires x in pm
    ensures pm'.Keys == pm.Keys
  {
    pm[x := pm[x].(used := false)]
  }

  /** What kfree stores to pebble headers, whatever header it is given. */
  function FreeStores(pm: PebbleMap, x: nat): (pm': PebbleMap)
    requires x in pm
    ensures pm'.Keys == pm.Keys
  {
    var (melted, r) := MeltStores(MarkedFree(pm, x), x);
    AbsorbStores(melted, r)
  }

  /** The same from the pointer on: only an address with a header in front of it is looked at. */
  function KFreeStores(pm: PebbleMap, ptr: nat): (pm': PebbleMap)
    ensures pm'.Keys == pm.Keys
  {
    if ptr < PEBBLE_HEADER || ptr - PEBBLE_HEADER !in pm then pm else FreeStores(pm, ptr - PEBBLE_HEADER)
  }

  /** What a merge finds at pebble `k` and behind it. */
  lemma MergeLinks(pm: PebbleMap, base: nat, ps: seq<Pebble>, k: nat)
    requires Chain(pm, base, ps) && k + 1 < |ps|
    ensures var a, b, c := ps[k].addr, ps[k + 1].addr, NextAddr(ps, k + 1);
            a in pm && b in pm && pm[a].next == b && pm[b].next == c && (c != 0 ==> c in pm)
  {
    assert LinkedAt(pm, base, ps, k) && LinkedAt(pm, base, ps, k + 1) && LinkedAt(pm, base, ps, k + 2);
  }

  lemma SwallowedChain(pm: PebbleMap, base: nat, ps: seq<Pebble>, k: nat, lo: nat, hi: nat)
    requires Tiled(ps, lo, hi) && 0 < lo && Chain(pm, base, ps) && k + 1 < |ps| && !ps[k].used
    ensures ps[k].addr in pm && ps[k + 1].addr in pm
    ensures Chain(Swallowed(pm, ps[k].addr, ps[k + 1].addr), base, Merged(ps, k))
    ensures SameOutside(pm, Swallowed(pm, ps[k].addr, ps[k + 1].addr), lo, hi)
  {
    assert LinkedAt(pm, base, ps, k) && LinkedAt(pm, base, ps, k + 1) && LinkedAt(pm, base, ps, k + 2);
    Ordered(ps, lo, hi, k, k + 1);
    if k + 2 < |ps| { Ordered(ps, lo, hi, k + 1, k + 2); }
    MergeChain(pm, Swallowed(pm, ps[k].addr, ps[k + 1].addr), base, ps, k, lo, hi);
  }

  lemma MeltChain(pm: PebbleMap, base: nat, ps: seq<Pebble>, k: nat, lo: nat, hi: nat)
    requires Tiled(ps, lo, hi) && 0 < lo && Chain(pm, base, ps) && k < |ps| && !ps[k].used
    ensures ps[k].addr in pm && MeltStores(pm, ps[k].addr).1 == ps[MeltIndex(ps, k)].addr
    ensures Chain(MeltStores(pm, ps[k].addr).0, base, LeftMerged(ps, k))
  {
    assert LinkedAt(pm, base, ps, k);
    if k > 0 {
      assert LinkedAt(pm, base, ps, k - 1);
      InRange(ps, lo, hi, k - 1);
      if !ps[k - 1].used {
        SwallowedChain(pm, base, ps, k - 1, lo, hi);
      }
    }
  }

  lemma AbsorbChain(pm: PebbleMap, base: nat, ps: seq<Pebble>, k: nat, lo: nat, hi: nat)
    requires Tiled(ps, lo, hi) && 0 < lo && Chain(pm, base, ps) && k < |ps| && !ps[k].used
    ensures ps[k].addr in pm && Chain(AbsorbStores(pm, ps[k].addr), base, Absorbed(ps, k))
  {
    assert LinkedAt(pm, base, ps, k);
    if k + 1 < |ps| {
      assert LinkedAt(pm, base, ps, k + 1);
      InRange(ps, lo, hi, k + 1);
      if !ps[k + 1].used {
        SwallowedChain(pm, base, ps, k, lo, hi);
      }
    }
  }

  /** On a pebble of the chain the stores do what freeing does to the sequence. */
  lemma FreeChain(pm: PebbleMap, base: nat, ps: seq<Pebble>, k: nat, lo: nat, hi: nat)
    requires Tiled(ps, lo, hi) && Coalesced(ps) && 0 < lo && Chain(pm, base, ps) && k < |ps|
    ensures ps[k].addr in pm && Chain(FreeStores(pm, ps[k].addr), base, Freed(ps, k))
  {
    assert LinkedAt(pm, base, ps, k);
    var marked := ps[k := ps[k].(used := false)];
    MarkChain(pm, base, ps, k, false, lo, hi);
    MarkedTiled(ps, lo, hi, k);
    var pm0 := MarkedFree(pm, ps[k].addr);
    MeltChain(pm0, base, marked, k, lo, hi);
    MeltedKeeps(ps, lo, hi, k);
    MeltedAt(ps, k);
    AbsorbChain(MeltStores(pm0, ps[k].addr).0, base, Melted(ps, k), MeltIndex(ps, k), lo, hi);
  }

  /** A merge changes headers of the chain only ... */
  lemma SwallowedOnly(pm: PebbleMap, base: nat, ps: seq<Pebble>, k: nat)
    requires Chain(pm, base, ps) && k + 1 < |ps|
    ensures ps[k].addr in pm && ps[k + 1].addr in pm
    ensures OnlyAt(pm, Swallowed(pm, ps[k].addr, ps[k + 1].addr), Addrs(ps))
  {
    MergeLinks(pm, base, ps, k);
    assert ps[k] in ps && (k + 2 < |ps| ==> ps[k + 2] in ps);
  }

  lemma MeltOnly(pm: PebbleMap, base: nat, ps: seq<Pebble>, k: nat)
    requires Chain(pm, base, ps) && k < |ps|
    ensures ps[k].addr in pm && OnlyAt(pm, MeltStores(pm, ps[k].addr).0, Addrs(ps))
  {
    assert LinkedAt(pm, base, ps, k);
    if k > 0 {
      SwallowedOnly(pm, base, ps, k - 1);
    }
  }

  lemma AbsorbOnly(pm: PebbleMap, base: nat, ps: seq<Pebble>, k: nat)
    requires Chain(pm, base, ps) && k < |ps|
    ensures ps[k].addr in pm && OnlyAt(pm, AbsorbStores(pm, ps[k].addr), Addrs(ps))
  {
    assert LinkedAt(pm, base, ps, k);
    if k + 1 < |ps| {
      SwallowedOnly(pm, base, ps, k);
    }
  }

  /** ... and so does kfree. */
  lemma FreeOnly(pm: PebbleMap, base: nat, ps: seq<Pebble>, k: nat, lo: nat, hi: nat)
    requires Tiled(ps, lo, hi) && 0 < lo && Chain(pm, base, ps) && k < |ps|
    ensures ps[k].addr in pm && OnlyAt(pm, FreeStores(pm, ps[k].addr), Addrs(ps))
  {
    assert LinkedAt(pm, base, ps, k) && ps[k] in ps;
    var marked, x := ps[k := ps[k].(used := false)], ps[k].addr;
    MarkChain(pm, base, ps, k, false, lo, hi);
    MarkedTiled(ps, lo, hi, k);
    var pm0 := MarkedFree(pm, x);
    MeltOnly(pm0, base, marked, k);
    MeltChain(pm0, base, marked, k, lo, hi);
    MeltedAt(ps, k);
    MeltedAddrs(ps, k);
    var pm1 := MeltStores(pm0, x).0;
    AbsorbOnly(pm1, base, Melted(ps, k), MeltIndex(ps, k));
    assert OnlyAt(pm, pm0, Addrs(ps));
    OnlyAtMore(pm0, pm1, Addrs(marked), Addrs(ps));
    OnlyAtMore(pm1, FreeStores(pm, x), Addrs(Melted(ps, k)), Addrs(ps));
    OnlyAtTrans(pm, pm0, pm1, Addrs(ps), Addrs(ps));
    OnlyAtTrans(pm, pm1, FreeStores(pm, x), Addrs(ps), Addrs(ps));
  }

  lemma OnlyAtMore<T>(m: map<nat, T>, m': map<nat, T>, keys0: set<nat>, keys: set<nat>)
    requires OnlyAt(m, m', keys0) && keys0 <= keys
    ensures OnlyAt(m, m', keys)
  {
  }

  lemma MeltedAt(ps: seq<Pebble>, k: nat)
    requires k < |ps|
    ensures var m := MeltIndex(ps, k);
            && m == MeltIndex(ps[k := ps[k].(used := false)], k)
            && m < |Melted(ps, k)| && Melted(ps, k)[m].addr == ps[m].addr
  {
  }

  // ----- stores to bucket headers -----

  lemma BasesDistinct(h: Heap, i: nat, j: nat)
    requires HeapOk(h) && i < |h.buckets| && j < |h.buckets| && i != j
    ensures h.buckets[i].base != h.buckets[j].base
  {
    BucketNotEmpty(h.buckets[i]);
    BucketNotEmpty(h.buckets[j]);
    assert i < j ==> Apart(h.buckets[i], h.buckets[j]);
    assert j < i ==> Apart(h.buckets[j], h.buckets[i]);
  }

  ghost predicate DistinctBases(bs: seq<Bucket>) {
    && (forall i | 0 <= i < |bs| :: 0 < bs[i].base)
    && (forall i, j | 0 <= i < j < |bs| :: bs[i].base != bs[j].base)
  }

  lemma HeapBases(h: Heap)
    requires HeapOk(h)
    ensures DistinctBases(h.buckets)
  {
    forall i | 0 <= i < |h.buckets|
      ensures 0 < h.buckets[i].base
    {
      assert BucketOk(h.buckets[i]);
    }
    forall i, j | 0 <= i < j < |h.buckets|
      ensures h.buckets[i].base != h.buckets[j].base
    {
      BasesDistinct(h, i, j);
    }
  }

  lemma BasesBelowEnd(h: Heap)
    requires HeapOk(h)
    ensures 0 < h.end && forall i | 0 <= i < |h.buckets| :: h.buckets[i].base < h.end
  {
    forall i | 0 <= i < |h.buckets|
      ensures h.buckets[i].base < h.end
    {
      BucketNotEmpty(h.buckets[i]);
    }
    assert h.buckets[0].base < h.end;
  }

  lemma FreshRepresents(pm: PebbleMap, bm: BucketMap, b: Bucket)
    requires BucketOk(b) && b.WhollyFree()
    requires b.Start() in pm && pm[b.Start()] == PebbleHeader(false, b.pebbles[0].size, b.base, 0, 0)
    requires b.base in bm && bm[b.base] == BucketHeader(b.best, b.largest, b.pages, b.Start(), 0, 0)
    ensures Represents(pm, bm, [b])
  {
    assert forall k: nat :: LinkedAt(pm, b.base, b.pebbles, k);
    assert Chain(pm, b.base, b.pebbles);
    forall i: nat
      ensures PebblesAt(pm, [b], i) && BucketAt(bm, [b], i)
    {
      if i == 0 { assert [b][0] == b; }
    }
  }

  /** The header stores of UPDATE_NODE for a new bucket behind the initial one. */
  ghost predicate InsertStores(bm: BucketMap, bm': BucketMap, bs: seq<Bucket>, b: Bucket)
    requires |bs| > 0
  {
    var next := if |bs| == 1 then 0 else bs[1].base;
    && b.base in bm' && bs[0].base in bm && bs[0].base in bm' && (next != 0 ==> next in bm && next in bm')
    && bm'[b.base] == BucketHeader(b.best, b.largest, b.pages, b.Start(), bs[0].base, next)
    && bm'[bs[0].base] == bm[bs[0].base].(next := b.base)
    && (next != 0 ==> bm'[next] == bm[next].(prev := b.base))
    && forall c | c != b.base && c != bs[0].base && (next == 0 || c != next) :: SameAt(bm, bm', c)
  }

  lemma InsertRepresents(pm: PebbleMap, bm: BucketMap, h: Heap, b: Bucket, pm': PebbleMap, bm': BucketMap)
    requires HeapOk(h) && Represents(pm, bm, h.buckets) && BucketOk(b) && b.base == h.end && b.WhollyFree()
    requires InsertStores(bm, bm', h.buckets, b)
    requires pm' == pm[b.Start() := PebbleHeader(false, b.pebbles[0].size, b.base, 0, 0)]
    ensures Represents(pm', bm', Insert(h.buckets, b))
  {
    var bs, cs := h.buckets, Insert(h.buckets, b);
    HeapBases(h);
    forall j | 0 <= j < |bs|
      ensures bs[j].base != b.base
    {
      BucketNotEmpty(bs[j]);
    }
    InsertChain(bm, bm', bs, b);
    forall i: nat | i < |cs|
      ensures PebblesAt(pm', cs, i)
    {
      if i == 1 {
        assert cs[1] == b;
        assert forall k: nat :: LinkedAt(pm', b.base, b.pebbles, k);
      } else {
        var j := if i == 0 then 0 else i - 1;
        assert cs[i] == bs[j] && PebblesAt(pm, bs, j);
        InsertFrame(pm, pm', h, b, j);
      }
    }
  }

  lemma InsertChain(bm: BucketMap, bm': BucketMap, bs: seq<Bucket>, b: Bucket)
    requires DistinctBases(bs) && BucketChain(bm, bs) && |bs| > 0 && InsertStores(bm, bm', bs, b)
    requires forall j | 0 <= j < |bs| :: bs[j].base != b.base
    ensures BucketChain(bm', Insert(bs, b))
  {
    var cs := Insert(bs, b);
    assert cs[0] == bs[0] && cs[1] == b && (|cs| > 2 ==> cs[2] == bs[1]);
    forall i: nat | i < |cs|
      ensures BucketAt(bm', cs, i)
    {
      if i == 0 {
        assert BucketAt(bm, bs, 0);
      } else if i >= 2 {
        InsertBehind(bm, bm', bs, b, i);
      }
    }
  }

  lemma InsertBehind(bm: BucketMap, bm': BucketMap, bs: seq<Bucket>, b: Bucket, i: nat)
    requires DistinctBases(bs) && BucketChain(bm, bs) && |bs| > 0 && InsertStores(bm, bm', bs, b)
    requires forall j | 0 <= j < |bs| :: bs[j].base != b.base
    requires 2 <= i <= |bs|
    ensures BucketAt(bm', Insert(bs, b), i)
  {
    var cs := Insert(bs, b);
    assert cs[1] == b && cs[i] == bs[i - 1] && (i > 2 ==> cs[i - 1] == bs[i - 2]) && (i + 1 < |cs| ==> cs[i + 1] == bs[i]);
    assert BucketAt(bm, bs, i - 1);
    if i > 2 { assert SameAt(bm, bm', bs[i - 1].base); }
  }

  lemma InsertFrame(pm: PebbleMap, pm': PebbleMap, h: Heap, b: Bucket, i: nat)
    requires HeapOk(h) && i < |h.buckets| && PebblesAt(pm, h.buckets, i) && b.base == h.end
    requires forall a | a in pm && a != b.Start() :: a in pm' && pm'[a] == pm[a]
    ensures PebblesAt(pm', h.buckets, i)
  {
    assert BucketOk(h.buckets[i]);
    ChainFrame(pm, pm', h.buckets[i], b.Start(), b.Start() + 1);
  }

  /** The two header stores of remove_bucket. */
  ghost predicate RemoveStores(bm: BucketMap, bm': BucketMap, bs: seq<Bucket>, i: nat)
    requires 0 < i < |bs|
  {
    var prev, next := bs[i - 1].base, if i + 1 == |bs| then 0 else bs[i + 1].base;
    && prev in bm && prev in bm' && bm'[prev] == bm[prev].(next := next)
    && (next != 0 ==> next in bm && next in bm' && bm'[next] == bm[next].(prev := prev))
    && forall c | c != prev && (next == 0 || c != next) :: SameAt(bm, bm', c)
  }

  lemma RemoveChain(bm: BucketMap, bm': BucketMap, bs: seq<Bucket>, i: nat)
    requires DistinctBases(bs) && BucketChain(bm, bs) && 0 < i < |bs| && RemoveStores(bm, bm', bs, i)
    ensures BucketChain(bm', bs[..i] + bs[i + 1..])
  {
    var cs := bs[..i] + bs[i + 1..];
    forall j: nat | j < |cs|
      ensures BucketAt(bm', cs, j)
    {
      if j < i {
        assert cs[j] == bs[j] && (j > 0 ==> cs[j - 1] == bs[j - 1]) && (j + 1 < i ==> cs[j + 1] == bs[j + 1]);
        assert j + 1 == i < |cs| ==> cs[j + 1] == bs[i + 1];
        assert BucketAt(bm, bs, j);
        if j + 1 < i { assert SameAt(bm, bm', bs[j].base); }
      } else {
        RemoveBehind(bm, bm', bs, i, j);
      }
    }
  }

  lemma RemoveBehind(bm: BucketMap, bm': BucketMap, bs: seq<Bucket>, i: nat, j: nat)
    requires DistinctBases(bs) && BucketChain(bm, bs) && 0 < i <= j < |bs| - 1 && RemoveStores(bm, bm', bs, i)
    ensures BucketAt(bm', bs[..i] + bs[i + 1..], j)
  {
    var cs := bs[..i] + bs[i + 1..];
    assert cs[j] == bs[j + 1] && (j > i ==> cs[j - 1] == bs[j]) && (j + 1 < |cs| ==> cs[j + 1] == bs[j + 2]);
    assert cs[i - 1] == bs[i - 1];
    assert BucketAt(bm, bs, j + 1);
    if j > i { assert SameAt(bm, bm', bs[j + 1].base); }
  }

  lemma RemovePebbles(pm: PebbleMap, bs: seq<Bucket>, i: nat, cs: seq<Bucket>)
    requires i < |bs| && forall j :: PebblesAt(pm, bs, j)
    requires cs == bs[..i] + bs[i + 1..]
    ensures forall j :: PebblesAt(pm, cs, j)
  {
    forall j: nat | j < |cs|
      ensures PebblesAt(pm, cs, j)
    {
      assert cs[j] == bs[if j < i then j else j + 1];
      assert PebblesAt(pm, bs, if j < i then j else j + 1);
    }
  }

  /** The heap with new pebbles in bucket `i`. */
  function WithPebbles(h: Heap, i: nat, qs: seq<Pebble>): Heap
    requires i < |h.buckets|
  {
    h.(buckets := h.buckets[i := h.buckets[i].With(qs)])
  }

  lemma UpdatedBucket(pm: PebbleMap, bm: BucketMap, h: Heap, i: nat, qs: seq<Pebble>, pm': PebbleMap, bm': BucketMap)
    requires HeapOk(h) && Represents(pm, bm, h.buckets) && i < |h.buckets|
    requires SameOutside(pm, pm', h.buckets[i].Start(), h.buckets[i].Limit()) && Chain(pm', h.buckets[i].base, qs)
    requires Tiled(qs, h.buckets[i].Start(), h.buckets[i].Limit()) && Coalesced(qs)
    requires h.buckets[i].base in bm
    requires bm' == bm[h.buckets[i].base := bm[h.buckets[i].base].(largest := LargestSize(qs))]
    ensures HeapOk(WithPebbles(h, i, qs)) && Represents(pm', bm', WithPebbles(h, i, qs).buckets)
  {
    ReplaceKeeps(h, i, h.buckets[i].With(qs));
    ReplaceRepresents(pm, bm, h, i, qs, pm', bm');
  }

  /** New pebbles in one bucket, and its cache brought up to date. */
  lemma ReplaceRepresents(pm: PebbleMap, bm: BucketMap, h: Heap, i: nat, qs: seq<Pebble>, pm': PebbleMap, bm': BucketMap)
    requires HeapOk(h) && Represents(pm, bm, h.buckets) && i < |h.buckets|
    requires SameOutside(pm, pm', h.buckets[i].Start(), h.buckets[i].Limit()) && Chain(pm', h.buckets[i].base, qs)
    requires h.buckets[i].base in bm
    requires bm' == bm[h.buckets[i].base := bm[h.buckets[i].base].(largest := LargestSize(qs))]
    ensures Represents(pm', bm', h.buckets[i := h.buckets[i].With(qs)])
  {
    var bs := h.buckets;
    var cs := bs[i := bs[i].With(qs)];
    forall j: nat
      ensures BucketAt(bm', cs, j) && PebblesAt(pm', cs, j)
    {
      assert BucketAt(bm, bs, j) && PebblesAt(pm, bs, j);
      if j < |bs| && j != i {
        BasesDistinct(h, i, j);
        assert BucketOk(bs[i]) && BucketOk(bs[j]);
        assert if i < j then Apart(bs[i], bs[j]) else Apart(bs[j], bs[i]);
        ChainFrame(pm, pm', bs[j], bs[i].Start(), bs[i].Limit());
      }
    }
  }

  // ----- which headers change -----

  ghost function Bases(bs: seq<Bucket>): set<nat> {
    set i | 0 <= i < |bs| :: bs[i].base
  }

  /** Nothing changes but headers that the heap `bs` has. */
  ghost predicate Touches(pm: PebbleMap, pm': PebbleMap, bm: BucketMap, bm': BucketMap, bs: seq<Bucket>) {
    OnlyAt(pm, pm', Headers(bs)) && OnlyAt(bm, bm', Bases(bs))
  }

  lemma TouchesTrans(pm0: PebbleMap, pm1: PebbleMap, pm2: PebbleMap, bm0: BucketMap, bm1: BucketMap, bm2: BucketMap,
                     bs: seq<Bucket>, cs: seq<Bucket>)
    requires Touches(pm0, pm1, bm0, bm1, bs) && Touches(pm1, pm2, bm1, bm2, cs)
    requires Headers(bs) <= Headers(cs) && Bases(bs) <= Bases(cs)
    ensures Touches(pm0, pm2, bm0, bm2, cs)
  {
    OnlyAtTrans(pm0, pm1, pm2, Headers(bs), Headers(cs));
    OnlyAtTrans(bm0, bm1, bm2, Bases(bs), Bases(cs));
  }

  /** Changes to the headers of bucket `i`. */
  lemma TouchesBucket(pm: PebbleMap, pm': PebbleMap, bm: BucketMap, bm': BucketMap, bs: seq<Bucket>, i: nat)
    requires i < |bs| && OnlyAt(pm, pm', Addrs(bs[i].pebbles)) && OnlyAt(bm, bm', {bs[i].base})
    ensures Touches(pm, pm', bm, bm', bs)
  {
    assert Addrs(bs[i].pebbles) <= Headers(bs);
    assert bs[i].base in Bases(bs);
  }

  lemma InsertTouches(pm: PebbleMap, bm: BucketMap, bm': BucketMap, bs: seq<Bucket>, b: Bucket, header: PebbleHeader)
    requires |bs| > 0 && BucketOk(b) && InsertStores(bm, bm', bs, b)
    ensures Touches(pm, pm[b.Start() := header], bm, bm', Insert(bs, b))
  {
    var cs := Insert(bs, b);
    assert cs[1] == b && b.pebbles[0] in cs[1].pebbles && b.Start() in Addrs(cs[1].pebbles);
    assert cs[0] == bs[0] && cs[0].base in Bases(cs) && cs[1].base in Bases(cs);
    if |bs| > 1 { assert cs[2] == bs[1] && cs[2].base in Bases(cs); }
  }

  lemma PlaceKeepsHeaders(bs: seq<Bucket>, i: nat, want: nat)
    requires i < |bs| && want % MIN_ALIGN == 0
    ensures Headers(bs) <= Headers(bs[i := Place(bs[i], want).0]) && Bases(bs) <= Bases(bs[i := Place(bs[i], want).0])
  {
    var c, cs := Choose(bs[i].pebbles, bs[i].best, want), bs[i := Place(bs[i], want).0];
    if c.Some? {
      PlacedAddrs(bs[i].pebbles, c.value, want);
    }
    forall j | 0 <= j < |bs|
      ensures Addrs(bs[j].pebbles) <= Headers(cs) && bs[j].base in Bases(cs)
    {
      assert Addrs(bs[j].pebbles) <= Addrs(cs[j].pebbles) && cs[j].base == bs[j].base;
    }
  }

  lemma RemoveOnly(bm: BucketMap, bm': BucketMap, bs: seq<Bucket>, i: nat)
    requires 0 < i < |bs| && RemoveStores(bm, bm', bs, i)
    ensures OnlyAt(bm, bm', Bases(bs))
  {
    assert bs[i - 1].base in Bases(bs) && (i + 1 < |bs| ==> bs[i + 1].base in Bases(bs));
  }

  lemma SameBases(h: Heap, i: nat, bs: seq<Bucket>)
    requires i < |h.buckets| && exists qs :: bs == WithPebbles(h, i, qs).buckets
    ensures Bases(bs) == Bases(h.buckets)
  {
    forall j | 0 <= j < |bs|
      ensures bs[j].base in Bases(h.buckets) && h.buckets[j].base in Bases(bs)
    {
      assert bs[j].base == h.buckets[j].base;
    }
  }

  /** The header stores miss the payload of every block in use; what is cleared from `ptr` on is left aside. */
  ghost predicate SparesLive<T>(m: map<nat, T>, m': map<nat, T>, size: nat, bs: seq<Bucket>, ptr: nat, len: nat) {
    forall a | !SameAt(m, m', a) && !InClear(a, ptr, len) :: SparesPayloads(a, size, bs)
  }

  lemma UnchangedSpares<T>(m: map<nat, T>, size: nat, bs: seq<Bucket>, ptr: nat, len: nat)
    ensures SparesLive(m, m, size, bs, ptr, len)
  {
  }

  lemma TouchesSpares(pm: PebbleMap, pm1: PebbleMap, pm2: PebbleMap, bm: BucketMap, bm1: BucketMap, bm2: BucketMap,
                      h: Heap, ptr: nat, len: nat)
    requires HeapOk(h) && Touches(pm, pm1, bm, bm1, h.buckets)
    requires forall a | !InClear(a, ptr, len) :: SameAt(pm1, pm2, a) && SameAt(bm1, bm2, a)
    ensures SparesLive(pm, pm2, PEBBLE_HEADER, h.buckets, ptr, len)
    ensures SparesLive(bm, bm2, BUCKET_HEADER, h.buckets, ptr, len)
  {
    forall a | !SameAt(pm, pm2, a) && !InClear(a, ptr, len)
      ensures SparesPayloads(a, PEBBLE_HEADER, h.buckets)
    {
      assert SameAt(pm1, pm2, a) && !SameAt(pm, pm1, a);
      HeaderSpares(h, a);
    }
    forall a | !SameAt(bm, bm2, a) && !InClear(a, ptr, len)
      ensures SparesPayloads(a, BUCKET_HEADER, h.buckets)
    {
      assert SameAt(bm1, bm2, a) && !SameAt(bm, bm1, a);
      var i :| 0 <= i < |h.buckets| && h.buckets[i].base == a;
      BucketSpares(h, i);
    }
  }

  lemma KeysAfter(pm: PebbleMap, pm': PebbleMap, bs: seq<Bucket>)
    requires OnlyAt(pm, pm', Headers(bs)) && forall i :: PebblesAt(pm', bs, i)
    ensures pm'.Keys == pm.Keys + Headers(bs)
  {
    HeadersPresent(pm', bs);
    forall a | a !in Headers(bs)
      ensures a in pm <==> a in pm'
    {
      assert SameAt(pm, pm', a);
    }
  }

  lemma HeadersPresent(pm: PebbleMap, bs: seq<Bucket>)
    requires forall i :: PebblesAt(pm, bs, i)
    ensures Headers(bs) <= pm.Keys
  {
    forall i: nat, k: nat | i < |bs| && k < |bs[i].pebbles|
      ensures bs[i].pebbles[k].addr in pm
    {
      assert PebblesAt(pm, bs, i) && LinkedAt(pm, bs[i].base, bs[i].pebbles, k);
    }
  }

  // ----- clearing memory -----

  function Cleared<T>(m: map<nat, T>, ptr: nat, len: nat): map<nat, T> {
    map a | a in m && !InClear(a, ptr, len) :: m[a]
  }

  /** Clearing memory leaves the headers in order if and only if it misses them all. */
  lemma ClearedRepresents(pm: PebbleMap, bm: BucketMap, bs: seq<Bucket>, ptr: nat, len: nat)
    requires Represents(pm, bm, bs)
    ensures Represents(Cleared(pm, ptr, len), Cleared(bm, ptr, len), bs) <==> ClearMisses(bs, ptr, len)
  {
    var pm', bm' := Cleared(pm, ptr, len), Cleared(bm, ptr, len);
    forall i: nat | i < |bs|
      ensures BucketAt(bm', bs, i) && PebblesAt(pm', bs, i) <==> ClearMissesBucket(bs[i], ptr, len)
    {
      assert BucketAt(bm, bs, i) && PebblesAt(pm, bs, i);
      ClearedChain(pm, bs[i].base, bs[i].pebbles, ptr, len);
    }
  }

  lemma ClearedChain(pm: PebbleMap, base: nat, ps: seq<Pebble>, ptr: nat, len: nat)
    requires Chain(pm, base, ps)
    ensures Chain(Cleared(pm, ptr, len), base, ps) <==> forall p | p in ps :: !InClear(p.addr, ptr, len)
  {
    var pm' := Cleared(pm, ptr, len);
    forall k: nat | k < |ps|
      ensures LinkedAt(pm', base, ps, k) <==> !InClear(ps[k].addr, ptr, len)
    {
      assert LinkedAt(pm, base, ps, k);
    }
    if Chain(pm', base, ps) {
      forall k: nat | k < |ps|
        ensures !InClear(ps[k].addr, ptr, len)
      {
        assert LinkedAt(pm', base, ps, k);
      }
    }
  }

  /** What is left in memory when kmalloc has cleared its block. */
  function Finished<T>(m: map<nat, T>, ptr: nat, len: nat): map<nat, T> {
    if ptr == 0 then m else Cleared(m, ptr, len)
  }

  lemma FinishedMalloc(pm: PebbleMap, pm1: PebbleMap, bm: BucketMap, bm1: BucketMap, h: Heap, ptr: nat, len: nat)
    requires HeapOk(h) && Represents(pm1, bm1, h.buckets) && Touches(pm, pm1, bm, bm1, h.buckets)
    ensures Represents(Finished(pm1, ptr, len), Finished(bm1, ptr, len), h.buckets) <==>
            ptr == 0 || ClearMisses(h.buckets, ptr, len)
    ensures Finished(pm1, ptr, len).Keys ==
            if ptr == 0 then pm.Keys + Headers(h.buckets)
            else set a | a in pm.Keys + Headers(h.buckets) && !InClear(a, ptr, len)
    ensures var cleared := if ptr == 0 then 0 else len;
            && SparesLive(pm, Finished(pm1, ptr, len), PEBBLE_HEADER, h.buckets, ptr, cleared)
            && SparesLive(bm, Finished(bm1, ptr, len), BUCKET_HEADER, h.buckets, ptr, cleared)
  {
    KeysAfter(pm, pm1, h.buckets);
    ClearedRepresents(pm1, bm1, h.buckets, ptr, len);
    TouchesSpares(pm, pm1, Finished(pm1, ptr, len), bm, bm1, Finished(bm1, ptr, len), h, ptr, if ptr == 0 then 0 else len);
  }

  // ----- steps of the code as steps of the model -----

  lemma FilteredOut(b: Bucket, want: nat)
    requires BucketOk(b) && b.largest < want
    ensures !HasFit(b.pebbles, want)
  {
    if HasFit(b.pebbles, want) {
      CacheNeverHides(b, want);
    }
  }

  lemma FirstWithFit(bs: seq<Bucket>, want: nat, i: nat)
    requires i < |bs| && HasFit(bs[i].pebbles, want)
    requires forall j | 0 <= j < i :: !HasFit(bs[j].pebbles, want)
    ensures FindBucket(bs, want, 0) == Some(i)
  {
  }

  lemma MallocFromIs(h: Heap, want: nat, i: nat)
    requires i < |h.buckets| && want % MIN_ALIGN == 0
    ensures var b := h.buckets[i];
            match Choose(b.pebbles, b.best, want)
            case None => MallocFrom(h, want, i) == (h, 0)
            case Some(k) =>
              MallocFrom(h, want, i) == (WithPebbles(h, i, Placed(b.pebbles, k, want)), b.pebbles[k].addr + PEBBLE_HEADER)
  {
    assert h.buckets[i := h.buckets[i]] == h.buckets;
  }

  /** A new bucket that serves the request is inserted first and placed into afterwards. */
  lemma FreshIsInserted(h: Heap, size: nat, want: nat)
    requires |h.buckets| > 0 && want % MIN_ALIGN == 0
    ensures var h' := WithBucket(h, FreshBucket(h.end, size));
            && h'.buckets[1] == FreshBucket(h.end, size)
            && MallocFrom(h', want, 1) == MallocFresh(h, want, size, true)
  {
    PlaceInserted(h, FreshBucket(h.end, size), want);
  }

  lemma PlaceInserted(h: Heap, b: Bucket, want: nat)
    requires |h.buckets| > 0 && want % MIN_ALIGN == 0
    ensures var (b', ptr) := Place(b, want);
            WithBucket(h, b).buckets[1] == b && MallocFrom(WithBucket(h, b), want, 1) == (WithBucket(h, b'), ptr)
  {
    var cs := Insert(h.buckets, b);
    assert cs[1 := Place(b, want).0] == Insert(h.buckets, Place(b, want).0);
  }

  lemma NotLast(b: Bucket)
    requires BucketOk(b)
    ensures b.pebbles[0].addr == b.Start()
    ensures NextAddr(b.pebbles, 0) == 0 <==> |b.pebbles| == 1
  {
    if |b.pebbles| > 1 {
      InRange(b.pebbles, b.Start(), b.Limit(), 1);
    }
  }

  lemma FreeInTwo(h: Heap, i: nat, k: nat)
    requires i < |h.buckets| && k < |h.buckets[i].pebbles|
    ensures var h' := WithPebbles(h, i, Freed(h.buckets[i].pebbles, k));
            FreeAt(h, i, k) == if h'.buckets[i].WhollyFree() && h.buckets[i].base != h.start
                               then h'.(buckets := h'.buckets[..i] + h'.buckets[i + 1..]) else h'
  {
    var h' := WithPebbles(h, i, Freed(h.buckets[i].pebbles, k));
    assert h'.buckets[..i] == h.buckets[..i] && h'.buckets[i + 1..] == h.buckets[i + 1..];
  }

  lemma ChainHasHeader(pm: PebbleMap, h: Heap, ptr: nat)
    requires InChain(h, ptr) && forall j :: PebblesAt(pm, h.buckets, j)
    ensures ptr >= PEBBLE_HEADER && ptr - PEBBLE_HEADER in pm
  {
    var i: nat, k: nat :| PebbleAt(h, ptr, i, k);
    PebbleHasHeader(pm, h, ptr, i, k);
  }

  lemma PebbleHasHeader(pm: PebbleMap, h: Heap, ptr: nat, i: nat, k: nat)
    requires PebbleAt(h, ptr, i, k) && forall j :: PebblesAt(pm, h.buckets, j)
    ensures ptr >= PEBBLE_HEADER && ptr - PEBBLE_HEADER in pm
  {
    assert PebblesAt(pm, h.buckets, i) && LinkedAt(pm, h.buckets[i].base, h.buckets[i].pebbles, k);
  }

  lemma AfterFreeIs(h: Heap, ptr: nat, i: nat, k: nat)
    requires HeapOk(h) && PebbleAt(h, ptr, i, k)
    ensures AfterFree(h, ptr) == FreeAt(h, i, k)
  {
    forall j: nat, l: nat | PebbleAt(h, ptr, j, l)
      ensures j == i && l == k
    {
      PebbleAtUnique(h, ptr, i, k, j, l);
    }
  }
}
