/** The pebbles of one bucket as a sequence: bucketalloc.c without its pointers. */
module PebbleLayout {
  import opened Wrappers

  const BUCKET_HEADER: nat := 64       // sizeof(memory_bucket_t), packed
  const PEBBLE_HEADER: nat := 60       // sizeof(memory_pebble_t), packed
  const MIN_ALIGN: nat := 64           // PEBBLE_MIN_ALIGN and PEBBLE_MIN_SIZE

  datatype Pebble = Pebble(addr: nat, size: nat, used: bool) {
    /** The first byte behind the payload. */
    function End(): nat {
      addr + PEBBLE_HEADER + size
    }
  }

  /** The pebbles fill the bytes from `lo` up to `hi` without a gap. */
  ghost predicate Tiled(ps: seq<Pebble>, lo: nat, hi: nat) {
    && |ps| > 0
    && ps[0].addr == lo
    && (forall i, j | 0 <= i < j < |ps| && j == i + 1 :: ps[i].End() == ps[j].addr)
    && ps[|ps| - 1].End() == hi
  }

  /** No two neighbours are both free. */
  ghost predicate Coalesced(ps: seq<Pebble>) {
    forall i, j | 0 <= i < j < |ps| && j == i + 1 :: ps[i].used || ps[j].used
  }

  function Max(a: nat, b: nat): nat {
    if a < b then b else a
  }

  /** bucket_update_largest looks at used pebbles too. */
  function LargestSize(ps: seq<Pebble>): nat {
    if ps == [] then 0 else Max(LargestSize(ps[..|ps| - 1]), ps[|ps| - 1].size)
  }

  lemma {:induction false} LargestBounds(ps: seq<Pebble>, i: nat)
    requires i < |ps|
    ensures ps[i].size <= LargestSize(ps)
  {
    if i < |ps| - 1 {
      LargestBounds(ps[..|ps| - 1], i);
    }
  }

  /** It is the size of one of them. */
  lemma {:induction false} LargestAttained(ps: seq<Pebble>) returns (i: nat)
    requires ps != []
    ensures i < |ps| && ps[i].size == LargestSize(ps)
  {
    i := |ps| - 1;
    if |ps| > 1 && LargestSize(ps[..|ps| - 1]) >= ps[|ps| - 1].size {
      i := LargestAttained(ps[..|ps| - 1]);
    }
  }

  /** The flags do not matter for it. */
  lemma {:induction false} LargestMarked(ps: seq<Pebble>, k: nat, used: bool)
    requires k < |ps|
    ensures LargestSize(ps[k := ps[k].(used := used)]) == LargestSize(ps)
  {
    var qs := ps[k := ps[k].(used := used)];
    var n := |ps| - 1;
    if k < n {
      LargestMarked(ps[..n], k, used);
      assert qs[..n] == ps[..n][k := ps[k].(used := used)];
    } else {
      assert qs[..n] == ps[..n];
    }
  }

  /** Header sizes and payload sizes add up to the whole range. */
  function Footprint(ps: seq<Pebble>): nat {
    if ps == [] then 0 else Footprint(ps[..|ps| - 1]) + PEBBLE_HEADER + ps[|ps| - 1].size
  }

  lemma {:induction false} FootprintIsRange(ps: seq<Pebble>, lo: nat, hi: nat)
    requires Tiled(ps, lo, hi)
    ensures lo + Footprint(ps) == hi
  {
    if |ps| == 1 {
      assert ps[..0] == [];
    } else {
      FootprintIsRange(ps[..|ps| - 1], lo, ps[|ps| - 1].addr);
    }
  }

  /** Pebbles lie in address order and do not overlap. */
  lemma {:induction false} Ordered(ps: seq<Pebble>, lo: nat, hi: nat, i: nat, j: nat)
    requires Tiled(ps, lo, hi) && i < j < |ps|
    ensures lo <= ps[i].addr && ps[i].End() <= ps[j].addr && ps[j].End() <= hi
    decreases j - i
  {
    if i + 1 < j {
      Ordered(ps, lo, hi, i + 1, j);
    }
    InRange(ps, lo, hi, i);
    InRange(ps, lo, hi, j);
  }

  lemma {:induction false} InRange(ps: seq<Pebble>, lo: nat, hi: nat, i: nat)
    requires Tiled(ps, lo, hi) && i < |ps|
    ensures lo <= ps[i].addr && ps[i].End() <= hi
  {
    AboveStart(ps, lo, hi, i);
    BelowEnd(ps, lo, hi, i);
  }

  lemma {:induction false} AboveStart(ps: seq<Pebble>, lo: nat, hi: nat, i: nat)
    requires Tiled(ps, lo, hi) && i < |ps|
    ensures lo <= ps[i].addr
  {
    if i > 0 {
      AboveStart(ps, lo, hi, i - 1);
    }
  }

  lemma {:induction false} BelowEnd(ps: seq<Pebble>, lo: nat, hi: nat, i: nat)
    requires Tiled(ps, lo, hi) && i < |ps|
    ensures ps[i].End() <= hi
    decreases |ps| - i
  {
    if i < |ps| - 1 {
      BelowEnd(ps, lo, hi, i + 1);
    }
  }

  lemma Distinct(ps: seq<Pebble>, lo: nat, hi: nat)
    requires Tiled(ps, lo, hi)
    ensures forall i, j | 0 <= i < j < |ps| :: ps[i].addr < ps[j].addr
    ensures forall i | 0 <= i < |ps| :: lo <= ps[i].addr < hi
  {
    forall i, j | 0 <= i < j < |ps|
      ensures ps[i].addr < ps[j].addr
    {
      Ordered(ps, lo, hi, i, j);
    }
    forall i | 0 <= i < |ps|
      ensures lo <= ps[i].addr < hi
    {
      InRange(ps, lo, hi, i);
    }
  }

  /** `ps` with the pebbles from `i` up to `j` replaced by `mid`. */
  function Splice(ps: seq<Pebble>, i: nat, j: nat, mid: seq<Pebble>): (qs: seq<Pebble>)
    requires i <= j <= |ps|
    ensures |qs| == |ps| - (j - i) + |mid|
    ensures forall x | 0 <= x < i :: qs[x] == ps[x]
    ensures forall x | 0 <= x < |mid| :: qs[i + x] == mid[x]
    ensures forall x | i + |mid| <= x < |qs| :: qs[x] == ps[x - i - |mid| + j]
  {
    ps[..i] + mid + ps[j..]
  }

  /** Pebbles that fill the same bytes as the ones they replace keep the tiling. */
  lemma SpliceTiled(ps: seq<Pebble>, lo: nat, hi: nat, i: nat, j: nat, mid: seq<Pebble>)
    requires Tiled(ps, lo, hi) && i < j <= |ps| && Tiled(mid, ps[i].addr, ps[j - 1].End())
    ensures Tiled(Splice(ps, i, j, mid), lo, hi)
  {
    var qs := Splice(ps, i, j, mid);
    forall x | 0 <= x < |qs| - 1
      ensures qs[x].End() == qs[x + 1].addr
    {
      if x < i - 1 {
      } else if x == i - 1 {
        assert qs[x + 1] == mid[0];
      } else if x < i + |mid| - 1 {
        assert qs[x] == mid[x - i] && qs[x + 1] == mid[x - i + 1];
      } else if x == i + |mid| - 1 {
        assert qs[x] == mid[|mid| - 1] && qs[x + 1] == ps[j];
      } else {
        assert qs[x] == ps[x - i - |mid| + j];
      }
    }
    assert i > 0 ==> qs[0] == ps[0];
    assert i == 0 ==> qs[0] == mid[0];
    assert j < |ps| ==> qs[|qs| - 1] == ps[|ps| - 1];
    assert j == |ps| ==> qs[|qs| - 1] == mid[|mid| - 1];
  }

  // ----- splitting -----

  function RoundUp(n: nat): nat {
    (n + MIN_ALIGN - 1) / MIN_ALIGN * MIN_ALIGN
  }

  /** SPLIT_PEBBLE: `& ~PEBBLE_MIN_SIZE` clears bit 6 and nothing else. */
  predicate SplitGuard(have: nat, want: nat) {
    var x := have + MIN_ALIGN - 1;
    x - x / 64 % 2 * 64 > want + PEBBLE_HEADER + MIN_ALIGN
  }

  /** For a request in units of 64 bytes the guard leaves a remainder of two bytes or more;
      where it refuses, at most 125 bytes are given away. Both bounds are attained. */
  lemma SplitArithmetic(have: nat, want: nat)
    requires want % MIN_ALIGN == 0
    ensures RoundUp(want) == want
    ensures SplitGuard(have, want) ==> have >= want + PEBBLE_HEADER + 2
    ensures !SplitGuard(have, want) && have >= want ==> have - want <= 125
    ensures SplitGuard(126, 64) && 126 == 64 + PEBBLE_HEADER + 2
    ensures !SplitGuard(189, 64) && 189 - 64 == 125
  {
  }

  /** Without the multiple of 64 the guard does not protect the subtraction: shrink_pebble
      passes its size on unrounded, and 128 bytes cannot hold 65 rounded up plus a header. */
  lemma SplitNeedsMultiple()
    ensures SplitGuard(128, 65) && 128 < RoundUp(65) + PEBBLE_HEADER
  {
  }

  // ----- placing -----

  predicate Fits(p: Pebble, n: nat) {
    !p.used && p.size >= n
  }

  predicate HasFit(ps: seq<Pebble>, n: nat) {
    exists i :: 0 <= i < |ps| && Fits(ps[i], n)
  }

  /** First-found takes the earliest pebble that fits. */
  predicate IsFirstFit(ps: seq<Pebble>, n: nat, k: nat) {
    && k < |ps| && Fits(ps[k], n)
    && forall i | 0 <= i < k :: !Fits(ps[i], n)
  }

  /** Best-fit takes the earliest among the smallest that fit. */
  predicate IsBestFit(ps: seq<Pebble>, n: nat, k: nat) {
    && k < |ps| && Fits(ps[k], n)
    && (forall i | 0 <= i < |ps| && Fits(ps[i], n) :: ps[k].size <= ps[i].size)
    && (forall i | 0 <= i < k && Fits(ps[i], n) :: ps[k].size < ps[i].size)
  }

  predicate IsChoice(ps: seq<Pebble>, best: bool, n: nat, k: nat) {
    if best then IsBestFit(ps, n, k) else IsFirstFit(ps, n, k)
  }

  lemma ChoiceUnique(ps: seq<Pebble>, best: bool, n: nat, j: nat, k: nat)
    requires IsChoice(ps, best, n, j) && IsChoice(ps, best, n, k)
    ensures j == k
  {
  }

  /** Scanning the first `m` pebbles. */
  function Scan(ps: seq<Pebble>, best: bool, n: nat, m: nat): (r: Option<nat>)
    requires m <= |ps|
    ensures r == None ==> forall i | 0 <= i < m :: !Fits(ps[i], n)
    ensures r.Some? ==> r.value < m && IsChoice(ps[..m], best, n, r.value)
  {
    if m == 0 then None
    else
      var before := Scan(ps, best, n, m - 1);
      assert forall i | 0 <= i < m - 1 :: ps[..m][i] == ps[..m - 1][i];
      if Fits(ps[m - 1], n) && (before == None || (best && ps[m - 1].size < ps[before.value].size)) then Some(m - 1)
      else before
  }

  function Choose(ps: seq<Pebble>, best: bool, n: nat): (r: Option<nat>)
    ensures r.Some? <==> HasFit(ps, n)
    ensures r.Some? ==> IsChoice(ps, best, n, r.value)
  {
    assert ps[..|ps|] == ps;
    Scan(ps, best, n, |ps|)
  }

  /** What pebble `p` becomes when it takes a request of `n` bytes. */
  function Pieces(p: Pebble, n: nat): (mid: seq<Pebble>)
    requires p.size >= n && n % MIN_ALIGN == 0
    ensures Tiled(mid, p.addr, p.End())
    ensures mid[0].used && n <= mid[0].size <= n + 125
    ensures |mid| == 1 || (|mid| == 2 && mid[1].used == p.used && mid[0].size == n)
  {
    SplitArithmetic(p.size, n);
    if SplitGuard(p.size, n) then
      [Pebble(p.addr, n, true), Pebble(p.addr + PEBBLE_HEADER + n, p.size - n - PEBBLE_HEADER, p.used)]
    else
      [p.(used := true)]
  }

  /** The pebbles after pebble `k` took a request of `n` bytes. */
  function Placed(ps: seq<Pebble>, k: nat, n: nat): seq<Pebble>
    requires k < |ps| && ps[k].size >= n && n % MIN_ALIGN == 0
  {
    Splice(ps, k, k + 1, Pieces(ps[k], n))
  }

  lemma PlacedKeeps(ps: seq<Pebble>, lo: nat, hi: nat, k: nat, n: nat)
    requires Tiled(ps, lo, hi) && Coalesced(ps)
    requires k < |ps| && Fits(ps[k], n) && n % MIN_ALIGN == 0
    ensures var qs := Placed(ps, k, n);
            && Tiled(qs, lo, hi) && Coalesced(qs)
            && k < |qs| && qs[k].used && qs[k].addr == ps[k].addr && n <= qs[k].size <= n + 125
  {
    var mid := Pieces(ps[k], n);
    var qs := Placed(ps, k, n);
    SpliceTiled(ps, lo, hi, k, k + 1, mid);
    assert qs[k + 0] == mid[0];
    forall i | 0 <= i < |qs| - 1
      ensures qs[i].used || qs[i + 1].used
    {
      if i < k - 1 {
        assert ps[i].used || ps[i + 1].used;
      } else if i == k - 1 || i == k {
      } else if i == k + |mid| - 1 {
        assert ps[k].used || ps[k + 1].used;
        assert qs[i + 1] == ps[k + 1];
      } else {
        var j := i - |mid| + 1;
        assert qs[i] == ps[j] && qs[i + 1] == ps[j + 1];
      }
    }
  }

  // ----- freeing -----

  /** Pebbles `i` and `i + 1` made one free pebble. */
  function Merged(ps: seq<Pebble>, i: nat): (qs: seq<Pebble>)
    requires i + 1 < |ps|
    ensures |qs| == |ps| - 1
    ensures forall x | 0 <= x < i :: qs[x] == ps[x]
    ensures qs[i] == Pebble(ps[i].addr, ps[i].size + ps[i + 1].size + PEBBLE_HEADER, false)
    ensures forall x | i < x < |qs| :: qs[x] == ps[x + 1]
  {
    Splice(ps, i, i + 2, [Pebble(ps[i].addr, ps[i].size + ps[i + 1].size + PEBBLE_HEADER, false)])
  }

  /** Where melt_prev leaves the freed pebble. */
  function MeltIndex(ps: seq<Pebble>, k: nat): nat
    requires k < |ps|
  {
    if k > 0 && !ps[k - 1].used then k - 1 else k
  }

  /** Pebble `k` merged into its left neighbour if that is free. */
  function LeftMerged(ps: seq<Pebble>, k: nat): seq<Pebble>
    requires k < |ps|
  {
    if k > 0 && !ps[k - 1].used then Merged(ps, k - 1) else ps
  }

  function Melted(ps: seq<Pebble>, k: nat): seq<Pebble>
    requires k < |ps|
  {
    LeftMerged(ps[k := ps[k].(used := false)], k)
  }

  function Absorbed(ps: seq<Pebble>, k: nat): seq<Pebble>
    requires k < |ps|
  {
    if k + 1 < |ps| && !ps[k + 1].used then Merged(ps, k) else ps
  }

  /** The pebbles after pebble `k` was freed and melted with its free neighbours. */
  function Freed(ps: seq<Pebble>, k: nat): seq<Pebble>
    requires k < |ps|
  {
    Absorbed(Melted(ps, k), MeltIndex(ps, k))
  }

  /** Neighbours that are not both free, leaving out the pair at `m`. */
  ghost predicate CoalescedExcept(ps: seq<Pebble>, m: int) {
    forall i, j | 0 <= i < j < |ps| && j == i + 1 && i != m :: ps[i].used || ps[j].used
  }

  lemma MergedKeeps(ps: seq<Pebble>, lo: nat, hi: nat, i: nat)
    requires Tiled(ps, lo, hi) && i + 1 < |ps|
    ensures Tiled(Merged(ps, i), lo, hi) && !Merged(ps, i)[i].used
    ensures CoalescedExcept(ps, i) && (i + 2 < |ps| ==> ps[i + 2].used) && (i > 0 ==> ps[i - 1].used)
            ==> Coalesced(Merged(ps, i))
  {
    var mid := [Pebble(ps[i].addr, ps[i].size + ps[i + 1].size + PEBBLE_HEADER, false)];
    SpliceTiled(ps, lo, hi, i, i + 2, mid);
    var qs := Merged(ps, i);
    assert qs[i + 0] == mid[0];
    if CoalescedExcept(ps, i) && (i + 2 < |ps| ==> ps[i + 2].used) && (i > 0 ==> ps[i - 1].used) {
      forall x | 0 <= x < |qs| - 1
        ensures qs[x].used || qs[x + 1].used
      {
        if x < i {
          assert qs[x] == ps[x];
          assert x + 1 < i ==> qs[x + 1] == ps[x + 1];
        } else {
          assert qs[x + 1] == ps[x + 2];
          assert x > i ==> qs[x] == ps[x + 1];
        }
      }
    }
  }

  lemma MarkedTiled(ps: seq<Pebble>, lo: nat, hi: nat, k: nat)
    requires Tiled(ps, lo, hi) && k < |ps|
    ensures Tiled(ps[k := ps[k].(used := false)], lo, hi)
  {
  }

  /** After melt_prev only the freed pebble and its right neighbour can both be free. */
  lemma MeltedKeeps(ps: seq<Pebble>, lo: nat, hi: nat, k: nat)
    requires Tiled(ps, lo, hi) && Coalesced(ps) && k < |ps|
    ensures var qs, m := Melted(ps, k), MeltIndex(ps, k);
            && m < |qs| && Tiled(qs, lo, hi) && !qs[m].used && CoalescedExcept(qs, m)
            && (m > 0 ==> qs[m - 1].used)
            && (m + 2 < |qs| && !qs[m + 1].used ==> qs[m + 2].used)
  {
    MarkedTiled(ps, lo, hi, k);
    var marked := ps[k := ps[k].(used := false)];
    if k > 0 && !ps[k - 1].used {
      MergedKeeps(marked, lo, hi, k - 1);
      MergedAfterMark(ps, k);
      MeltedNeighbours(ps, Merged(marked, k - 1), k);
    } else {
      MarkedNeighbours(ps, k);
    }
  }

  lemma MergedAfterMark(ps: seq<Pebble>, k: nat)
    requires 0 < k < |ps|
    ensures var qs := Merged(ps[k := ps[k].(used := false)], k - 1);
            && (forall x | 0 <= x < k - 1 :: qs[x] == ps[x])
            && (forall x | k <= x < |qs| :: qs[x] == ps[x + 1])
  {
    var marked := ps[k := ps[k].(used := false)];
    assert forall y | k < y < |ps| :: marked[y] == ps[y];
  }

  lemma MarkedNeighbours(ps: seq<Pebble>, k: nat)
    requires Coalesced(ps) && k < |ps| && (k > 0 ==> ps[k - 1].used)
    ensures var qs := ps[k := ps[k].(used := false)];
            && CoalescedExcept(qs, k)
            && (k > 0 ==> qs[k - 1].used)
            && (k + 2 < |qs| && !qs[k + 1].used ==> qs[k + 2].used)
  {
  }

  lemma MeltedNeighbours(ps: seq<Pebble>, qs: seq<Pebble>, k: nat)
    requires Coalesced(ps) && 0 < k < |ps| && !ps[k - 1].used
    requires |qs| == |ps| - 1
    requires forall x | 0 <= x < k - 1 :: qs[x] == ps[x]
    requires forall x | k <= x < |qs| :: qs[x] == ps[x + 1]
    ensures CoalescedExcept(qs, k - 1)
    ensures k > 1 ==> qs[k - 2].used
    ensures k + 1 < |qs| && !qs[k].used ==> qs[k + 1].used
  {
    assert k > 1 ==> ps[k - 2].used;
    forall i, j | 0 <= i < j < |qs| && j == i + 1 && i != k - 1
      ensures qs[i].used || qs[j].used
    {
      if i >= k {
        assert qs[i] == ps[j] && qs[j] == ps[j + 1];
      } else {
        assert qs[i] == ps[i];
        assert j < k - 1 ==> qs[j] == ps[j];
      }
    }
  }

  lemma FreedKeeps(ps: seq<Pebble>, lo: nat, hi: nat, k: nat)
    requires Tiled(ps, lo, hi) && Coalesced(ps) && k < |ps|
    ensures Tiled(Freed(ps, k), lo, hi) && Coalesced(Freed(ps, k))
  {
    MeltedKeeps(ps, lo, hi, k);
    var qs, m := Melted(ps, k), MeltIndex(ps, k);
    if m + 1 < |qs| && !qs[m + 1].used {
      MergedKeeps(qs, lo, hi, m);
    }
  }

  /** Freeing a pebble that is free already finds nothing to melt. */
  lemma FreedAgain(ps: seq<Pebble>, k: nat)
    requires Coalesced(ps) && k < |ps| && !ps[k].used
    ensures Freed(ps, k) == ps
  {
    assert ps[k := ps[k].(used := false)] == ps;
    if k > 0 { NeighbourUsed(ps, k - 1); }
    if k + 1 < |ps| { NeighbourUsed(ps, k); }
  }

  /** A freed pebble with no free left neighbour keeps its place. */
  lemma FreedStays(ps: seq<Pebble>, k: nat)
    requires k < |ps| && (k == 0 || ps[k - 1].used)
    ensures k < |Freed(ps, k)| && Freed(ps, k)[k].addr == ps[k].addr && !Freed(ps, k)[k].used
  {
  }

  /** Freeing what was just placed restores the layout. */
  lemma FreedPlaced(ps: seq<Pebble>, k: nat, n: nat)
    requires Coalesced(ps) && k < |ps| && Fits(ps[k], n) && n % MIN_ALIGN == 0
    ensures k < |Placed(ps, k, n)| && Freed(Placed(ps, k, n), k) == ps
  {
    var mid := Pieces(ps[k], n);
    var qs := Placed(ps, k, n);
    if k > 0 { NeighbourUsed(ps, k - 1); }
    if k + 1 < |ps| { NeighbourUsed(ps, k); }
    assert qs[k + 0] == mid[0];
    if |mid| == 2 {
      assert qs[k + 1] == mid[1];
      UndoSplit(ps, k, mid);
    } else {
      assert qs[k := qs[k].(used := false)] == ps;
    }
  }

  lemma UndoSplit(ps: seq<Pebble>, k: nat, mid: seq<Pebble>)
    requires k < |ps| && !ps[k].used && |mid| == 2 && Tiled(mid, ps[k].addr, ps[k].End())
    ensures var qs := Splice(ps, k, k + 1, mid);
            Merged(qs[k := qs[k].(used := false)], k) == ps
  {
    var p, q := mid[0], mid[1];
    assert mid == [p] + [q] && ps == ps[..k] + [ps[k]] + ps[k + 1..];
    MergeMiddle(ps[..k], p, q, ps[k + 1..], Splice(ps, k, k + 1, mid), ps);
  }

  lemma MergeMiddle(a: seq<Pebble>, p: Pebble, q: Pebble, b: seq<Pebble>, s: seq<Pebble>, t: seq<Pebble>)
    requires s == a + ([p] + [q]) + b
    requires t == a + [Pebble(p.addr, p.size + q.size + PEBBLE_HEADER, false)] + b
    ensures s[|a|] == p && Merged(s[|a| := p.(used := false)], |a|) == t
  {
    var p' := p.(used := false);
    MarkMiddle(a, p, [q], b, p');
    var s' := s[|a| := p'];
    assert s' == a + ([p'] + [q]) + b;
    assert s'[..|a|] == a && s'[|a| + 2..] == b && s'[|a|] == p' && s'[|a| + 1] == q;
  }

  /** Replacing the element between two stretches. */
  lemma MarkMiddle(a: seq<Pebble>, m: Pebble, rest: seq<Pebble>, b: seq<Pebble>, m': Pebble)
    ensures var s := a + ([m] + rest) + b;
            s[|a|] == m && s[|a| := m'] == a + ([m'] + rest) + b
  {
  }

  lemma NeighbourUsed(ps: seq<Pebble>, i: nat)
    requires Coalesced(ps) && i + 1 < |ps|
    ensures ps[i].used || ps[i + 1].used
  {
  }

  /** A bucket in which everything is free is a single pebble. */
  lemma AllFreeIsOne(ps: seq<Pebble>, lo: nat, hi: nat)
    requires Tiled(ps, lo, hi) && Coalesced(ps) && forall i | 0 <= i < |ps| :: !ps[i].used
    ensures |ps| == 1 && ps[0] == Pebble(lo, hi - lo - PEBBLE_HEADER, false)
  {
    if |ps| > 1 {
      NeighbourUsed(ps, 0);
      assert false;
    }
  }

  // ----- header addresses -----

  ghost function Addrs(ps: seq<Pebble>): set<nat> {
    set p | p in ps :: p.addr
  }

  /** Placing takes no header away. */
  lemma PlacedAddrs(ps: seq<Pebble>, k: nat, n: nat)
    requires k < |ps| && ps[k].size >= n && n % MIN_ALIGN == 0
    ensures Addrs(ps) <= Addrs(Placed(ps, k, n))
  {
    var mid, qs := Pieces(ps[k], n), Placed(ps, k, n);
    forall j | 0 <= j < |ps|
      ensures ps[j].addr in Addrs(qs)
    {
      var x := if j <= k then j else j + |mid| - 1;
      assert qs[k + 0] == mid[0];
      assert qs[x].addr == ps[j].addr && qs[x] in qs;
    }
  }

  /** Melting makes no new header. */
  lemma FreedAddrs(ps: seq<Pebble>, k: nat)
    requires k < |ps|
    ensures Addrs(Freed(ps, k)) <= Addrs(ps)
  {
    MeltedAddrs(ps, k);
    var qs, m := Melted(ps, k), MeltIndex(ps, k);
    if m + 1 < |qs| && !qs[m + 1].used {
      MergedAddrs(qs, m);
    }
  }

  /** A pebble that is melted into its left neighbour has no header in the chain any more. */
  lemma FreedDrops(ps: seq<Pebble>, lo: nat, hi: nat, k: nat)
    requires Tiled(ps, lo, hi) && 0 < k < |ps| && !ps[k - 1].used
    ensures ps[k].addr !in Addrs(Freed(ps, k))
  {
    Distinct(ps, lo, hi);
    var qs := Melted(ps, k);
    MergedAfterMark(ps, k);
    forall x | 0 <= x < |qs|
      ensures qs[x].addr != ps[k].addr
    {
    }
    if k < |qs| && !qs[k].used {
      MergedAddrs(qs, k - 1);
    }
  }

  lemma MeltedAddrs(ps: seq<Pebble>, k: nat)
    requires k < |ps|
    ensures Addrs(ps[k := ps[k].(used := false)]) <= Addrs(ps) && Addrs(Melted(ps, k)) <= Addrs(ps)
  {
    MarkedAddrs(ps, k);
    if k > 0 && !ps[k - 1].used {
      MergedAddrs(ps[k := ps[k].(used := false)], k - 1);
    }
  }

  lemma MarkedAddrs(ps: seq<Pebble>, k: nat)
    requires k < |ps|
    ensures Addrs(ps[k := ps[k].(used := false)]) <= Addrs(ps)
  {
    var marked := ps[k := ps[k].(used := false)];
    forall i | 0 <= i < |marked|
      ensures marked[i].addr in Addrs(ps)
    {
      assert ps[i] in ps;
    }
  }

  lemma MergedAddrs(ps: seq<Pebble>, i: nat)
    requires i + 1 < |ps|
    ensures Addrs(Merged(ps, i)) <= Addrs(ps)
  {
    var qs := Merged(ps, i);
    forall x | 0 <= x < |qs|
      ensures qs[x].addr in Addrs(ps)
    {
      assert ps[x] in ps && ps[x + 1] in ps;
    }
  }

  // ----- live pebbles -----

  ghost predicate IsLive(ps: seq<Pebble>, p: Pebble) {
    p.used && exists k :: 0 <= k < |ps| && ps[k] == p
  }

  /** Replacing pebbles replaces their live ones. */
  lemma SpliceLive(ps: seq<Pebble>, i: nat, j: nat, mid: seq<Pebble>, p: Pebble)
    requires i <= j <= |ps|
    ensures IsLive(Splice(ps, i, j, mid), p) <==> IsLive(ps[..i], p) || IsLive(mid, p) || IsLive(ps[j..], p)
    ensures IsLive(ps, p) <==> IsLive(ps[..i], p) || IsLive(ps[i..j], p) || IsLive(ps[j..], p)
  {
    ConcatLive(ps[..i] + mid, ps[j..], p);
    ConcatLive(ps[..i], mid, p);
    ConcatLive(ps[..i] + ps[i..j], ps[j..], p);
    ConcatLive(ps[..i], ps[i..j], p);
    assert ps[..i] + ps[i..j] + ps[j..] == ps;
  }

  lemma ConcatLive(a: seq<Pebble>, b: seq<Pebble>, p: Pebble)
    ensures IsLive(a + b, p) <==> IsLive(a, p) || IsLive(b, p)
  {
    if IsLive(a, p) {
      var k :| 0 <= k < |a| && a[k] == p;
      assert (a + b)[k] == p;
    }
    if IsLive(b, p) {
      var k :| 0 <= k < |b| && b[k] == p;
      assert (a + b)[|a| + k] == p;
    }
  }

  /** Placing makes exactly one more pebble live. */
  lemma PlacedLive(ps: seq<Pebble>, k: nat, n: nat, p: Pebble)
    requires k < |ps| && Fits(ps[k], n) && n % MIN_ALIGN == 0
    ensures k < |Placed(ps, k, n)|
    ensures IsLive(Placed(ps, k, n), p) <==> IsLive(ps, p) || p == Placed(ps, k, n)[k]
  {
    var mid := Pieces(ps[k], n);
    assert Placed(ps, k, n)[k + 0] == mid[0];
    SpliceLive(ps, k, k + 1, mid, p);
    assert IsLive(mid, p) <==> p == mid[0];
    assert !IsLive(ps[k..k + 1], p);
  }

  /** Merging two free pebbles leaves the live ones alone. */
  lemma MergedLive(ps: seq<Pebble>, i: nat, p: Pebble)
    requires i + 1 < |ps| && !ps[i].used && !ps[i + 1].used
    ensures IsLive(Merged(ps, i), p) <==> IsLive(ps, p)
  {
    SpliceLive(ps, i, i + 2, [Pebble(ps[i].addr, ps[i].size + ps[i + 1].size + PEBBLE_HEADER, false)], p);
    assert !IsLive(ps[i..i + 2], p);
  }

  /** Freeing makes exactly that pebble no longer live. */
  lemma FreedLive(ps: seq<Pebble>, lo: nat, hi: nat, k: nat, p: Pebble)
    requires Tiled(ps, lo, hi) && k < |ps| && ps[k].used
    ensures IsLive(Freed(ps, k), p) <==> IsLive(ps, p) && p != ps[k]
  {
    MarkedLive(ps, lo, hi, k, p);
    MeltedLive(ps, k, p);
    var qs, m := Melted(ps, k), MeltIndex(ps, k);
    if m + 1 < |qs| && !qs[m + 1].used {
      MergedLive(qs, m, p);
    }
  }

  lemma MeltedLive(ps: seq<Pebble>, k: nat, p: Pebble)
    requires k < |ps|
    ensures var qs, m := Melted(ps, k), MeltIndex(ps, k);
            m < |qs| && !qs[m].used && (IsLive(qs, p) <==> IsLive(ps[k := ps[k].(used := false)], p))
  {
    if k > 0 && !ps[k - 1].used {
      MergedLive(ps[k := ps[k].(used := false)], k - 1, p);
    }
  }

  lemma MarkedLive(ps: seq<Pebble>, lo: nat, hi: nat, k: nat, p: Pebble)
    requires Tiled(ps, lo, hi) && k < |ps| && ps[k].used
    ensures IsLive(ps[k := ps[k].(used := false)], p) <==> IsLive(ps, p) && p != ps[k]
  {
    Distinct(ps, lo, hi);
    var qs := ps[k := ps[k].(used := false)];
    if IsLive(ps, p) && p != ps[k] {
      var j :| 0 <= j < |ps| && ps[j] == p;
      assert qs[j] == p;
    }
    if IsLive(qs, p) {
      var j :| 0 <= j < |qs| && qs[j] == p;
      assert ps[j] == p && j != k;
    }
  }
}
