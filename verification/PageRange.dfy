/** Stretches of pages, and how far mmap's loop has come through one. */
module PageRange {
  import opened Machine
  import opened Wrappers
  import opened PageFormat
  import opened PageTree
  import opened Ownership

  /** The path to the `k`th page from `start` on. */
  function PathOf(start: nat, k: nat): (path: seq<nat>)
    ensures |path| == 4
  {
    Indices(start + k * PAGE_SIZE)
  }

  lemma PathOfAddress(start: nat, k: nat, va: nat)
    requires va == start + k * PAGE_SIZE
    ensures PathOf(start, k) == Indices(va)
  {
  }

  /** `p` leads to one of the first `n` pages from `start` on. */
  ghost predicate Visited(start: nat, n: nat, p: seq<nat>) {
    exists k :: 0 <= k < n && p == PathOf(start, k)
  }

  /** The first `n` pages from `start` on are all managed. */
  ghost predicate AllIn(start: nat, n: nat, mapped: set<seq<nat>>) {
    forall k | 0 <= k < n :: PathOf(start, k) in mapped
  }

  /** Only the first `n` pages from `start` on may translate differently. */
  ghost predicate SameOutside(root: nat, mem: Memory, mem': Memory, start: nat, n: nat) {
    forall p | !Visited(start, n, p) :: LeafAt(mem', root, p) == LeafAt(mem, root, p)
  }

  lemma SameOutsideStep(root: nat, mem: Memory, mem1: Memory, mem2: Memory, start: nat, n: nat,
                        path: seq<nat>, leaf: Option<nat>)
    requires SameOutside(root, mem, mem1, start, n) && path == PathOf(start, n)
    requires SameTranslation(root, mem1, mem2) || Remapped(root, mem1, mem2, path, leaf)
    ensures SameOutside(root, mem, mem2, start, n + 1)
  {
    forall p | !Visited(start, n + 1, p)
      ensures LeafAt(mem2, root, p) == LeafAt(mem, root, p)
    {
      assert !Visited(start, n, p) && p != PathOf(start, n);
    }
  }

  /** The first `n` pages from `start` on no longer translate, the others translate as before.
      An entry that shows frame 0 is skipped by unmap_page. */
  ghost predicate Cleared(root: nat, mem: Memory, mem': Memory, start: nat, n: nat) {
    forall p :: LeafAt(mem', root, p) ==
                if Visited(start, n, p) && LeafAt(mem, root, p) != Some(0) then None else LeafAt(mem, root, p)
  }

  lemma ClearedStep(root: nat, mem: Memory, mem1: Memory, mem2: Memory, start: nat, n: nat, path: seq<nat>)
    requires Cleared(root, mem, mem1, start, n) && path == PathOf(start, n)
    requires var leaf := LeafAt(mem1, root, path);
             if leaf.Some? && leaf.value != 0 then Remapped(root, mem1, mem2, path, None) else mem2 == mem1
    ensures Cleared(root, mem, mem2, start, n + 1)
  {
    forall p
      ensures Visited(start, n + 1, p) <==> Visited(start, n, p) || p == PathOf(start, n)
    {}
  }

  /** The pages of one region are all different, up to the size of the address space. */
  lemma PathsDiffer(start: nat, j: nat, k: nat)
    requires j < k < j + PAGES
    ensures PathOf(start, j) != PathOf(start, k)
  {
    PageAfter(start, j);
    PageAfter(start, k);
    RemaindersDiffer(start / PAGE_SIZE + j, k - j);
    IndicesInjective(start + j * PAGE_SIZE, start + k * PAGE_SIZE);
  }

  lemma PageAfter(start: nat, j: nat)
    ensures Page(start + j * PAGE_SIZE) == (start / PAGE_SIZE + j) % PAGES
  {
    assert (start + j * PAGE_SIZE) / PAGE_SIZE == start / PAGE_SIZE + j;
  }

  lemma RemaindersDiffer(x: nat, d: nat)
    requires 0 < d < PAGES
    ensures x % PAGES != (x + d) % PAGES
  {
  }

  // ----- what mmap uses -----

  /** What the memory manager owns at one moment. */
  datatype Holdings = Holdings(mem: Memory, free: seq<nat>, mapped: set<seq<nat>>, lost: set<nat>)

  ghost function Paths(start: nat, n: nat): set<seq<nat>> {
    set k | 0 <= k < n :: PathOf(start, k)
  }

  /** The frames that were tables of `mem'` and not of `mem`. */
  ghost function NewTables(root: nat, mem: Memory, mem': Memory): set<nat> {
    set f | f in mem' && IsTable(mem', root, f) && !IsTable(mem, root, f)
  }

  /** The frames behind those of the first `n` pages from `start` on that were managed. */
  ghost function Replaced(mem: Memory, root: nat, mapped: set<seq<nat>>, start: nat, n: nat): set<nat> {
    set k, f | 0 <= k < n && f in Evicted(mem, root, mapped, PathOf(start, k)) :: f
  }

  /** Of the frames that left the list, `n` did not become tables. */
  ghost predicate Counts(root: nat, mem0: Memory, free0: seq<nat>, mem: Memory, free: seq<nat>, n: nat) {
    && free <= free0 && (forall f | IsTable(mem0, root, f) :: IsTable(mem, root, f))
    && |free0| == |free| + |NewTables(root, mem0, mem)| + n
  }

  /** Besides `stray`, the frames behind managed pages among the first `done` were lost and no others. */
  ghost predicate LosesOnly(root: nat, s0: Holdings, lost: set<nat>, start: nat, done: nat, stray: set<nat>) {
    done <= PAGES ==> lost == s0.lost + stray + Replaced(s0.mem, root, s0.mapped, start, done)
  }

  /** The first `done` pages from `start` on were given frames of the list and no others; every frame that left the list
      is a new table, behind one of them, or in `stray`; and only frames behind such pages were lost besides. */
  ghost predicate Progress(root: nat, s0: Holdings, s: Holdings, start: nat, done: nat, stray: set<nat>) {
    && Counts(root, s0.mem, s0.free, s.mem, s.free, done + |stray|) && |stray| <= 1
    && s.mapped == s0.mapped + Paths(start, done)
    && SameOutside(root, s0.mem, s.mem, start, done)
    && LosesOnly(root, s0, s.lost, start, done, stray)
  }

  lemma NoProgress(root: nat, s: Holdings, start: nat)
    ensures Progress(root, s, s, start, 0, {})
  {
    assert NewTables(root, s.mem, s.mem) == {} && Paths(start, 0) == {};
    assert Replaced(s.mem, root, s.mapped, start, 0) == {};
  }

  ghost function Elements(s: seq<nat>): set<nat> {
    set f | f in s
  }

  lemma {:induction false} ElementsSize(s: seq<nat>)
    requires forall i, j | 0 <= i < j < |s| :: s[i] != s[j]
    ensures |Elements(s)| == |s|
  {
    if s != [] {
      var rest, last := s[..|s| - 1], s[|s| - 1];
      ElementsSize(rest);
      assert s == rest + [last];
      assert Elements(s) == Elements(rest) + {last} && last !in Elements(rest);
    }
  }

  /** The frames that left the list between two moments. */
  lemma AboveSize(free: seq<nat>, n: nat)
    requires n <= |free| && forall i, j | 0 <= i < j < |free| :: free[i] != free[j]
    ensures |Elements(free[n..])| == |free| - n
    ensures forall f :: f in Elements(free[n..]) <==> Above(free, n, f)
  {
    ElementsSize(free[n..]);
    forall f
      ensures f in Elements(free[n..]) <==> Above(free, n, f)
    {
      if Above(free, n, f) {
        var k :| n <= k < |free| && free[k] == f;
        assert free[n..][k - n] == f;
      }
    }
  }

  lemma DisjointSize(a: set<nat>, b: set<nat>, c: set<nat>)
    requires c == a + b && a !! b
    ensures |c| == |a| + |b|
  {
  }

  /** Tables gained from the list are counted by the frames that left it. */
  lemma TablesCount(root: nat, m0: Memory, m1: Memory, free1: seq<nat>, m2: Memory, free2: seq<nat>)
    requires (forall f | IsTable(m0, root, f) :: IsTable(m1, root, f)) && m1.Keys == m2.Keys
    requires FreeOk(m1, root, free1) && Grown(root, m1, free1, m2, free2)
    ensures |NewTables(root, m0, m2)| == |NewTables(root, m0, m1)| + |free1| - |free2|
    ensures forall f | IsTable(m0, root, f) :: IsTable(m2, root, f)
  {
    AboveSize(free1, |free2|);
    NewTablesSplit(root, m0, m1, free1, m2, free2, Elements(free1[|free2|..]));
    DisjointSize(NewTables(root, m0, m1), Elements(free1[|free2|..]), NewTables(root, m0, m2));
  }

  lemma NewTablesSplit(root: nat, m0: Memory, m1: Memory, free1: seq<nat>, m2: Memory, free2: seq<nat>, gained: set<nat>)
    requires (forall f | IsTable(m0, root, f) :: IsTable(m1, root, f)) && m1.Keys == m2.Keys
    requires FreeOk(m1, root, free1) && Grown(root, m1, free1, m2, free2)
    requires forall f :: f in gained <==> Above(free1, |free2|, f)
    ensures NewTables(root, m0, m2) == NewTables(root, m0, m1) + gained && NewTables(root, m0, m1) !! gained
  {
    forall f | f in gained
      ensures f in m1 && !IsTable(m1, root, f)
    {
      var k :| |free2| <= k < |free1| && free1[k] == f;
    }
  }

  /** The top frame left the list, and others below it became tables. */
  ghost predicate Popped(root: nat, s1: Holdings, s2: Holdings) {
    && s1.free != [] && s1.mem.Keys == s2.mem.Keys && FreeOk(s1.mem, root, s1.free[..|s1.free| - 1])
    && Grown(root, s1.mem, s1.free[..|s1.free| - 1], s2.mem, s2.free)
  }

  /** alloc_page succeeded: the page shows the top frame, and the frame it may have shown before is lost. */
  ghost predicate Allocates(root: nat, s1: Holdings, s2: Holdings, path: seq<nat>) {
    && Popped(root, s1, s2)
    && Remapped(root, s1.mem, s2.mem, path, Some(s1.free[|s1.free| - 1])) && s2.mapped == s1.mapped + {path}
    && s2.lost == s1.lost + Evicted(s1.mem, root, s1.mapped, path)
  }

  /** alloc_page failed: the list is exhausted, and the frame it had popped is lost. */
  ghost predicate Exhausts(root: nat, s1: Holdings, s2: Holdings) {
    s2.free == [] &&
    if s1.free == [] then s2 == s1
    else
      && Popped(root, s1, s2) && SameTranslation(root, s1.mem, s2.mem) && s2.mapped == s1.mapped
      && s2.lost == s1.lost + {s1.free[|s1.free| - 1]}
  }

  /** alloc_page of a non-null address: the exact condition for success, and its cost. */
  ghost predicate Alloc(root: nat, s1: Holdings, s2: Holdings, path: seq<nat>)
    requires |path| == 4
  {
    if 1 + Missing(s1.mem, root, path) <= |s1.free| then
      |s2.free| == |s1.free| - 1 - Missing(s1.mem, root, path) && Allocates(root, s1, s2, path)
    else Exhausts(root, s1, s2)
  }

  /** The map_to_page call in it, on a frame that was popped and counts as lost. */
  ghost predicate Mapping(root: nat, s1: Holdings, s2: Holdings, path: seq<nat>, frame: nat)
    requires |path| == 4
  {
    && s1.mem.Keys == s2.mem.Keys && Grown(root, s1.mem, s1.free, s2.mem, s2.free)
    && if Missing(s1.mem, root, path) <= |s1.free| then
         && |s2.free| == |s1.free| - Missing(s1.mem, root, path)
         && Remapped(root, s1.mem, s2.mem, path, Some(frame)) && s2.mapped == s1.mapped + {path}
         && s2.lost == s1.lost - {frame} + Evicted(s1.mem, root, s1.mapped, path)
       else
         s2.free == [] && SameTranslation(root, s1.mem, s2.mem) && s2.mapped == s1.mapped && s2.lost == s1.lost
  }

  lemma MappingIsAlloc(root: nat, s: Holdings, s1: Holdings, s2: Holdings, path: seq<nat>)
    requires |path| == 4 && s.free != []
    requires Partition(s.mem, root, s.free, s.mapped, s.lost) && FreeOk(s.mem, root, s.free[..|s.free| - 1])
    requires var top := s.free[|s.free| - 1];
             s1 == Holdings(s.mem, s.free[..|s.free| - 1], s.mapped, s.lost + {top}) && Mapping(root, s1, s2, path, top)
    ensures Alloc(root, s, s2, path)
  {
    TopUnowned(s.mem, root, s.free, s.mapped, s.lost, path);
  }

  lemma CountsStep(root: nat, m0: Memory, free0: seq<nat>, s1: Holdings, s2: Holdings, n: nat)
    requires Counts(root, m0, free0, s1.mem, s1.free, n) && Popped(root, s1, s2)
    ensures Counts(root, m0, free0, s2.mem, s2.free, n + 1)
  {
    TablesCount(root, m0, s1.mem, s1.free[..|s1.free| - 1], s2.mem, s2.free);
  }

  /** One more page got a frame. */
  lemma ProgressStep(root: nat, s0: Holdings, s1: Holdings, s2: Holdings, start: nat, done: nat)
    requires Progress(root, s0, s1, start, done, {}) && Allocates(root, s1, s2, PathOf(start, done))
    ensures Progress(root, s0, s2, start, done + 1, {})
  {
    CountsStep(root, s0.mem, s0.free, s1, s2, done);
    SameOutsideStep(root, s0.mem, s1.mem, s2.mem, start, done, PathOf(start, done), Some(s1.free[|s1.free| - 1]));
    PathsStep(start, done);
    LosesStep(root, s0, s1, s2.lost, start, done);
  }

  lemma LosesStep(root: nat, s0: Holdings, s1: Holdings, lost: set<nat>, start: nat, done: nat)
    requires s1.mapped == s0.mapped + Paths(start, done) && SameOutside(root, s0.mem, s1.mem, start, done)
    requires LosesOnly(root, s0, s1.lost, start, done, {})
    requires lost == s1.lost + Evicted(s1.mem, root, s1.mapped, PathOf(start, done))
    ensures LosesOnly(root, s0, lost, start, done + 1, {})
  {
    if done + 1 <= PAGES {
      ReplacedStep(root, s0, s1, start, done);
    }
  }

  lemma PathsAllIn(start: nat, n: nat, mapped0: set<seq<nat>>, mapped: set<seq<nat>>)
    requires mapped == mapped0 + Paths(start, n)
    ensures AllIn(start, n, mapped)
  {
    assert forall k | 0 <= k < n :: PathOf(start, k) in Paths(start, n);
  }

  lemma PathsStep(start: nat, n: nat)
    ensures Paths(start, n + 1) == Paths(start, n) + {PathOf(start, n)}
  {
  }

  lemma ReplacedStep(root: nat, s0: Holdings, s1: Holdings, start: nat, done: nat)
    requires done < PAGES && s1.mapped == s0.mapped + Paths(start, done)
    requires SameOutside(root, s0.mem, s1.mem, start, done)
    ensures Replaced(s0.mem, root, s0.mapped, start, done + 1) ==
            Replaced(s0.mem, root, s0.mapped, start, done) + Evicted(s1.mem, root, s1.mapped, PathOf(start, done))
  {
    var path := PathOf(start, done);
    forall k: nat | k < done
      ensures PathOf(start, k) != path
    {
      PathsDiffer(start, k, done);
    }
    assert !Visited(start, done, path) && path !in Paths(start, done);
    assert Evicted(s1.mem, root, s1.mapped, path) == Evicted(s0.mem, root, s0.mapped, path);
  }

  /** A round that could not map its page: the list is exhausted, and the popped frame is stray. */
  lemma ProgressEnds(root: nat, s0: Holdings, s1: Holdings, s2: Holdings, start: nat, done: nat)
    requires Progress(root, s0, s1, start, done, {}) && s1.free != [] && Exhausts(root, s1, s2)
    ensures Progress(root, s0, s2, start, done, {s1.free[|s1.free| - 1]})
  {
    CountsStep(root, s0.mem, s0.free, s1, s2, done);
    SameOutsideSame(root, s0.mem, s1.mem, s2.mem, start, done);
    LosesEnd(root, s0, s1.lost, start, done, s1.free[|s1.free| - 1]);
  }

  lemma LosesEnd(root: nat, s0: Holdings, lost: set<nat>, start: nat, done: nat, top: nat)
    requires LosesOnly(root, s0, lost, start, done, {})
    ensures LosesOnly(root, s0, lost + {top}, start, done, {top})
  {
  }

  lemma SameOutsideSame(root: nat, m0: Memory, m1: Memory, m2: Memory, start: nat, n: nat)
    requires SameOutside(root, m0, m1, start, n) && SameTranslation(root, m1, m2)
    ensures SameOutside(root, m0, m2, start, n)
  {
    forall p | !Visited(start, n, p)
      ensures LeafAt(m2, root, p) == LeafAt(m0, root, p)
    {
      assert LeafAt(m2, root, p) == LeafAt(m1, root, p);
    }
  }

  // ----- the rounds of mmap -----

  /** Round `k` of the loop allocates page `k` from `start` on. */
  ghost predicate RoundAt(root: nat, trail: seq<Holdings>, start: nat, k: int) {
    0 <= k < |trail| - 1 ==> Alloc(root, trail[k], trail[k + 1], PathOf(start, k))
  }

  /** What was owned before the loop and after each of its rounds. */
  ghost predicate IsTrail(root: nat, trail: seq<Holdings>, start: nat) {
    trail != [] && forall k :: RoundAt(root, trail, start, k)
  }

  lemma TrailStep(root: nat, trail: seq<Holdings>, s: Holdings, start: nat)
    requires IsTrail(root, trail, start) && Alloc(root, trail[|trail| - 1], s, PathOf(start, |trail| - 1))
    ensures IsTrail(root, trail + [s], start)
  {
    var more := trail + [s];
    forall k
      ensures RoundAt(root, more, start, k)
    {
      assert RoundAt(root, trail, start, k);
    }
  }

  /** After any number of rounds: how many pages were mapped, and the frame lost by the round that found too few. */
  lemma {:induction false} TrailProgress(root: nat, trail: seq<Holdings>, start: nat, n: nat)
    returns (done: nat, stray: set<nat>)
    requires IsTrail(root, trail, start) && n < |trail|
    ensures Progress(root, trail[0], trail[n], start, done, stray) && done <= n
    ensures (done < n ==> trail[n].free == []) && (done == n ==> stray == {})
    ensures 4 * n <= |trail[0].free| ==> done == n && |trail[n].free| >= |trail[0].free| - 4 * n
  {
    if n == 0 {
      done, stray := 0, {};
      NoProgress(root, trail[0], start);
    } else {
      var before, left := TrailProgress(root, trail, start, n - 1);
      assert RoundAt(root, trail, start, n - 1);
      done, stray := OneRound(root, trail[0], trail[n - 1], trail[n], start, n - 1, before, left);
    }
  }

  lemma OneRound(root: nat, s0: Holdings, s1: Holdings, s2: Holdings, start: nat, k: nat, before: nat, left: set<nat>)
    returns (done: nat, stray: set<nat>)
    requires Progress(root, s0, s1, start, before, left) && before <= k && Alloc(root, s1, s2, PathOf(start, k))
    requires (before < k ==> s1.free == []) && (before == k ==> left == {})
    ensures Progress(root, s0, s2, start, done, stray) && done <= k + 1
    ensures (done < k + 1 ==> s2.free == []) && (done == k + 1 ==> stray == {})
    ensures before == k && 4 <= |s1.free| ==> done == k + 1 && |s2.free| >= |s1.free| - 4
  {
    done, stray := before, left;
    if s1.free != [] {
      if 1 + Missing(s1.mem, root, PathOf(start, k)) <= |s1.free| {
        ProgressStep(root, s0, s1, s2, start, k);
        done := k + 1;
      } else {
        ProgressEnds(root, s0, s1, s2, start, k);
        stray := {s1.free[|s1.free| - 1]};
      }
    }
  }
}
