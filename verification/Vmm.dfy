/** vmm.c: pages backed by frames of the free list, and the growing kernel heap region. */
module VirtualMemory {
  import opened Machine
  import opened Wrappers
  import opened PageFormat
  import opened PageTree
  import opened Paging
  import opened Ownership
  import opened PageRange

  datatype Call = AllocPage(va: nat) | Mmap(size: nat) | Munmap(va: nat, size: nat)

  /** The pages that the first `n` calls ask of mmap. */
  function PagesAsked(calls: seq<Call>, n: nat): nat
    requires n <= |calls|
  {
    if n == 0 then 0 else PagesAsked(calls, n - 1) + if calls[n - 1].Mmap? then calls[n - 1].size else 0
  }

  /** The byte-counting loops of mmap and munmap run once per started 4096 of `size`. */
  function LoopCount(size: nat): nat {
    (size + PAGE_SIZE - 1) / PAGE_SIZE
  }

  /** So they visit every one of the `size` pages asked for only when that is at most one. */
  lemma LoopCountIsSize(size: nat)
    ensures LoopCount(size) <= size
    ensures LoopCount(size) == size <==> size <= 1
  {
  }

  lemma RoundsLeft(size: nat, k: nat)
    ensures k * PAGE_SIZE < size <==> k < LoopCount(size)
  {
  }

  class Vmm {
    const pages: PageTables
    var heapEnd: nat
    ghost var mapped: set<seq<nat>>
    ghost var lost: set<nat>

    /** init_vmm, before its call of alloc_page; init_heap has set the heap end. */
    constructor (pages: PageTables, heapStart: nat)
      requires pages.cr3 % PAGE_SIZE == 0 && Partition(pages.mem, pages.cr3, pages.free, {}, {})
      ensures Valid() && this.pages == pages && heapEnd == heapStart && mapped == {} && lost == {}
    {
      this.pages, heapEnd, mapped, lost := pages, heapStart, {}, {};
    }

    ghost predicate Valid()
      reads this, pages
    {
      && pages.cr3 % PAGE_SIZE == 0
      && Partition(pages.mem, pages.cr3, pages.free, mapped, lost)
    }

    /** If the page shows a frame, the memory manager mapped it. */
    ghost predicate Managed(p: seq<nat>)
      reads this, pages
    {
      IsMapped(pages.mem, pages.cr3, p) ==> p in mapped
    }

    /** Outside `boot` nothing but the memory manager has mapped a page. */
    ghost predicate AllManaged(boot: iset<seq<nat>>)
      reads this, pages
    {
      forall p | p !in boot :: Managed(p)
    }

    ghost function Now(): Holdings
      reads this, pages
    {
      Holdings(pages.mem, pages.free, mapped, lost)
    }

    /** alloc_page. */
    method AllocPage(va: nat) returns (r: nat)
      requires Valid()
      modifies this`mapped, this`lost, pages
      ensures Valid() && pages.mem.Keys == old(pages.mem.Keys)
      ensures forall p | old(Managed(p)) :: Managed(p)
      ensures var free0, missing := old(pages.free), Missing(old(pages.mem), pages.cr3, Indices(va));
              var ok := va != 0 && 1 + missing <= |free0|;
              && r == (if ok then va else 0)
              && (ok ==> LeafStored(pages.cr3, old(pages.mem), pages.mem, Indices(va), free0[|free0| - 1]))
      ensures va != 0 ==> Alloc(pages.cr3, old(Now()), Now(), Indices(va))
      ensures va == 0 ==> pages.mem == old(pages.mem) && mapped == old(mapped)
      ensures va == 0 && old(pages.free) != [] ==>
                var top := |old(pages.free)| - 1;
                pages.free == old(pages.free)[..top] && lost == old(lost) + {old(pages.free)[top]}
    {
      if pages.free == [] {
        return 0;
      }
      ghost var s := Now();
      var frame := pages.free[|pages.free| - 1];
      PopLoses(pages.mem, pages.cr3, pages.free, mapped, lost);
      pages.free := pages.free[..|pages.free| - 1];
      lost := lost + {frame};
      if va == 0 {
        return 0;
      }
      ghost var s1 := Now();
      r := MapFrame(va, frame);
      MappingIsAlloc(pages.cr3, s, s1, Now(), Indices(va));
    }

    /** The map_to_page call of alloc_page, on the frame it popped. */
    method MapFrame(va: nat, frame: nat) returns (r: nat)
      requires Valid() && frame in lost && IsFrame(frame)
      modifies this`mapped, this`lost, pages
      ensures Valid() && pages.mem.Keys == old(pages.mem.Keys)
      ensures forall p | old(Managed(p)) :: Managed(p)
      ensures Mapping(pages.cr3, old(Now()), Now(), Indices(va), frame)
      ensures var ok := Missing(old(pages.mem), pages.cr3, Indices(va)) <= |old(pages.free)|;
              && r == (if ok then va else 0)
              && (ok ==> LeafStored(pages.cr3, old(pages.mem), pages.mem, Indices(va), frame))
    {
      ghost var root, mem0, free0, path := pages.cr3, pages.mem, pages.free, Indices(va);
      r := pages.MapToPage(va, frame, 0);
      if Missing(mem0, root, path) <= |free0| {
        MappingKeeps(mem0, pages.mem, root, free0, pages.free, mapped, lost, path, frame);
        lost := lost - {frame} + Evicted(mem0, root, mapped, path);
        mapped := mapped + {path};
      } else {
        GrowthKeeps(mem0, pages.mem, root, free0, pages.free, mapped, lost);
      }
    }

    /** grow_heap, without its lock. */
    method GrowHeap(size: nat) returns (start: nat)
      modifies this`heapEnd
      ensures start == old(heapEnd) && heapEnd == start + size * PAGE_SIZE
    {
      start := heapEnd;
      heapEnd := heapEnd + size * PAGE_SIZE;
    }

    /** mmap. The result of alloc_page is not looked at: the first `done` pages are mapped, and if that is not all
        that the loop visits, the list is exhausted. */
    method Mmap(size: nat) returns (start: nat, ghost done: nat, ghost stray: set<nat>)
      requires Valid()
      modifies this, pages
      ensures Valid() && pages.mem.Keys == old(pages.mem.Keys)
      ensures start == old(heapEnd) && heapEnd == start + size * PAGE_SIZE
      ensures forall p | old(Managed(p)) :: Managed(p)
      ensures Progress(pages.cr3, old(Now()), Now(), start, done, stray) && done <= LoopCount(size)
      ensures start == 0 ==> Now() == old(Now()) && done == 0
      ensures start != 0 && done < LoopCount(size) ==> pages.free == []
      ensures done == LoopCount(size) ==> stray == {} && AllIn(start, done, mapped)
      ensures 4 * LoopCount(size) <= |old(pages.free)| && start != 0 ==> done == LoopCount(size)
    {
      start := GrowHeap(size);
      ghost var trail := [Now()];
      if start == 0 {
        done, stray := 0, {};
        NoProgress(pages.cr3, Now(), start);
      } else {
        trail := MapPages(start, size);
        done, stray := TrailProgress(pages.cr3, trail, start, LoopCount(size));
      }
      PathsAllIn(start, done, old(mapped), mapped);
    }

    /** The loop of mmap, with what was owned after each of its rounds. */
    method MapPages(start: nat, size: nat) returns (ghost trail: seq<Holdings>)
      requires Valid() && 0 < start
      modifies this`mapped, this`lost, pages
      ensures Valid() && pages.mem.Keys == old(pages.mem.Keys)
      ensures forall p | old(Managed(p)) :: Managed(p)
      ensures IsTrail(pages.cr3, trail, start) && |trail| == LoopCount(size) + 1
      ensures trail[0] == old(Now()) && trail[LoopCount(size)] == Now()
    {
      trail := [Now()];
      var addr := start;
      ghost var k := 0;
      while addr < start + size
        invariant IsTrail(pages.cr3, trail, start) && |trail| == k + 1 && trail[0] == old(Now()) && trail[k] == Now()
        invariant 0 <= k <= LoopCount(size) && addr == start + k * PAGE_SIZE
        invariant Valid() && pages.mem.Keys == old(pages.mem.Keys)
        invariant forall p | old(Managed(p)) :: Managed(p)
        decreases start + size - addr
      {
        RoundsLeft(size, k);
        PathOfAddress(start, k, addr);
        var r := AllocPage(addr);
        TrailStep(pages.cr3, trail, Now(), start);
        trail := trail + [Now()];
        addr, k := addr + PAGE_SIZE, k + 1;
      }
      RoundsLeft(size, k);
    }

    /** munmap. A frame that unmap_page returns goes back on the list; otherwise it is lost. */
    method Munmap(va: nat, size: nat)
      requires Valid()
      requires pages.returnsFrame ==> forall k | 0 <= k < LoopCount(size) :: Managed(PathOf(va, k))
      modifies this`mapped, this`lost, pages
      ensures Valid() && pages.mem.Keys == old(pages.mem.Keys)
      ensures forall p | old(Managed(p)) :: Managed(p)
      ensures Cleared(pages.cr3, old(pages.mem), pages.mem, va, LoopCount(size))
      ensures pages.returnsFrame ==> lost == old(lost) && old(pages.free) <= pages.free
      ensures !pages.returnsFrame ==> pages.free == old(pages.free) && old(lost) <= lost
    {
      var addr := va;
      ghost var k := 0;
      while addr < va + size
        invariant 0 <= k <= LoopCount(size) && addr == va + k * PAGE_SIZE
        invariant Valid() && pages.mem.Keys == old(pages.mem.Keys)
        invariant forall p | old(Managed(p)) :: Managed(p)
        invariant Cleared(pages.cr3, old(pages.mem), pages.mem, va, k)
        invariant pages.returnsFrame ==> lost == old(lost) && old(pages.free) <= pages.free
        invariant !pages.returnsFrame ==> pages.free == old(pages.free) && old(lost) <= lost
        decreases va + size - addr
      {
        ghost var before := pages.mem;
        PathOfAddress(va, k, addr);
        RoundsLeft(size, k);
        UnmapOne(addr);
        ClearedStep(pages.cr3, old(pages.mem), before, pages.mem, va, k, Indices(addr));
        addr := addr + PAGE_SIZE;
        k := k + 1;
      }
      RoundsLeft(size, k);
    }

    /** One round of munmap's loop. */
    method UnmapOne(va: nat)
      requires Valid()
      requires pages.returnsFrame ==> Managed(Indices(va))
      modifies this`mapped, this`lost, pages
      ensures Valid() && pages.mem.Keys == old(pages.mem.Keys)
      ensures forall p | old(Managed(p)) :: Managed(p)
      ensures var before := Translate(old(pages.mem), pages.cr3, va);
              if before.Some? && before.value != 0 then Remapped(pages.cr3, old(pages.mem), pages.mem, Indices(va), None)
              else pages.mem == old(pages.mem)
      ensures pages.returnsFrame ==> lost == old(lost) && old(pages.free) <= pages.free
      ensures !pages.returnsFrame ==> pages.free == old(pages.free) && old(lost) <= lost
    {
      ghost var root, mem0, path := pages.cr3, pages.mem, Indices(va);
      ghost var before := Translate(mem0, root, va);
      pages.ActiveRoot();
      var frame := pages.UnmapPage(va);
      if frame != 0 {
        ReturnKeeps(mem0, pages.mem, root, pages.free, mapped, lost, path, frame);
        pages.free := pages.free + [frame];
        mapped := mapped - {path};
      } else if before.Some? && before.value != 0 {
        UnmappingKeeps(mem0, pages.mem, root, pages.free, mapped, lost, path);
        lost := lost + Evicted(mem0, root, mapped, path);
        mapped := mapped - {path};
      }
    }

    /** Every run of the three calls keeps each frame in exactly one role. When unmap_page returns frames,
        munmap must spare the pages in `boot`, which somebody else mapped before the run. */
    method Run(calls: seq<Call>, ghost boot: iset<seq<nat>>) returns (ghost states: seq<Holdings>)
      requires Valid()
      requires pages.returnsFrame ==> AllManaged(boot) && forall i | 0 <= i < |calls| :: Spares(calls[i], boot)
      modifies this, pages
      ensures Valid() && pages.mem.Keys == old(pages.mem.Keys)
      ensures old(AllManaged(boot)) ==> AllManaged(boot)
      ensures heapEnd == old(heapEnd) + PAGE_SIZE * PagesAsked(calls, |calls|)
      ensures |states| == |calls| + 1 && states[0] == old(Now()) && states[|calls|] == Now()
      ensures forall i :: EffectAt(pages.cr3, calls, states, old(heapEnd), i)
    {
      states := [Now()];
      for i := 0 to |calls|
        invariant Valid() && pages.mem.Keys == old(pages.mem.Keys)
        invariant heapEnd == old(heapEnd) + PAGE_SIZE * PagesAsked(calls, i)
        invariant forall p | old(Managed(p)) :: Managed(p)
        invariant |states| == i + 1 && states[0] == old(Now()) && states[i] == Now()
        invariant forall j :: EffectAt(pages.cr3, calls, states, old(heapEnd), j)
      {
        assert pages.returnsFrame ==> Spares(calls[i], boot);
        states := PerformNext(calls, i, boot, states, old(heapEnd));
      }
    }

    /** Call `i` of a run. */
    method PerformNext(calls: seq<Call>, i: nat, ghost boot: iset<seq<nat>>, ghost states: seq<Holdings>,
                       ghost heapStart: nat) returns (ghost more: seq<Holdings>)
      requires Valid() && i < |calls| && (pages.returnsFrame ==> AllManaged(boot) && Spares(calls[i], boot))
      requires heapEnd == heapStart + PAGE_SIZE * PagesAsked(calls, i) && |states| == i + 1 && states[i] == Now()
      requires forall j :: EffectAt(pages.cr3, calls, states, heapStart, j)
      modifies this, pages
      ensures Valid() && pages.mem.Keys == old(pages.mem.Keys)
      ensures forall p | old(Managed(p)) :: Managed(p)
      ensures heapEnd == heapStart + PAGE_SIZE * PagesAsked(calls, i + 1)
      ensures |more| == i + 2 && more[0] == states[0] && more[i + 1] == Now()
      ensures forall j :: EffectAt(pages.cr3, calls, more, heapStart, j)
    {
      Perform(calls[i], boot);
      more := states + [Now()];
      EffectLast(pages.cr3, calls, more, heapStart, i, states[i], Now());
      EffectStep(pages.cr3, calls, states, heapStart, more);
    }

    /** One call, and what every one of them keeps. */
    method Perform(c: Call, ghost boot: iset<seq<nat>>)
      requires Valid() && (pages.returnsFrame ==> AllManaged(boot) && Spares(c, boot))
      modifies this, pages
      ensures Valid() && pages.mem.Keys == old(pages.mem.Keys)
      ensures forall p | old(Managed(p)) :: Managed(p)
      ensures heapEnd == old(heapEnd) + PAGE_SIZE * if c.Mmap? then c.size else 0
      ensures Effect(pages.cr3, c, old(heapEnd), old(Now()), Now())
    {
      match c {
        case AllocPage(va) => var r := AllocPage(va);
        case Mmap(size) => var r, done, stray := Mmap(size);
        case Munmap(va, size) => Munmap(va, size);
      }
    }
  }

  /** What one call does to what the memory manager owns. */
  ghost predicate Effect(root: nat, c: Call, heapEnd: nat, s: Holdings, s': Holdings) {
    match c
    case AllocPage(va) => if va != 0 then Alloc(root, s, s', Indices(va)) else s'.mem == s.mem && s'.mapped == s.mapped
    case Mmap(size) => if heapEnd != 0 then MapsPages(root, size, heapEnd, s, s') else s' == s
    case Munmap(va, size) => Cleared(root, s.mem, s'.mem, va, LoopCount(size))
  }

  ghost predicate MapsPages(root: nat, size: nat, start: nat, s: Holdings, s': Holdings) {
    exists done: nat, stray: set<nat> :: Progress(root, s, s', start, done, stray) && done <= LoopCount(size)
                          && (done < LoopCount(size) ==> s'.free == [])
  }

  /** Call `i` of the run. */
  ghost predicate EffectAt(root: nat, calls: seq<Call>, states: seq<Holdings>, heapStart: nat, i: int) {
    0 <= i < |calls| && i < |states| - 1 ==>
      Effect(root, calls[i], heapStart + PAGE_SIZE * PagesAsked(calls, i), states[i], states[i + 1])
  }

  lemma EffectStep(root: nat, calls: seq<Call>, states: seq<Holdings>, heapStart: nat, more: seq<Holdings>)
    requires 0 < |states| <= |calls| && |more| == |states| + 1 && states == more[..|states|]
    requires forall i :: EffectAt(root, calls, states, heapStart, i)
    requires EffectAt(root, calls, more, heapStart, |states| - 1)
    ensures forall i :: EffectAt(root, calls, more, heapStart, i)
  {
    forall i
      ensures EffectAt(root, calls, more, heapStart, i)
    {
      if 0 <= i < |states| - 1 {
        EffectSame(root, calls, states, more, heapStart, i);
      } else if i != |states| - 1 {
        EffectNone(root, calls, more, heapStart, i);
      }
    }
  }

  lemma EffectNone(root: nat, calls: seq<Call>, states: seq<Holdings>, heapStart: nat, i: int)
    requires i < 0 || i >= |states| - 1
    ensures EffectAt(root, calls, states, heapStart, i)
  {
  }

  lemma EffectLast(root: nat, calls: seq<Call>, more: seq<Holdings>, heapStart: nat, i: nat, s: Holdings, s': Holdings)
    requires i < |calls| && |more| == i + 2 && more[i] == s && more[i + 1] == s'
    requires Effect(root, calls[i], heapStart + PAGE_SIZE * PagesAsked(calls, i), s, s')
    ensures EffectAt(root, calls, more, heapStart, i)
  {
  }

  lemma EffectSame(root: nat, calls: seq<Call>, states: seq<Holdings>, more: seq<Holdings>, heapStart: nat, i: nat)
    requires i < |calls| && i + 1 < |states| && i + 1 < |more| && more[i] == states[i] && more[i + 1] == states[i + 1]
    requires forall j :: EffectAt(root, calls, states, heapStart, j)
    ensures EffectAt(root, calls, more, heapStart, i)
  {
    assert EffectAt(root, calls, states, heapStart, i);
  }

  /** The page shows a frame that unmap_page would see. */
  ghost predicate IsMapped(mem: Memory, root: nat, p: seq<nat>) {
    LeafAt(mem, root, p).Some? && LeafAt(mem, root, p).value != 0
  }

  /** The call unmaps none of the pages in `boot`. */
  ghost predicate Spares(c: Call, boot: iset<seq<nat>>) {
    c.Munmap? ==> forall k | 0 <= k < LoopCount(c.size) :: PathOf(c.va, k) !in boot
  }
}
