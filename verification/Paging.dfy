/** paging.c: mapping and unmapping pages by storing into page tables in physical memory. */
module Paging {
  import opened Machine
  import opened Wrappers
  import opened PageFormat
  import opened PageTree

  /** Where a page-table entry lives. */
  datatype Slot = Slot(table: nat, index: nat)

  /** Physical memory, the free-frame list (top of the stack last) and the CR3 register.
      Tables are named by their physical address, so `phys_to_virt_translation` is the identity. */
  class PageTables {
    var mem: Memory
    var free: seq<nat>
    const cr3: nat
    const returnsFrame: bool

    constructor (mem: Memory, free: seq<nat>, cr3: nat, returnsFrame: bool)
      ensures this.mem == mem && this.free == free && this.cr3 == cr3 && this.returnsFrame == returnsFrame
    {
      this.mem, this.free, this.cr3, this.returnsFrame := mem, free, cr3, returnsFrame;
    }

    ghost predicate Valid(root: nat)
      reads this
    {
      TreeOk(mem, root) && FreeOk(mem, root, free)
    }

    /** create_new_page_table: pop a frame and zero it, or NULL when no frame is left. */
    method CreateNewPageTable() returns (addr: nat)
      requires forall i | 0 <= i < |free| :: IsFrame(free[i])
      modifies this
      ensures old(free) == [] ==> addr == 0 && mem == old(mem) && free == []
      ensures old(free) != [] ==> addr == old(free)[|old(free)| - 1] && IsFrame(addr)
                                  && free == old(free)[..|old(free)| - 1] && mem == old(mem)[addr := Zeroed()]
    {
      if free == [] {
        return 0;
      }
      addr := free[|free| - 1];
      free := free[..|free| - 1];
      mem := mem[addr := Zeroed()];
    }

    /** One level of map_to_page: follow entry `i` of table `t`, creating the next table when
        the entry is not present. `q` is the path that leads to `t`. */
    method Descend(t: nat, i: nat, ghost root: nat, ghost q: seq<nat>) returns (ok: bool, next: nat)
      requires Valid(root) && i < ENTRIES && |q| <= 2 && TableAt(mem, root, q) == Some(t)
      modifies this
      ensures Valid(root) && Grown(root, old(mem), old(free), mem, free) && SameTranslation(root, old(mem), mem)
      ensures TableAt(mem, root, q + [i]) == if ok then Some(next) else None
      ensures var before := TableAt(old(mem), root, q + [i]);
              && ok == (before.Some? || old(free) != [])
              && |free| == |old(free)| - (if before == None && ok then 1 else 0)
      ensures forall p | p != q + [i] :: TableAt(mem, root, p) == TableAt(old(mem), root, p)
      ensures LinksAdded(root, old(mem), mem)
    {
      WalkStep(mem, root, q, i);
      var entry := mem[t][i];
      if Present(entry) {
        return true, PhysAddress(entry);
      }
      ghost var mem0 := mem;
      if free != [] {
        LinkGrows(mem, root, free, q, i);
        assert IsTable(mem, root, t);
      }
      next := CreateNewPageTable();
      if next == 0 {
        return false, 0;
      }
      mem := mem[t := mem[t][i := Encode(next)]];
      assert mem == Linked(mem0, t, i, next);
      LinkWords(mem0, mem, root, q, i, next);
      LinkAdds(mem0, mem, root, q, i, next);
      ok := true;
    }

    /** The three table levels of map_to_page. */
    method ReachPageTable(path: seq<nat>, root: nat) returns (ok: bool, table: nat)
      requires Valid(root) && |path| == 4 && forall k | 0 <= k < 4 :: path[k] < ENTRIES
      modifies this
      ensures Valid(root) && Grown(root, old(mem), old(free), mem, free) && SameTranslation(root, old(mem), mem)
      ensures LinksAdded(root, old(mem), mem)
      ensures ok ==> TableAt(mem, root, path[..3]) == Some(table)
      ensures var missing := Missing(old(mem), root, path);
              && ok == (missing <= |old(free)|)
              && |free| == (if ok then |old(free)| - missing else 0)
              && Missing(mem, root, path) == if ok then 0 else missing - |old(free)|
    {
      ghost var m0, f0 := mem, free;
      PathPrefixes(path);
      ok, table := Descend(root, path[0], root, path[..0]);
      MissingStep(m0, mem, root, path, 0);
      if !ok { return; }
      ghost var m1, f1 := mem, free;
      ok, table := Descend(table, path[1], root, path[..1]);
      GrownTrans(root, m0, f0, m1, f1, mem, free);
      LinksAddedTrans(root, m0, m1, mem);
      MissingStep(m1, mem, root, path, 1);
      if !ok { return; }
      ghost var m2, f2 := mem, free;
      ok, table := Descend(table, path[2], root, path[..2]);
      GrownTrans(root, m0, f0, m2, f2, mem, free);
      LinksAddedTrans(root, m0, m2, mem);
      MissingStep(m2, mem, root, path, 2);
    }

    /** map_to_page. A missing table is allocated on demand; when the frames run out the
        tables linked so far stay. */
    method MapToPage(va: nat, frame: nat, pml4: nat) returns (r: nat)
      requires IsFrame(frame)
      requires Valid(Root(pml4))
      modifies this
      ensures Valid(Root(pml4)) && Grown(Root(pml4), old(mem), old(free), mem, free)
      ensures var root := Root(pml4);
              var missing := Missing(old(mem), root, Indices(va));
              if missing <= |old(free)| then
                && r == va && |free| == |old(free)| - missing && Missing(mem, root, Indices(va)) == 0
                && Remapped(root, old(mem), mem, Indices(va), Some(frame))
              else
                && r == 0 && free == [] && Missing(mem, root, Indices(va)) == missing - |old(free)|
                && SameTranslation(root, old(mem), mem)
      ensures Missing(old(mem), Root(pml4), Indices(va)) > |old(free)| ==> LinksAdded(Root(pml4), old(mem), mem)
      ensures Missing(old(mem), Root(pml4), Indices(va)) <= |old(free)| ==>
                LeafStored(Root(pml4), old(mem), mem, Indices(va), frame)
    {
      var path := Indices(va);
      var root := Root(pml4);
      ghost var m0, f0 := mem, free;
      var ok, table := ReachPageTable(path, root);
      if !ok {
        return 0;
      }
      assert path == path[..3] + [path[3]];
      LeafRemaps(mem, root, free, path[..3], path[3], Encode(frame));
      DecodeEncode(frame);
      EncodeWord(frame);
      ghost var m1, f1 := mem, free;
      mem := mem[table := mem[table][path[3] := Encode(frame)]];
      GrownTrans(root, m0, f0, m1, f1, mem, free);
      LeafWords(m1, mem, root, path[..3], path[3], Encode(frame));
      LeafAdds(m0, m1, mem, root, path, frame);
      return va;
    }

    /** identity_map_page on every page from 0x1000 up to 2 MiB, in a new tree. */
    method CreateKernelPageTables() returns (pml4: nat)
      requires free != [] && forall i | 0 <= i < |free| :: IsFrame(free[i]) && free[i] in mem
      requires forall i, j | 0 <= i < j < |free| :: free[i] != free[j]
      modifies this
      ensures pml4 == old(free)[|old(free)| - 1] && Valid(pml4)
      ensures free == old(free)[..if |old(free)| >= 4 then |old(free)| - 4 else 0]
      ensures IdentityBelow(mem, pml4, if |old(free)| >= 4 then 512 else 1)
      ensures AllWritable(mem, pml4)
    {
      ghost var enough := |free| >= 4;
      pml4 := CreateNewPageTable();
      EmptyTree(mem, pml4);
      assert free == old(free)[..|old(free)| - 1];
      ghost var free1 := free;
      var i := 0x1000;
      ghost var j := 1;
      while i < 1024 * 1024 * 2
        invariant 1 <= j <= 512 && i == j * PAGE_SIZE
        invariant Valid(pml4) && free <= free1
        invariant |free| == if j == 1 then |free1| else if enough then |free1| - 3 else 0
        invariant LowMissing(mem, pml4) == if j == 1 then 3 else if enough then 0 else 3 - |free1|
        invariant IdentityBelow(mem, pml4, if enough then j else 1) && AllWritable(mem, pml4)
      {
        IdentityMapPage(i, pml4, j, enough);
        i := i + PAGE_SIZE;
        j := j + 1;
      }
    }

    /** identity_map_page on page `j` of the first 2 MiB; `enough` is whether there are frames for its tables. */
    method IdentityMapPage(frame: nat, pml4: nat, ghost j: nat, ghost enough: bool)
      requires 1 <= j < 512 && frame == j * PAGE_SIZE && pml4 != 0 && Valid(pml4)
      requires IdentityBelow(mem, pml4, if enough then j else 1) && enough == (LowMissing(mem, pml4) <= |free|)
      requires AllWritable(mem, pml4)
      modifies this
      ensures Valid(pml4) && free <= old(free) && IdentityBelow(mem, pml4, if enough then j + 1 else 1)
      ensures AllWritable(mem, pml4)
      ensures |free| == if enough then |old(free)| - LowMissing(old(mem), pml4) else 0
      ensures LowMissing(mem, pml4) == if enough then 0 else LowMissing(old(mem), pml4) - |old(free)|
    {
      LowIndices(j, mem, pml4);
      var r := MapToPage(frame, frame, pml4);
      LowIndices(j, mem, pml4);
      IdentityStep(old(mem), mem, pml4, j, enough);
      MappingKeepsWritable(old(mem), mem, pml4, Indices(frame), frame);
    }

    /** active_pml4_table: CR3 without its low twelve bits. */
    function ActivePml4(): nat {
      cr3 / PAGE_SIZE * PAGE_SIZE
    }

    lemma ActiveRoot()
      requires cr3 % PAGE_SIZE == 0
      ensures ActivePml4() == cr3
    {
    }

    /** fetch_page_table_entry: the loop over the four levels. It finds an entry exactly when
        the address translates, and then the slot of the last table on the path. */
    method FetchPageTableEntry(va: nat) returns (slot: Option<Slot>)
      requires TreeOk(mem, ActivePml4())
      ensures slot.Some? <==> Translate(mem, ActivePml4(), va).Some?
      ensures slot.Some? ==>
                var Slot(table, index) := slot.value;
                && TableAt(mem, ActivePml4(), Indices(va)[..3]) == Some(table) && index == Indices(va)[3]
                && Translate(mem, ActivePml4(), va) == Some(PhysAddress(Entry(mem, table, index)))
    {
      var path := Indices(va);
      var table := ActivePml4();
      var x := 0;
      while x < 4
        invariant 0 <= x <= 3
        invariant TableAt(mem, ActivePml4(), path[..x]) == Some(table)
      {
        FetchStep(mem, ActivePml4(), path, x, table);
        var entry := mem[table][path[x]];
        if !Present(entry) {
          return None;
        }
        if x == 3 {
          return Some(Slot(table, path[x]));
        }
        table := PhysAddress(entry);
        x := x + 1;
      }
      return None;
    }

    /** unmap_page. The entry is cleared; as written the function then returns NULL, while
        paging.h promises the frame. `returnsFrame` selects between the two. */
    method UnmapPage(va: nat) returns (r: nat)
      requires Valid(ActivePml4())
      modifies this`mem
      ensures Valid(ActivePml4()) && Grown(ActivePml4(), old(mem), free, mem, free)
      ensures var before := Translate(old(mem), ActivePml4(), va);
              if before.Some? && before.value != 0 then
                && Remapped(ActivePml4(), old(mem), mem, Indices(va), None)
                && r == (if returnsFrame then before.value else 0)
                && LeafCleared(ActivePml4(), old(mem), mem, Indices(va))
              else
                r == 0 && mem == old(mem)
    {
      var slot := FetchPageTableEntry(va);
      if slot == None {
        return 0;
      }
      var table, index := slot.value.table, slot.value.index;
      var frameAddr := PhysAddress(mem[table][index]);
      if frameAddr == 0 {
        return 0;
      }
      ghost var path := Indices(va);
      assert path == path[..3] + [path[3]];
      LeafRemaps(mem, ActivePml4(), free, path[..3], path[3], 0);
      mem := mem[table := mem[table][index := 0]];
      LeafWords(old(mem), mem, ActivePml4(), path[..3], path[3], 0);
      return if returnsFrame then frameAddr else 0;
    }

    /** Mapping a page that was not mapped and unmapping it again restores every translation. */
    method MapThenUnmap(va: nat, frame: nat)
      requires cr3 % PAGE_SIZE == 0 && Valid(cr3) && IsFrame(frame)
      requires Translate(mem, cr3, va) == None
      modifies this
      ensures Valid(cr3) && forall va' :: Translate(mem, cr3, va') == Translate(old(mem), cr3, va')
    {
      ActiveRoot();
      var r := MapToPage(va, frame, 0);
      var f := UnmapPage(va);
    }

    function Root(pml4: nat): nat {
      if pml4 == 0 then cr3 else pml4
    }
  }

  /** The leaf entry of the path holds the frame, present and writable, with every other bit clear; all other words are as
      they were, but for the links that were added. */
  ghost predicate LeafStored(root: nat, mem: Memory, mem': Memory, path: seq<nat>, frame: nat)
    requires |path| == 4
  {
    && EntryAt(mem', root, path[..3], path[3]) == frame + 3
    && forall p, i | p != path[..3] || i != path[3] :: EntryKept(root, mem, mem', p, i)
  }

  /** The leaf entry of the path is zero and no other word changed. */
  ghost predicate LeafCleared(root: nat, mem: Memory, mem': Memory, path: seq<nat>)
    requires |path| == 4
  {
    && EntryAt(mem', root, path[..3], path[3]) == 0
    && forall p, i | p != path[..3] || i != path[3] :: EntryAt(mem', root, p, i) == EntryAt(mem, root, p, i)
  }

  lemma LeafAdds(m0: Memory, m1: Memory, m2: Memory, root: nat, path: seq<nat>, frame: nat)
    requires |path| == 4 && LinksAdded(root, m0, m1) && EntryAt(m2, root, path[..3], path[3]) == frame + 3
    requires forall p, i | p != path[..3] || i != path[3] :: EntryAt(m2, root, p, i) == EntryAt(m1, root, p, i)
    ensures LeafStored(root, m0, m2, path, frame)
  {
    forall p, i | p != path[..3] || i != path[3]
      ensures EntryKept(root, m0, m2, p, i)
    {
      assert EntryKept(root, m0, m1, p, i);
    }
  }

  /** A page that map_to_page has mapped can be written through all four levels if and only if the links it found on the
      way allow it; those it made do. */
  lemma MappedWritable(mem: Memory, mem': Memory, root: nat, va: nat, frame: nat)
    requires IsFrame(frame) && LeafStored(root, mem, mem', Indices(va), frame)
    requires Remapped(root, mem, mem', Indices(va), Some(frame))
    ensures Writable(mem', root, Indices(va)) <==>
            forall k | 0 <= k < 3 && Present(EntryAt(mem, root, Indices(va)[..k], Indices(va)[k])) ::
              IsWritable(EntryAt(mem, root, Indices(va)[..k], Indices(va)[k]))
  {
    var path := Indices(va);
    EncodeWord(frame);
    assert |path[..3]| == 3;
    forall k | 0 <= k < 3
      ensures EntryKept(root, mem, mem', path[..k], path[k])
    {
      assert |path[..k]| == k;
    }
    WritableIff(mem, mem', root, path);
  }

  /** Every present entry of the tree allows writing. */
  ghost predicate AllWritable(mem: Memory, root: nat) {
    forall p, i :: Present(EntryAt(mem, root, p, i)) ==> IsWritable(EntryAt(mem, root, p, i))
  }

  lemma MappingKeepsWritable(mem: Memory, mem': Memory, root: nat, path: seq<nat>, frame: nat)
    requires AllWritable(mem, root) && |path| == 4 && IsFrame(frame)
    requires LinksAdded(root, mem, mem') || LeafStored(root, mem, mem', path, frame)
    ensures AllWritable(mem', root)
  {
    EncodeWord(frame);
    forall p, i | Present(EntryAt(mem', root, p, i))
      ensures IsWritable(EntryAt(mem', root, p, i))
    {
      BasicIsWritable(EntryAt(mem', root, p, i));
      if p == path[..3] && i == path[3] && !EntryKept(root, mem, mem', p, i) {
        assert EntryAt(mem', root, p, i) == frame + 3;
      } else {
        assert EntryKept(root, mem, mem', p, i);
      }
    }
  }

  lemma WritableTree(mem: Memory, root: nat, path: seq<nat>)
    requires AllWritable(mem, root) && |path| == 4 && LeafAt(mem, root, path).Some?
    ensures Writable(mem, root, path)
  {
    forall k | 0 <= k < 4
      ensures IsWritable(EntryAt(mem, root, path[..k], path[k]))
    {
      MappedPath(mem, root, path, k);
    }
  }

  /** A zeroed root is a tree of one table that translates nothing. */
  lemma EmptyTree(mem: Memory, root: nat)
    requires root in mem && mem[root] == Zeroed()
    ensures TreeOk(mem, root)
    ensures forall p :: TableAt(mem, root, p) == if p == [] then Some(root) else None
    ensures forall p :: LeafAt(mem, root, p) == None
  {
    forall p: seq<nat> | p != []
      ensures Walk(mem, root, p) == None
    {
      assert p[..1][..0] == [];
      assert Walk(mem, root, p[..1]) == None;
      StoppedWalk(mem, root, p[..1], p);
    }
  }

  /** The translation is the identity on pages 1 up to `n` and undefined everywhere else. */
  ghost predicate IdentityBelow(mem: Memory, root: nat, n: nat) {
    forall va :: Translate(mem, root, va) == if 1 <= Page(va) < n then Some(Page(va) * PAGE_SIZE) else None
  }

  lemma IdentityStep(mem: Memory, mem': Memory, root: nat, j: nat, mapped: bool)
    requires 1 <= j < 512 && IdentityBelow(mem, root, if mapped then j else 1)
    requires if mapped then Remapped(root, mem, mem', Indices(j * PAGE_SIZE), Some(j * PAGE_SIZE))
             else SameTranslation(root, mem, mem')
    ensures IdentityBelow(mem', root, if mapped then j + 1 else 1)
  {
    LowIndices(j, mem, root);
    forall va: nat
      ensures Translate(mem', root, va) == if mapped && 1 <= Page(va) <= j then Some(Page(va) * PAGE_SIZE) else None
    {
      if mapped {
        RemappedByAddress(root, mem, mem', j * PAGE_SIZE, Some(j * PAGE_SIZE), va);
      } else {
        assert LeafAt(mem', root, Indices(va)) == LeafAt(mem, root, Indices(va));
      }
    }
  }

  /** All of the first 2 MiB share one page table. */
  ghost function LowMissing(mem: Memory, root: nat): nat {
    Missing(mem, root, Indices(0))
  }

  lemma LowIndices(j: nat, mem: Memory, root: nat)
    requires j < 512
    ensures Page(j * PAGE_SIZE) == j
    ensures Missing(mem, root, Indices(j * PAGE_SIZE)) == LowMissing(mem, root)
  {
    assert Indices(j * PAGE_SIZE) == [0, 0, 0, j] && Indices(0) == [0, 0, 0, 0];
    assert forall k | 0 <= k < 4 :: Indices(j * PAGE_SIZE)[..k] == Indices(0)[..k];
  }

  /** One level of the looped walk. */
  lemma FetchStep(mem: Memory, root: nat, path: seq<nat>, x: nat, table: nat)
    requires |path| == 4 && x <= 3 && path[x] < ENTRIES && TableAt(mem, root, path[..x]) == Some(table) && table in mem
    ensures var entry := Entry(mem, table, path[x]);
            && entry == mem[table][path[x]]
            && (!Present(entry) ==> LeafAt(mem, root, path) == None)
            && (Present(entry) && x < 3 ==> TableAt(mem, root, path[..x + 1]) == Some(PhysAddress(entry)))
            && (Present(entry) && x == 3 ==> LeafAt(mem, root, path) == Some(PhysAddress(entry)))
  {
    WalkStep(mem, root, path[..x], path[x]);
    assert path[..x] + [path[x]] == path[..x + 1] && path[..4] == path;
    if Walk(mem, root, path[..x + 1]) == None {
      StoppedWalk(mem, root, path[..x + 1], path);
    }
  }

  lemma PathPrefixes(path: seq<nat>)
    requires |path| == 4
    ensures path[..0] == [] && forall k | 0 <= k < 4 :: path[..k] + [path[k]] == path[..k + 1]
  {
  }

  lemma PrefixesStop(mem: Memory, root: nat, path: seq<nat>)
    requires |path| == 4
    ensures TableAt(mem, root, path[..1]) == None ==> TableAt(mem, root, path[..2]) == None
    ensures TableAt(mem, root, path[..2]) == None ==> TableAt(mem, root, path[..3]) == None
  {
    assert path[..2][..1] == path[..1] && path[..3][..2] == path[..2];
  }

  /** What a change of the table at level `x` does to the number of missing tables. */
  lemma MissingStep(mem: Memory, mem': Memory, root: nat, path: seq<nat>, x: nat)
    requires |path| == 4 && x < 3 && (x > 0 ==> TableAt(mem, root, path[..x]).Some?)
    requires forall p | p != path[..x + 1] :: TableAt(mem', root, p) == TableAt(mem, root, p)
    ensures var before, after := TableAt(mem, root, path[..x + 1]), TableAt(mem', root, path[..x + 1]);
            && (before == None ==> Missing(mem, root, path) == 3 - x)
            && (before.Some? ==> Missing(mem, root, path) <= 2 - x)
            && (after == None ==> Missing(mem', root, path) == 3 - x)
            && (after.Some? ==> Missing(mem', root, path) == if before == None then 2 - x else Missing(mem, root, path))
  {
    PrefixesStop(mem, root, path);
    PrefixesStop(mem', root, path);
    assert |path[..1]| == 1 && |path[..2]| == 2 && |path[..3]| == 3;
  }
}
