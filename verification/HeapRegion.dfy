/** Where the heap meets the memory manager: what mmap makes of the pages that create_bucket asks for. */
module HeapRegion {
  import opened Machine
  import opened Wrappers
  import opened PageFormat
  import opened PageTree
  import opened PebbleLayout
  import opened HeapModel
  import opened PageRange
  import opened VirtualMemory

  /** create_bucket always asks for at least seventeen pages, and mmap's loop never visits them all:
      the seventeen pages of a heap made for 0x1000 bytes get a single one. */
  lemma NeverWhollyVisited(n: nat)
    ensures 17 <= PagesFor(n) && LoopCount(PagesFor(n)) < PagesFor(n)
    ensures PagesFor(0x1000) == 17 && LoopCount(17) == 1
  {
    EnoughPages(n);
    LoopCountIsSize(PagesFor(n));
  }

  lemma EnoughPages(n: nat)
    ensures 17 <= PagesFor(n)
  {
    assert MIN_INITIAL_ALLOC == 65660;
  }

  /** The mmap call of create_bucket: behind the pages that the loop visits, every page of the new
      bucket shows what it showed before, which is nothing when the region was unused. */
  method MapBucket(vmm: Vmm, n: nat) returns (bucket: nat)
    requires vmm.Valid()
    modifies vmm, vmm.pages
    ensures vmm.Valid() && bucket == old(vmm.heapEnd) && vmm.heapEnd == bucket + PAGE_SIZE * PagesFor(n)
    ensures forall j | LoopCount(PagesFor(n)) <= j < PagesFor(n) && j < PAGES ::
              LeafAt(vmm.pages.mem, vmm.pages.cr3, PathOf(bucket, j)) ==
              LeafAt(old(vmm.pages.mem), vmm.pages.cr3, PathOf(bucket, j))
    ensures bucket != 0 ==> AllIn(bucket, LoopCount(PagesFor(n)), vmm.mapped) || vmm.pages.free == []
  {
    ghost var visited, stray;
    bucket, visited, stray := vmm.Mmap(PagesFor(n));
    forall j: nat | LoopCount(PagesFor(n)) <= j < PagesFor(n) && j < PAGES
      ensures !Visited(bucket, visited, PathOf(bucket, j))
    {
      forall k: nat | k < visited
        ensures PathOf(bucket, j) != PathOf(bucket, k)
      {
        PathsDiffer(bucket, k, j);
      }
    }
  }

  /** The munmap call of remove_bucket: the page with the bucket's first pebble header is gone, so a kfree of a
      pointer into a bucket that was given back reads its header through an unmapped page. */
  method UnmapBucket(vmm: Vmm, bucket: nat, pages: nat)
    requires vmm.Valid() && 0 < pages && bucket % PAGE_SIZE == 0
    requires vmm.pages.returnsFrame ==> forall k | 0 <= k < LoopCount(pages) :: vmm.Managed(PathOf(bucket, k))
    modifies vmm, vmm.pages
    ensures vmm.Valid() && !IsMapped(vmm.pages.mem, vmm.pages.cr3, Indices(bucket + BUCKET_HEADER))
    ensures Cleared(vmm.pages.cr3, old(vmm.pages.mem), vmm.pages.mem, bucket, LoopCount(pages))
  {
    vmm.Munmap(bucket, pages);
    FirstHeaderPage(bucket);
    RoundsLeft(pages, 0);
    assert Visited(bucket, LoopCount(pages), PathOf(bucket, 0));
  }

  lemma FirstHeaderPage(bucket: nat)
    requires bucket % PAGE_SIZE == 0
    ensures Indices(bucket + BUCKET_HEADER) == PathOf(bucket, 0)
  {
    assert (bucket + BUCKET_HEADER) / PAGE_SIZE == bucket / PAGE_SIZE;
    IndicesInjective(bucket + BUCKET_HEADER, bucket);
  }
}
