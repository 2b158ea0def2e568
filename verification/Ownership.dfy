/** Who owns a physical frame: the free list, the page-table tree, a mapped page, or nobody. */
module Ownership {
  import opened Wrappers
  import opened PageFormat
  import opened PageTree

  ghost predicate Listed(free: seq<nat>, f: nat) {
    Above(free, 0, f)
  }

  /** `f` backs one of the pages the memory manager mapped. Pages mapped by the boot loader
      are not in `mapped`; they may show any frame. */
  ghost predicate IsLeaf(mem: Memory, root: nat, mapped: set<seq<nat>>, f: nat) {
    exists p :: p in mapped && LeafAt(mem, root, p) == Some(f)
  }

  /** The frame has exactly one of the four roles. */
  ghost predicate OneRole(mem: Memory, root: nat, free: seq<nat>, mapped: set<seq<nat>>, lost: set<nat>, f: nat) {
    && (Listed(free, f) || IsTable(mem, root, f) || IsLeaf(mem, root, mapped, f) || f in lost)
    && !(Listed(free, f) && IsTable(mem, root, f))
    && !(Listed(free, f) && IsLeaf(mem, root, mapped, f))
    && !(IsTable(mem, root, f) && IsLeaf(mem, root, mapped, f))
    && (f in lost ==> !Listed(free, f) && !IsTable(mem, root, f) && !IsLeaf(mem, root, mapped, f))
  }

  /** Every managed page has a frame of its own. */
  ghost predicate LeavesOk(mem: Memory, root: nat, mapped: set<seq<nat>>) {
    && (forall p | p in mapped ::
          LeafAt(mem, root, p).Some? && LeafAt(mem, root, p).value in mem && IsFrame(LeafAt(mem, root, p).value))
    && (forall p, q | p in mapped && q in mapped && LeafAt(mem, root, p) == LeafAt(mem, root, q) :: p == q)
  }

  /** No frame is owned twice and none is unaccounted for. */
  ghost predicate Partition(mem: Memory, root: nat, free: seq<nat>, mapped: set<seq<nat>>, lost: set<nat>) {
    && TreeOk(mem, root) && FreeOk(mem, root, free) && LeavesOk(mem, root, mapped)
    && lost <= mem.Keys
    && forall f | f in mem :: OneRole(mem, root, free, mapped, lost, f)
  }

  /** The frame behind a managed page, which a new mapping of that page replaces. */
  ghost function Evicted(mem: Memory, root: nat, mapped: set<seq<nat>>, path: seq<nat>): set<nat> {
    if path in mapped && LeafAt(mem, root, path).Some? then {LeafAt(mem, root, path).value} else {}
  }

  lemma PopSplits(free: seq<nat>, n: nat, f: nat)
    requires n <= |free|
    requires forall i, j | 0 <= i < j < |free| :: free[i] != free[j]
    ensures Listed(free, f) <==> Listed(free[..n], f) || Above(free, n, f)
    ensures !(Listed(free[..n], f) && Above(free, n, f))
  {
    if Listed(free[..n], f) {
      var k :| 0 <= k < n && free[..n][k] == f;
      assert free[k] == f;
    }
    if Listed(free, f) {
      var k :| 0 <= k < |free| && free[k] == f;
      assert k < n ==> free[..n][k] == f;
    }
  }

  /** Leaves after the page `path` was given frame `frame` (or lost its frame). */
  lemma LeavesAfter(mem: Memory, mem': Memory, root: nat, mapped: set<seq<nat>>, path: seq<nat>, leaf: Option<nat>, f: nat)
    requires LeavesOk(mem, root, mapped) && Remapped(root, mem, mem', path, leaf)
    ensures leaf.Some? ==>
              (IsLeaf(mem', root, mapped + {path}, f) <==>
               leaf == Some(f) || (IsLeaf(mem, root, mapped, f) && f !in Evicted(mem, root, mapped, path)))
    ensures leaf == None ==>
              (IsLeaf(mem', root, mapped - {path}, f) <==>
               IsLeaf(mem, root, mapped, f) && f !in Evicted(mem, root, mapped, path))
  {
    if leaf.Some? {
      assert LeafAt(mem', root, path) == leaf;
      if IsLeaf(mem', root, mapped + {path}, f) && leaf != Some(f) {
        var p :| p in mapped + {path} && LeafAt(mem', root, p) == Some(f);
        assert p in mapped && LeafAt(mem, root, p) == Some(f);
      }
    } else if IsLeaf(mem', root, mapped - {path}, f) {
      var p :| p in mapped - {path} && LeafAt(mem', root, p) == Some(f);
      assert p in mapped && LeafAt(mem, root, p) == Some(f);
    }
    if IsLeaf(mem, root, mapped, f) && f !in Evicted(mem, root, mapped, path) {
      var p :| p in mapped && LeafAt(mem, root, p) == Some(f);
      assert p != path && LeafAt(mem', root, p) == Some(f);
    }
  }

  lemma SameLeaves(mem: Memory, mem': Memory, root: nat, mapped: set<seq<nat>>, f: nat)
    requires SameTranslation(root, mem, mem')
    ensures IsLeaf(mem', root, mapped, f) <==> IsLeaf(mem, root, mapped, f)
  {
    if IsLeaf(mem, root, mapped, f) {
      var p :| p in mapped && LeafAt(mem, root, p) == Some(f);
      assert LeafAt(mem', root, p) == Some(f);
    }
    if IsLeaf(mem', root, mapped, f) {
      var p :| p in mapped && LeafAt(mem', root, p) == Some(f);
      assert LeafAt(mem, root, p) == Some(f);
    }
  }

  /** A frame taken off the list to which nothing was mapped is lost. */
  lemma PopLoses(mem: Memory, root: nat, free: seq<nat>, mapped: set<seq<nat>>, lost: set<nat>)
    requires Partition(mem, root, free, mapped, lost) && free != []
    ensures Partition(mem, root, free[..|free| - 1], mapped, lost + {free[|free| - 1]})
  {
    var top := free[|free| - 1];
    forall f | f in mem
      ensures OneRole(mem, root, free[..|free| - 1], mapped, lost + {top}, f)
    {
      PopSplits(free, |free| - 1, f);
      assert Above(free, |free| - 1, f) <==> f == top;
    }
  }

  lemma TopUnowned(mem: Memory, root: nat, free: seq<nat>, mapped: set<seq<nat>>, lost: set<nat>, path: seq<nat>)
    requires Partition(mem, root, free, mapped, lost) && free != []
    ensures var top := free[|free| - 1];
            && top !in lost && top !in Evicted(mem, root, mapped, path)
            && lost + {top} - {top} + Evicted(mem, root, mapped, path) == lost + Evicted(mem, root, mapped, path)
  {
    var top := free[|free| - 1];
    assert Listed(free, top) && OneRole(mem, root, free, mapped, lost, top);
    assert top in Evicted(mem, root, mapped, path) ==> IsLeaf(mem, root, mapped, top);
  }

  /** Growing the tree from the free list moves frames from one role to another. */
  lemma GrowthKeeps(mem: Memory, mem': Memory, root: nat, free: seq<nat>, free': seq<nat>,
                    mapped: set<seq<nat>>, lost: set<nat>)
    requires Partition(mem, root, free, mapped, lost)
    requires Grown(root, mem, free, mem', free') && TreeOk(mem', root) && FreeOk(mem', root, free')
    requires SameTranslation(root, mem, mem')
    ensures Partition(mem', root, free', mapped, lost)
  {
    forall f | f in mem'
      ensures OneRole(mem', root, free', mapped, lost, f)
    {
      assert free' == free[..|free'|];
      PopSplits(free, |free'|, f);
      SameLeaves(mem, mem', root, mapped, f);
    }
    forall p | p in mapped
      ensures LeafAt(mem', root, p) == LeafAt(mem, root, p)
    {}
  }

  /** Mapping a lost frame makes it a leaf; the frame it replaces is lost in turn. */
  lemma MappingKeeps(mem: Memory, mem': Memory, root: nat, free: seq<nat>, free': seq<nat>, mapped: set<seq<nat>>,
                     lost: set<nat>, path: seq<nat>, frame: nat)
    requires Partition(mem, root, free, mapped, lost) && frame in lost && IsFrame(frame)
    requires Grown(root, mem, free, mem', free') && TreeOk(mem', root) && FreeOk(mem', root, free')
    requires Remapped(root, mem, mem', path, Some(frame))
    ensures Partition(mem', root, free', mapped + {path}, lost - {frame} + Evicted(mem, root, mapped, path))
  {
    var lost' := lost - {frame} + Evicted(mem, root, mapped, path);
    assert forall g | g in Evicted(mem, root, mapped, path) :: IsLeaf(mem, root, mapped, g);
    forall f | f in mem'
      ensures OneRole(mem', root, free', mapped + {path}, lost', f)
    {
      assert free' == free[..|free'|];
      PopSplits(free, |free'|, f);
      LeavesAfter(mem, mem', root, mapped, path, Some(frame), f);
    }
    OwnLeaf(mem, mem', root, mapped, path, frame);
  }

  lemma OwnLeaf(mem: Memory, mem': Memory, root: nat, mapped: set<seq<nat>>, path: seq<nat>, frame: nat)
    requires LeavesOk(mem, root, mapped) && !IsLeaf(mem, root, mapped, frame) && IsFrame(frame)
    requires frame in mem && mem'.Keys == mem.Keys
    requires Remapped(root, mem, mem', path, Some(frame))
    ensures LeavesOk(mem', root, mapped + {path})
  {
    assert LeafAt(mem', root, path) == Some(frame);
    forall p | p in mapped && p != path
      ensures LeafAt(mem', root, p) == LeafAt(mem, root, p) && LeafAt(mem, root, p) != Some(frame)
    {}
  }

  /** Unmapping a managed page loses its frame. */
  lemma UnmappingKeeps(mem: Memory, mem': Memory, root: nat, free: seq<nat>,
                       mapped: set<seq<nat>>, lost: set<nat>, path: seq<nat>)
    requires Partition(mem, root, free, mapped, lost)
    requires Grown(root, mem, free, mem', free) && TreeOk(mem', root) && FreeOk(mem', root, free)
    requires Remapped(root, mem, mem', path, None)
    ensures Partition(mem', root, free, mapped - {path}, lost + Evicted(mem, root, mapped, path))
  {
    assert forall g | g in Evicted(mem, root, mapped, path) :: IsLeaf(mem, root, mapped, g);
    forall f | f in mem'
      ensures OneRole(mem', root, free, mapped - {path}, lost + Evicted(mem, root, mapped, path), f)
    {
      assert !Above(free, |free|, f);
      LeavesAfter(mem, mem', root, mapped, path, None, f);
    }
    forall p | p in mapped - {path}
      ensures LeafAt(mem', root, p) == LeafAt(mem, root, p)
    {}
  }

  /** Pushing a lost frame puts it back on the list. */
  lemma PushKeeps(mem: Memory, root: nat, free: seq<nat>, mapped: set<seq<nat>>, lost: set<nat>, frame: nat)
    requires Partition(mem, root, free, mapped, lost) && frame in lost && IsFrame(frame)
    ensures Partition(mem, root, free + [frame], mapped, lost - {frame})
  {
    assert forall k | 0 <= k < |free| :: Listed(free, free[k]);
    forall f | f in mem
      ensures OneRole(mem, root, free + [frame], mapped, lost - {frame}, f)
    {
      ListedPush(free, frame, f);
    }
  }

  /** And only a lost frame may be pushed: any other is on the list, a table, behind a page, or no frame
      of the managed memory at all, as the frame of a page that somebody else mapped may be. */
  lemma PushKeepsIff(mem: Memory, root: nat, free: seq<nat>, mapped: set<seq<nat>>, lost: set<nat>, frame: nat)
    requires Partition(mem, root, free, mapped, lost)
    ensures Partition(mem, root, free + [frame], mapped, lost - {frame}) <==> frame in lost && IsFrame(frame)
  {
    if frame in lost && IsFrame(frame) {
      PushKeeps(mem, root, free, mapped, lost, frame);
    } else if Partition(mem, root, free + [frame], mapped, lost - {frame}) {
      PushedWasLost(mem, root, free, mapped, lost, frame);
      assert false;
    }
  }

  lemma PushedWasLost(mem: Memory, root: nat, free: seq<nat>, mapped: set<seq<nat>>, lost: set<nat>, frame: nat)
    requires Partition(mem, root, free, mapped, lost)
    requires Partition(mem, root, free + [frame], mapped, lost - {frame})
    ensures frame in lost && IsFrame(frame)
  {
    var more := free + [frame];
    assert more[|free|] == frame && frame in mem && IsFrame(frame);
    ListedPush(free, frame, frame);
    assert OneRole(mem, root, free, mapped, lost, frame) && OneRole(mem, root, more, mapped, lost - {frame}, frame);
    assert forall k | 0 <= k < |free| :: more[k] == free[k];
  }

  /** Unmapping a managed page and pushing its frame moves the frame from the page to the list. */
  lemma ReturnKeeps(mem: Memory, mem': Memory, root: nat, free: seq<nat>, mapped: set<seq<nat>>, lost: set<nat>,
                    path: seq<nat>, frame: nat)
    requires Partition(mem, root, free, mapped, lost) && path in mapped && LeafAt(mem, root, path) == Some(frame)
    requires Grown(root, mem, free, mem', free) && TreeOk(mem', root) && FreeOk(mem', root, free)
    requires Remapped(root, mem, mem', path, None)
    ensures Partition(mem', root, free + [frame], mapped - {path}, lost)
  {
    UnmappingKeeps(mem, mem', root, free, mapped, lost, path);
    PushKeeps(mem', root, free, mapped - {path}, lost + {frame}, frame);
    assert IsLeaf(mem, root, mapped, frame) && OneRole(mem, root, free, mapped, lost, frame);
    assert lost + {frame} - {frame} == lost;
  }

  lemma ListedPush(free: seq<nat>, x: nat, f: nat)
    ensures Listed(free + [x], f) <==> Listed(free, f) || f == x
  {
    if Listed(free, f) {
      var k :| 0 <= k < |free| && free[k] == f;
      assert (free + [x])[k] == f;
    }
    assert (free + [x])[|free|] == x;
  }
}
