/** The tree of page tables as the processor reads it, and what one store does to it. */
module PageTree {
  import opened Wrappers
  import opened PageFormat

  /** Physical memory, one table of 512 words per frame. */
  type Memory = map<nat, Table>

  /** A table as `memset` leaves it. */
  function Zeroed(): (t: Table)
    ensures forall i | 0 <= i < ENTRIES :: t[i] == 0
  {
    seq(ENTRIES, _ => 0)
  }

  function Entry(mem: Memory, table: nat, index: nat): Word {
    if table in mem && index < ENTRIES then mem[table][index] else 0
  }

  /** The frame reached from `root` by following one index after the other. */
  ghost function Walk(mem: Memory, root: nat, path: seq<nat>): Option<nat> {
    if path == [] then Some(root)
    else
      match Walk(mem, root, path[..|path| - 1])
      case None => None
      case Some(table) =>
        var entry := Entry(mem, table, path[|path| - 1]);
        if Present(entry) then Some(PhysAddress(entry)) else None
  }

  /** Up to three indices lead to a table ... */
  ghost function TableAt(mem: Memory, root: nat, path: seq<nat>): Option<nat> {
    if |path| <= 3 then Walk(mem, root, path) else None
  }

  /** ... and four lead to the mapped frame. */
  ghost function LeafAt(mem: Memory, root: nat, path: seq<nat>): Option<nat> {
    if |path| == 4 then Walk(mem, root, path) else None
  }

  /** What the processor makes of an address. */
  ghost function Translate(mem: Memory, root: nat, va: nat): Option<nat> {
    LeafAt(mem, root, Indices(va))
  }

  ghost predicate IsTable(mem: Memory, root: nat, f: nat) {
    exists p :: TableAt(mem, root, p) == Some(f)
  }

  /** Every table is real memory and is referenced from exactly one place. */
  ghost predicate TreeOk(mem: Memory, root: nat) {
    && (forall p | TableAt(mem, root, p).Some? :: TableAt(mem, root, p).value in mem)
    && (forall p, q | TableAt(mem, root, p).Some? && TableAt(mem, root, p) == TableAt(mem, root, q) :: p == q)
  }

  /** The frames of a free list: usable, real, listed once and no table of the tree. */
  ghost predicate FreeOk(mem: Memory, root: nat, free: seq<nat>) {
    && (forall i | 0 <= i < |free| :: IsFrame(free[i]) && free[i] in mem && !IsTable(mem, root, free[i]))
    && (forall i, j | 0 <= i < j < |free| :: free[i] != free[j])
  }

  /** How many of the three lower tables on the path are missing. */
  ghost function Missing(mem: Memory, root: nat, p: seq<nat>): (n: nat)
    requires |p| == 4
    ensures n <= 3
  {
    if TableAt(mem, root, p[..1]) == None then 3
    else if TableAt(mem, root, p[..2]) == None then 2
    else if TableAt(mem, root, p[..3]) == None then 1
    else 0
  }

  /** A walk that has stopped stays stopped. */
  lemma {:induction false} StoppedWalk(mem: Memory, root: nat, p: seq<nat>, q: seq<nat>)
    requires p <= q && Walk(mem, root, p) == None
    ensures Walk(mem, root, q) == None
  {
    if p != q {
      StoppedWalk(mem, root, p, q[..|q| - 1]);
    }
  }

  lemma WalkStep(mem: Memory, root: nat, p: seq<nat>, i: nat)
    ensures Walk(mem, root, p + [i]) ==
            match Walk(mem, root, p)
            case None => None
            case Some(t) => if Present(Entry(mem, t, i)) then Some(PhysAddress(Entry(mem, t, i))) else None
  {
    assert (p + [i])[..|p + [i]| - 1] == p;
  }

  /** Storing one entry of one table leaves alone every walk that does not pass through it. */
  lemma {:induction false} WalkAvoiding(mem: Memory, mem': Memory, root: nat, q: seq<nat>, i: nat, p: seq<nat>)
    requires TreeOk(mem, root) && |p| <= 4
    requires TableAt(mem, root, q).Some?
    requires forall u, j | IsTable(mem, root, u) && (u != TableAt(mem, root, q).value || j != i) ::
               Entry(mem', u, j) == Entry(mem, u, j)
    requires !(q + [i] <= p)
    ensures Walk(mem', root, p) == Walk(mem, root, p)
  {
    if p != [] {
      var p' := p[..|p| - 1];
      var j := p[|p| - 1];
      assert p == p' + [j];
      WalkAvoiding(mem, mem', root, q, i, p');
      if Walk(mem, root, p').Some? {
        assert TableAt(mem, root, p') == Some(Walk(mem, root, p').value);
        assert p' != q || j != i;
      }
    }
  }

  /** The memory after zeroing frame `f` and linking it at entry `i` of table `t`. */
  function Linked(mem: Memory, t: nat, i: nat, f: nat): Memory
    requires t in mem && i < ENTRIES
  {
    mem[f := Zeroed()][t := mem[t][i := Encode(f)]]
  }

  /** A path that enters a zeroed table goes no further. */
  lemma {:induction false} WalkIntoZeroed(mem: Memory, root: nat, q: seq<nat>, p: seq<nat>)
    requires Walk(mem, root, q).Some? && q <= p && q != p
    requires var f := Walk(mem, root, q).value; f in mem && mem[f] == Zeroed()
    ensures Walk(mem, root, p) == None
  {
    var next := p[..|q| + 1];
    assert next[..|next| - 1] == q;
    assert Walk(mem, root, next) == None;
    StoppedWalk(mem, root, next, p);
  }

  lemma LinkedEntries(mem: Memory, t: nat, i: nat, f: nat)
    requires t in mem && i < ENTRIES && f != t && IsFrame(f)
    ensures var mem' := Linked(mem, t, i, f);
            && Present(Entry(mem', t, i)) && PhysAddress(Entry(mem', t, i)) == f
            && f in mem' && mem'[f] == Zeroed()
            && forall u, j | u != f && (u != t || j != i) :: Entry(mem', u, j) == Entry(mem, u, j)
  {
    DecodeEncode(f);
  }

  /** Linking a fresh zeroed table changes the tree at exactly one path. */
  lemma LinkTable(mem: Memory, root: nat, q: seq<nat>, i: nat, f: nat, p: seq<nat>)
    requires TreeOk(mem, root) && |q| <= 2 && i < ENTRIES && |p| <= 4
    requires TableAt(mem, root, q).Some? && TableAt(mem, root, q + [i]) == None
    requires IsFrame(f) && f in mem && !IsTable(mem, root, f)
    ensures var mem' := Linked(mem, TableAt(mem, root, q).value, i, f);
            Walk(mem', root, p) == if p == q + [i] then Some(f) else Walk(mem, root, p)
  {
    var t := TableAt(mem, root, q).value;
    var mem' := Linked(mem, t, i, f);
    assert IsTable(mem, root, t);
    LinkedEntries(mem, t, i, f);
    if q + [i] <= p {
      LinkedBelow(mem, mem', root, q, i, f, p);
    } else {
      WalkAvoiding(mem, mem', root, q, i, p);
    }
  }

  lemma LinkedBelow(mem: Memory, mem': Memory, root: nat, q: seq<nat>, i: nat, f: nat, p: seq<nat>)
    requires TreeOk(mem, root) && |q| <= 2 && |p| <= 4
    requires TableAt(mem, root, q).Some? && TableAt(mem, root, q + [i]) == None
    requires f in mem' && mem'[f] == Zeroed() && !IsTable(mem, root, f)
    requires var e := Entry(mem', TableAt(mem, root, q).value, i); Present(e) && PhysAddress(e) == f
    requires forall u, j | u != f && (u != TableAt(mem, root, q).value || j != i) :: Entry(mem', u, j) == Entry(mem, u, j)
    requires q + [i] <= p
    ensures Walk(mem', root, p) == if p == q + [i] then Some(f) else Walk(mem, root, p)
  {
    WalkAvoiding(mem, mem', root, q, i, q);
    WalkStep(mem', root, q, i);
    if p != q + [i] {
      StoppedWalk(mem, root, q + [i], p);
      WalkIntoZeroed(mem', root, q + [i], p);
    }
  }

  /** Storing a leaf entry changes the tree at exactly one path. */
  lemma StoreLeaf(mem: Memory, root: nat, q: seq<nat>, i: nat, e: Word, p: seq<nat>)
    requires TreeOk(mem, root) && |q| == 3 && i < ENTRIES && |p| <= 4
    requires TableAt(mem, root, q).Some?
    ensures var t := TableAt(mem, root, q).value;
            Walk(mem[t := mem[t][i := e]], root, p) ==
              if p != q + [i] then Walk(mem, root, p) else if Present(e) then Some(PhysAddress(e)) else None
  {
    var t := TableAt(mem, root, q).value;
    var mem' := mem[t := mem[t][i := e]];
    WalkAvoiding(mem, mem', root, q, i, q);
    if p == q + [i] {
      WalkStep(mem', root, q, i);
    } else {
      WalkAvoiding(mem, mem', root, q, i, p);
    }
  }

  /** `f` is on the free list at or above height `n`. */
  ghost predicate Above(free: seq<nat>, n: nat, f: nat) {
    exists k :: n <= k < |free| && free[k] == f
  }

  /** From `mem` to `mem'` the tree only gained tables: existing tables stay where they are,
      and the new tables are exactly the frames taken off the top of the free list. */
  ghost predicate Grown(root: nat, mem: Memory, free: seq<nat>, mem': Memory, free': seq<nat>) {
    && free' <= free
    && mem'.Keys == mem.Keys
    && (forall p | TableAt(mem, root, p).Some? :: TableAt(mem', root, p) == TableAt(mem, root, p))
    && (forall f :: IsTable(mem', root, f) <==> IsTable(mem, root, f) || Above(free, |free'|, f))
  }

  lemma GrownTrans(root: nat, m0: Memory, f0: seq<nat>, m1: Memory, f1: seq<nat>, m2: Memory, f2: seq<nat>)
    requires Grown(root, m0, f0, m1, f1) && Grown(root, m1, f1, m2, f2)
    ensures Grown(root, m0, f0, m2, f2)
  {
    forall f: nat
      ensures Above(f0, |f2|, f) <==> Above(f1, |f2|, f) || Above(f0, |f1|, f)
    {
      if Above(f1, |f2|, f) {
        var k :| |f2| <= k < |f1| && f1[k] == f;
        assert f0[k] == f;
      }
      if Above(f0, |f2|, f) {
        var k :| |f2| <= k < |f0| && f0[k] == f;
        assert k < |f1| ==> f1[k] == f;
      }
    }
  }

  ghost predicate SameTranslation(root: nat, mem: Memory, mem': Memory) {
    forall p :: LeafAt(mem', root, p) == LeafAt(mem, root, p)
  }

  /** `mem'` translates like `mem` except that the walk along `path` now ends in `leaf`. */
  ghost predicate Remapped(root: nat, mem: Memory, mem': Memory, path: seq<nat>, leaf: Option<nat>) {
    forall p :: LeafAt(mem', root, p) == if p == path then leaf else LeafAt(mem, root, p)
  }

  /** Read by address: the whole page of `va` moves to `leaf`, and no other page moves. */
  lemma RemappedByAddress(root: nat, mem: Memory, mem': Memory, va: nat, leaf: Option<nat>, va': nat)
    requires Remapped(root, mem, mem', Indices(va), leaf)
    ensures Translate(mem', root, va') == if Page(va') == Page(va) then leaf else Translate(mem, root, va')
  {
    IndicesInjective(va, va');
  }

  /** Linking the top free frame below table `q` grows the tree and translates nothing new. */
  lemma LinkGrows(mem: Memory, root: nat, free: seq<nat>, q: seq<nat>, i: nat)
    requires TreeOk(mem, root) && FreeOk(mem, root, free) && free != [] && |q| <= 2 && i < ENTRIES
    requires TableAt(mem, root, q).Some? && TableAt(mem, root, q + [i]) == None
    ensures var f, free' := free[|free| - 1], free[..|free| - 1];
            var mem' := Linked(mem, TableAt(mem, root, q).value, i, f);
            && TreeOk(mem', root) && FreeOk(mem', root, free')
            && (forall p :: TableAt(mem', root, p) == if p == q + [i] then Some(f) else TableAt(mem, root, p))
            && Grown(root, mem, free, mem', free')
            && SameTranslation(root, mem, mem')
  {
    var f, free' := free[|free| - 1], free[..|free| - 1];
    var mem' := Linked(mem, TableAt(mem, root, q).value, i, f);
    forall p: seq<nat> | |p| <= 4
      ensures Walk(mem', root, p) == if p == q + [i] then Some(f) else Walk(mem, root, p)
    {
      LinkTable(mem, root, q, i, f, p);
    }
    assert forall p :: TableAt(mem', root, p) == if p == q + [i] then Some(f) else TableAt(mem, root, p);
    OneMoreTable(mem, mem', root, q + [i], f);
    assert mem'.Keys == mem.Keys;
    assert forall g: nat :: Above(free, |free'|, g) <==> g == f;
  }

  lemma OneMoreTable(mem: Memory, mem': Memory, root: nat, path: seq<nat>, f: nat)
    requires TreeOk(mem, root) && TableAt(mem, root, path) == None && !IsTable(mem, root, f)
    requires f in mem && mem'.Keys == mem.Keys
    requires forall p :: TableAt(mem', root, p) == if p == path then Some(f) else TableAt(mem, root, p)
    ensures TreeOk(mem', root)
    ensures forall g :: IsTable(mem', root, g) <==> IsTable(mem, root, g) || g == f
  {
    assert TableAt(mem', root, path) == Some(f);
    forall g: nat
      ensures IsTable(mem', root, g) <==> IsTable(mem, root, g) || g == f
    {
      if IsTable(mem, root, g) {
        var p :| TableAt(mem, root, p) == Some(g);
        assert TableAt(mem', root, p) == Some(g);
      }
      if IsTable(mem', root, g) && g != f {
        var p :| TableAt(mem', root, p) == Some(g);
        assert TableAt(mem, root, p) == Some(g);
      }
    }
    forall p, q | TableAt(mem', root, p).Some? && TableAt(mem', root, p) == TableAt(mem', root, q)
      ensures p == q
    {
      var g := TableAt(mem', root, p).value;
      if p != path { assert TableAt(mem, root, p) == Some(g); }
      if q != path { assert TableAt(mem, root, q) == Some(g); }
    }
  }

  /** A leaf store moves one translation and no table. */
  lemma LeafRemaps(mem: Memory, root: nat, free: seq<nat>, q: seq<nat>, i: nat, e: Word)
    requires TreeOk(mem, root) && FreeOk(mem, root, free) && |q| == 3 && i < ENTRIES
    requires TableAt(mem, root, q).Some?
    ensures var t := TableAt(mem, root, q).value;
            var mem' := mem[t := mem[t][i := e]];
            && TreeOk(mem', root) && FreeOk(mem', root, free)
            && (forall p :: TableAt(mem', root, p) == TableAt(mem, root, p))
            && Grown(root, mem, free, mem', free)
            && Remapped(root, mem, mem', q + [i], if Present(e) then Some(PhysAddress(e)) else None)
  {
    var t := TableAt(mem, root, q).value;
    var mem' := mem[t := mem[t][i := e]];
    forall p: seq<nat> | |p| <= 4
      ensures Walk(mem', root, p) ==
                if p != q + [i] then Walk(mem, root, p) else if Present(e) then Some(PhysAddress(e)) else None
    {
      StoreLeaf(mem, root, q, i, e, p);
    }
    assert mem'.Keys == mem.Keys;
    assert forall p :: TableAt(mem', root, p) == TableAt(mem, root, p);
    SameTables(mem, mem', root);
  }

  lemma SameTables(mem: Memory, mem': Memory, root: nat)
    requires forall p :: TableAt(mem', root, p) == TableAt(mem, root, p)
    ensures forall f :: IsTable(mem', root, f) <==> IsTable(mem, root, f)
  {
    forall f: nat
      ensures IsTable(mem', root, f) <==> IsTable(mem, root, f)
    {
      if IsTable(mem, root, f) {
        var p :| TableAt(mem, root, p) == Some(f);
        assert TableAt(mem', root, p) == Some(f);
      }
    }
  }

  // ----- the stored words -----

  /** Entry `i` of the table at the end of `p`, zero when there is no such table. */
  ghost function EntryAt(mem: Memory, root: nat, p: seq<nat>, i: nat): Word {
    match TableAt(mem, root, p)
    case None => 0
    case Some(t) => Entry(mem, t, i)
  }

  /** No word of the tree changed, but that absent entries above the last level became basic links. */
  ghost predicate LinksAdded(root: nat, mem: Memory, mem': Memory) {
    forall p, i :: EntryKept(root, mem, mem', p, i)
  }

  ghost predicate EntryKept(root: nat, mem: Memory, mem': Memory, p: seq<nat>, i: nat) {
    var before, after := EntryAt(mem, root, p, i), EntryAt(mem', root, p, i);
    after == before || (|p| <= 2 && !Present(before) && IsBasic(after))
  }

  lemma LinksAddedTrans(root: nat, m0: Memory, m1: Memory, m2: Memory)
    requires LinksAdded(root, m0, m1) && LinksAdded(root, m1, m2)
    ensures LinksAdded(root, m0, m2)
  {
    forall p, i
      ensures EntryKept(root, m0, m2, p, i)
    {
      assert EntryKept(root, m0, m1, p, i) && EntryKept(root, m1, m2, p, i);
      BasicIsWritable(EntryAt(m1, root, p, i));
    }
  }

  /** The words after a free frame was zeroed and linked below table `q`. */
  lemma LinkWords(mem: Memory, mem': Memory, root: nat, q: seq<nat>, i: nat, f: nat)
    requires TreeOk(mem, root) && |q| <= 2 && i < ENTRIES && IsFrame(f) && f in mem && !IsTable(mem, root, f)
    requires TableAt(mem, root, q).Some? && TableAt(mem, root, q + [i]) == None
    requires mem' == Linked(mem, TableAt(mem, root, q).value, i, f)
    requires forall p :: TableAt(mem', root, p) == if p == q + [i] then Some(f) else TableAt(mem, root, p)
    ensures EntryAt(mem', root, q, i) == f + 3
    ensures forall p, j | p != q || j != i :: EntryAt(mem', root, p, j) == EntryAt(mem, root, p, j)
  {
    EncodeWord(f);
    var t := TableAt(mem, root, q).value;
    forall p, j | p != q || j != i
      ensures EntryAt(mem', root, p, j) == EntryAt(mem, root, p, j)
    {
      if p != q + [i] && TableAt(mem, root, p).Some? {
        assert TableAt(mem, root, p).value != f && (p != q ==> TableAt(mem, root, p).value != t);
      }
    }
  }

  lemma LinkAdds(mem: Memory, mem': Memory, root: nat, q: seq<nat>, i: nat, f: nat)
    requires |q| <= 2 && IsFrame(f) && !Present(EntryAt(mem, root, q, i)) && EntryAt(mem', root, q, i) == f + 3
    requires forall p, j | p != q || j != i :: EntryAt(mem', root, p, j) == EntryAt(mem, root, p, j)
    ensures LinksAdded(root, mem, mem')
  {
    EncodeWord(f);
  }

  /** The words after one entry of a last-level table was stored. */
  lemma LeafWords(mem: Memory, mem': Memory, root: nat, q: seq<nat>, i: nat, e: Word)
    requires TreeOk(mem, root) && |q| == 3 && i < ENTRIES && TableAt(mem, root, q).Some?
    requires var t := TableAt(mem, root, q).value; mem' == mem[t := mem[t][i := e]]
    requires forall p :: TableAt(mem', root, p) == TableAt(mem, root, p)
    ensures EntryAt(mem', root, q, i) == e
    ensures forall p, j | p != q || j != i :: EntryAt(mem', root, p, j) == EntryAt(mem, root, p, j)
  {
    var t := TableAt(mem, root, q).value;
    forall p, j | p != q || j != i
      ensures EntryAt(mem', root, p, j) == EntryAt(mem, root, p, j)
    {
      if TableAt(mem, root, p).Some? {
        assert p != q ==> TableAt(mem, root, p).value != t;
      }
    }
  }

  // ----- writable pages -----

  /** All four entries on the path allow writing. */
  ghost predicate Writable(mem: Memory, root: nat, path: seq<nat>)
    requires |path| == 4
  {
    forall k | 0 <= k < 4 :: IsWritable(EntryAt(mem, root, path[..k], path[k]))
  }

  /** A mapped page is reached through present entries. */
  lemma MappedPath(mem: Memory, root: nat, path: seq<nat>, k: nat)
    requires |path| == 4 && LeafAt(mem, root, path).Some? && k < 4
    ensures Present(EntryAt(mem, root, path[..k], path[k]))
  {
    var p := path[..k + 1];
    if Walk(mem, root, p) == None {
      StoppedWalk(mem, root, p, path);
      assert false;
    }
    assert p[..|p| - 1] == path[..k] && p[k] == path[k];
  }

  /** Once its leaf is a basic entry, a page reached over old and new links is writable if and only if the links that
      were there before allow it. */
  lemma WritableIff(mem: Memory, mem': Memory, root: nat, path: seq<nat>)
    requires |path| == 4 && LeafAt(mem', root, path).Some? && IsBasic(EntryAt(mem', root, path[..3], path[3]))
    requires forall k | 0 <= k < 3 :: EntryKept(root, mem, mem', path[..k], path[k])
    ensures Writable(mem', root, path) <==>
            forall k | 0 <= k < 3 && Present(EntryAt(mem, root, path[..k], path[k])) ::
              IsWritable(EntryAt(mem, root, path[..k], path[k]))
  {
    BasicIsWritable(EntryAt(mem', root, path[..3], path[3]));
    forall k | 0 <= k < 3
      ensures IsWritable(EntryAt(mem', root, path[..k], path[k])) <==>
              (Present(EntryAt(mem, root, path[..k], path[k])) ==> IsWritable(EntryAt(mem, root, path[..k], path[k])))
    {
      assert EntryKept(root, mem, mem', path[..k], path[k]);
      MappedPath(mem', root, path, k);
      BasicIsWritable(EntryAt(mem', root, path[..k], path[k]));
    }
  }
}
