/** grow_heap under its spinlock, for any number of processors and every interleaving of
    their steps. A step is one access to shared memory. */
module HeapBreak {
  import opened Machine

  type Cpu = nat

  /** What one call returns: its start, and the number of pages it was asked for. */
  datatype Region = Region(start: nat, pages: nat) {
    function End(): nat {
      start + pages * PAGE_SIZE
    }
  }

  /** Where a processor stands in grow_heap(size).
      Acquiring: at the `lock bts` or in the spin loop. Entered: owns the lock.
      HasStart: has read K_HEAP_END for the result. Adding: has read it again for `+=`.
      Stored: has written it back and not yet released the lock. */
  datatype Pc =
    | Idle
    | Acquiring(size: nat)
    | Entered(size: nat)
    | HasStart(size: nat, start: nat)
    | Adding(size: nat, start: nat, sum: nat)
    | Stored(size: nat, start: nat)

  /** `lock` is kheap_spinlock, `end` is K_HEAP_END, `done` the regions handed out so far. */
  datatype State = State(lock: nat, end: nat, pcs: map<Cpu, Pc>, done: seq<Region>)

  function At(s: State, c: Cpu): Pc {
    if c in s.pcs then s.pcs[c] else Idle
  }

  datatype Action = Call(size: nat) | TestAndSet | Spin | ReadStart | ReadEnd | WriteEnd | Release

  /** What processor `c` does in one step, if it can. The spin test may go either way. */
  ghost predicate Step(s: State, c: Cpu, a: Action, s': State) {
    match a
    case Call(size) => At(s, c).Idle? && s' == s.(pcs := s.pcs[c := Acquiring(size)])
    case TestAndSet =>
      && At(s, c).Acquiring?
      && s' == if s.lock % 2 == 0 then s.(lock := s.lock + 1, pcs := s.pcs[c := Entered(At(s, c).size)]) else s
    case Spin => At(s, c).Acquiring? && s' == s
    case ReadStart => At(s, c).Entered? && s' == s.(pcs := s.pcs[c := HasStart(At(s, c).size, s.end)])
    case ReadEnd =>
      && At(s, c).HasStart?
      && s' == s.(pcs := s.pcs[c := Adding(At(s, c).size, At(s, c).start, s.end + At(s, c).size * PAGE_SIZE)])
    case WriteEnd =>
      At(s, c).Adding? && s' == s.(end := At(s, c).sum, pcs := s.pcs[c := Stored(At(s, c).size, At(s, c).start)])
    case Release =>
      && At(s, c).Stored?
      && s' == s.(lock := 0, pcs := s.pcs[c := Idle], done := s.done + [Region(At(s, c).start, At(s, c).size)])
  }

  /** A processor took a step. */
  datatype Event = Event(cpu: Cpu, action: Action)

  /** init_heap, with the lock word of its definition. */
  ghost predicate Init(s: State, heapStart: nat) {
    s.lock == 0 && s.end == heapStart && s.pcs == map[] && s.done == []
  }

  predicate InCritical(pc: Pc) {
    pc.Entered? || pc.HasStart? || pc.Adding? || pc.Stored?
  }

  ghost predicate MutualExclusion(s: State) {
    forall c, d | InCritical(At(s, c)) && InCritical(At(s, d)) :: c == d
  }

  /** The regions lie end to end from `lo` up to `hi`. */
  ghost predicate Tiling(rs: seq<Region>, lo: nat, hi: nat)
    decreases rs
  {
    if rs == [] then lo == hi
    else
      var last := rs[|rs| - 1];
      last.End() == hi && Tiling(rs[..|rs| - 1], lo, last.start)
  }

  /** How far the finished calls have moved the heap end: a processor that has stored and
      not released yet is one region ahead. */
  ghost predicate HolderOk(s: State, c: Cpu, heapStart: nat) {
    match At(s, c)
    case HasStart(_, start) => start == s.end
    case Adding(size, start, sum) => start == s.end && sum == s.end + size * PAGE_SIZE
    case Stored(size, start) => s.end == start + size * PAGE_SIZE && Tiling(s.done, heapStart, start)
    case _ => true
  }

  ghost predicate SomeoneStored(s: State) {
    exists c :: At(s, c).Stored?
  }

  ghost predicate Inv(s: State, heapStart: nat) {
    && MutualExclusion(s)
    && s.lock < 2
    && (s.lock == 0 ==> forall c :: !InCritical(At(s, c)))
    && (forall c :: HolderOk(s, c, heapStart))
    && (!SomeoneStored(s) ==> Tiling(s.done, heapStart, s.end))
  }

  lemma InitInv(s: State, heapStart: nat)
    requires Init(s, heapStart)
    ensures Inv(s, heapStart)
  {
  }

  lemma AtAfter(s: State, s': State, c: Cpu, pc: Pc)
    requires s'.pcs == s.pcs[c := pc]
    ensures forall d :: At(s', d) == if d == c then pc else At(s, d)
  {
  }

  lemma TilingSnoc(rs: seq<Region>, lo: nat, r: Region)
    requires Tiling(rs, lo, r.start)
    ensures Tiling(rs + [r], lo, r.End())
  {
    assert (rs + [r])[..|rs + [r]| - 1] == rs;
  }

  /** Nobody but the owner of the lock is inside. */
  lemma Outside(s: State, heapStart: nat, c: Cpu)
    requires Inv(s, heapStart) && InCritical(At(s, c))
    ensures s.lock == 1 && forall d | d != c :: !InCritical(At(s, d))
  {
  }

  /** A step that neither enters nor leaves the critical section and writes no shared word. */
  lemma MoveInv(s: State, c: Cpu, pc: Pc, heapStart: nat)
    requires Inv(s, heapStart) && InCritical(pc) == InCritical(At(s, c)) && !pc.Stored? && !At(s, c).Stored?
    requires pc.HasStart? ==> pc.start == s.end
    requires pc.Adding? ==> pc.start == s.end && pc.sum == s.end + pc.size * PAGE_SIZE
    ensures Inv(s.(pcs := s.pcs[c := pc]), heapStart)
  {
    var s' := s.(pcs := s.pcs[c := pc]);
    AtAfter(s, s', c, pc);
    forall d: Cpu
      ensures HolderOk(s', d, heapStart)
    {
      assert HolderOk(s, d, heapStart);
    }
    if SomeoneStored(s) {
      var d :| At(s, d).Stored?;
      assert At(s', d).Stored?;
    }
  }

  /** Taking the lock. */
  lemma EnterInv(s: State, c: Cpu, size: nat, heapStart: nat)
    requires Inv(s, heapStart) && s.lock == 0
    ensures Inv(s.(lock := 1, pcs := s.pcs[c := Entered(size)]), heapStart)
  {
    var s' := s.(lock := 1, pcs := s.pcs[c := Entered(size)]);
    AtAfter(s, s', c, Entered(size));
    forall d: Cpu
      ensures HolderOk(s', d, heapStart)
    {
      assert d != c ==> !InCritical(At(s, d));
    }
    assert !SomeoneStored(s);
  }

  /** Writing K_HEAP_END. */
  lemma StoreInv(s: State, c: Cpu, heapStart: nat)
    requires Inv(s, heapStart) && At(s, c).Adding?
    ensures Inv(s.(end := At(s, c).sum, pcs := s.pcs[c := Stored(At(s, c).size, At(s, c).start)]), heapStart)
  {
    var pc := Stored(At(s, c).size, At(s, c).start);
    var s' := s.(end := At(s, c).sum, pcs := s.pcs[c := pc]);
    Outside(s, heapStart, c);
    AtAfter(s, s', c, pc);
    assert HolderOk(s, c, heapStart);
    assert !SomeoneStored(s);
    forall d: Cpu
      ensures HolderOk(s', d, heapStart)
    {
      assert d != c ==> !InCritical(At(s', d));
    }
    assert At(s', c).Stored?;
  }

  /** Giving the lock back. */
  lemma ReleaseInv(s: State, c: Cpu, heapStart: nat)
    requires Inv(s, heapStart) && At(s, c).Stored?
    ensures Inv(s.(lock := 0, pcs := s.pcs[c := Idle], done := s.done + [Region(At(s, c).start, At(s, c).size)]), heapStart)
  {
    var region := Region(At(s, c).start, At(s, c).size);
    var s' := s.(lock := 0, pcs := s.pcs[c := Idle], done := s.done + [region]);
    Outside(s, heapStart, c);
    AtAfter(s, s', c, Idle);
    assert HolderOk(s, c, heapStart);
    TilingSnoc(s.done, heapStart, region);
    forall d: Cpu
      ensures HolderOk(s', d, heapStart)
    {
      assert !InCritical(At(s', d));
    }
  }

  /** Every step of every processor keeps the invariant. */
  lemma NextInv(s: State, s': State, c: Cpu, a: Action, heapStart: nat)
    requires Inv(s, heapStart) && Step(s, c, a, s')
    ensures Inv(s', heapStart)
  {
    assert HolderOk(s, c, heapStart);
    match a {
      case Call(size) => MoveInv(s, c, Acquiring(size), heapStart);
      case TestAndSet =>
        if s.lock % 2 == 0 { EnterInv(s, c, At(s, c).size, heapStart); }
      case Spin =>
      case ReadStart => MoveInv(s, c, HasStart(At(s, c).size, s.end), heapStart);
      case ReadEnd =>
        MoveInv(s, c, Adding(At(s, c).size, At(s, c).start, s.end + At(s, c).size * PAGE_SIZE), heapStart);
      case WriteEnd => StoreInv(s, c, heapStart);
      case Release => ReleaseInv(s, c, heapStart);
    }
  }

  /** A run: any processors taking any steps, one after the other. */
  ghost predicate IsRun(run: seq<State>, trace: seq<Event>, heapStart: nat) {
    && |run| == |trace| + 1 && Init(run[0], heapStart)
    && forall i, j | 0 <= i < j < |run| && j == i + 1 :: Step(run[i], trace[i].cpu, trace[i].action, run[j])
  }

  lemma {:induction false} RunInv(run: seq<State>, trace: seq<Event>, heapStart: nat, i: nat)
    requires IsRun(run, trace, heapStart) && i < |run|
    ensures Inv(run[i], heapStart)
  {
    if i == 0 {
      InitInv(run[0], heapStart);
    } else {
      RunInv(run, trace, heapStart, i - 1);
      NextInv(run[i - 1], run[i], trace[i - 1].cpu, trace[i - 1].action, heapStart);
    }
  }

  lemma {:induction false} TilingOrdered(rs: seq<Region>, lo: nat, hi: nat, i: nat, j: nat)
    requires Tiling(rs, lo, hi) && i < |rs| && j < |rs|
    ensures lo <= rs[i].start && rs[i].End() <= hi
    ensures i < j ==> rs[i].End() <= rs[j].start
  {
    var n := |rs| - 1;
    TilingLe(rs[..n], lo, rs[n].start);
    if i < n {
      TilingOrdered(rs[..n], lo, rs[n].start, i, if j < n then j else i);
    }
  }

  lemma {:induction false} TilingLe(rs: seq<Region>, lo: nat, hi: nat)
    requires Tiling(rs, lo, hi)
    ensures lo <= hi
  {
    if rs != [] {
      TilingLe(rs[..|rs| - 1], lo, rs[|rs| - 1].start);
    }
  }

  /** At every moment of every run at most one processor is inside, the regions handed out so
      far do not overlap and lie inside the heap, and whenever nobody is inside they fill it. */
  lemma GrowHeapSafe(run: seq<State>, trace: seq<Event>, heapStart: nat, i: nat)
    requires IsRun(run, trace, heapStart) && i < |run|
    ensures MutualExclusion(run[i])
    ensures forall j, k | 0 <= j < k < |run[i].done| :: run[i].done[j].End() <= run[i].done[k].start
    ensures forall j | 0 <= j < |run[i].done| :: heapStart <= run[i].done[j].start && run[i].done[j].End() <= run[i].end
    ensures (forall c :: !InCritical(At(run[i], c))) ==> Tiling(run[i].done, heapStart, run[i].end)
  {
    RunInv(run, trace, heapStart, i);
    var s := run[i];
    var hi := DoneEnd(s, heapStart);
    forall j, k | 0 <= j < |s.done| && 0 <= k < |s.done|
      ensures heapStart <= s.done[j].start && s.done[j].End() <= s.end
      ensures j < k ==> s.done[j].End() <= s.done[k].start
    {
      TilingOrdered(s.done, heapStart, hi, j, k);
    }
  }

  lemma DoneEnd(s: State, heapStart: nat) returns (hi: nat)
    requires Inv(s, heapStart)
    ensures Tiling(s.done, heapStart, hi) && hi <= s.end
  {
    if SomeoneStored(s) {
      var c :| At(s, c).Stored?;
      assert HolderOk(s, c, heapStart);
      hi := At(s, c).start;
    } else {
      hi := s.end;
    }
  }

  // ----- what the calls asked for -----

  /** The calls that have begun and not ended, with the sizes they were given. */
  function Pending(trace: seq<Event>): map<Cpu, nat> {
    if trace == [] then map[]
    else
      var before, e := Pending(trace[..|trace| - 1]), trace[|trace| - 1];
      match e.action
      case Call(size) => before[e.cpu := size]
      case Release => before - {e.cpu}
      case _ => before
  }

  /** The sizes of all calls, in the order in which they began. */
  function Asked(trace: seq<Event>): seq<nat> {
    if trace == [] then []
    else
      var before, e := Asked(trace[..|trace| - 1]), trace[|trace| - 1];
      if e.action.Call? then before + [e.action.size] else before
  }

  /** The sizes that the finished calls were given, in the order in which they ended. */
  function Served(trace: seq<Event>): seq<nat> {
    if trace == [] then []
    else
      var rest, e := trace[..|trace| - 1], trace[|trace| - 1];
      if e.action.Release? then Served(rest) + [if e.cpu in Pending(rest) then Pending(rest)[e.cpu] else 0] else Served(rest)
  }

  /** Each processor works on the size it was given, and each finished region has the size its call was given. */
  ghost predicate Serves(s: State, trace: seq<Event>) {
    && (forall c :: ServesOne(s, Pending(trace), c))
    && |s.done| == |Served(trace)| && forall j | 0 <= j < |s.done| :: s.done[j].pages == Served(trace)[j]
  }

  ghost predicate ServesOne(s: State, pending: map<Cpu, nat>, c: Cpu) {
    if At(s, c).Idle? then c !in pending else c in pending && At(s, c).size == pending[c]
  }

  lemma ServesStep(s: State, s': State, trace: seq<Event>, e: Event)
    requires Serves(s, trace) && Step(s, e.cpu, e.action, s')
    ensures Serves(s', trace + [e])
  {
    assert (trace + [e])[..|trace + [e]| - 1] == trace;
    forall c
      ensures ServesOne(s', Pending(trace + [e]), c)
    {
      assert ServesOne(s, Pending(trace), c) && ServesOne(s, Pending(trace), e.cpu);
    }
    assert ServesOne(s, Pending(trace), e.cpu);
  }

  lemma {:induction false} RunServes(run: seq<State>, trace: seq<Event>, heapStart: nat, i: nat)
    requires IsRun(run, trace, heapStart) && i < |run|
    ensures Serves(run[i], trace[..i])
  {
    if i == 0 {
      ServesInit(run[0], heapStart);
    } else {
      RunServes(run, trace, heapStart, i - 1);
      var rest, e := trace[..i - 1], trace[i - 1];
      assert trace[..i] == rest + [e];
      assert Step(run[i - 1], e.cpu, e.action, run[i]);
      ServesStep(run[i - 1], run[i], rest, e);
    }
  }

  lemma ServesInit(s: State, heapStart: nat)
    requires Init(s, heapStart)
    ensures Serves(s, [])
  {
  }

  function Sum(s: seq<nat>): nat {
    if s == [] then 0 else Sum(s[..|s| - 1]) + s[|s| - 1]
  }

  lemma SumSnoc(s: seq<nat>, x: nat)
    ensures Sum(s + [x]) == Sum(s) + x
  {
    assert (s + [x])[..|s + [x]| - 1] == s;
  }

  lemma {:induction false} TilingSum(rs: seq<Region>, lo: nat, hi: nat, sizes: seq<nat>)
    requires Tiling(rs, lo, hi) && |sizes| == |rs| && forall j | 0 <= j < |rs| :: rs[j].pages == sizes[j]
    ensures hi == lo + PAGE_SIZE * Sum(sizes)
  {
    if rs != [] {
      var n := |rs| - 1;
      TilingSum(rs[..n], lo, rs[n].start, sizes[..n]);
    }
  }

  ghost function Pick(m: map<Cpu, nat>): (c: Cpu)
    requires m != map[]
    ensures c in m
  {
    assert m.Keys != {};
    var c :| c in m.Keys;
    c
  }

  ghost function MapSum(m: map<Cpu, nat>): nat
    decreases |m|
  {
    if m == map[] then 0
    else
      assert |m - {Pick(m)}| < |m| by { Smaller(m, Pick(m)); }
      m[Pick(m)] + MapSum(m - {Pick(m)})
  }

  lemma Smaller(m: map<Cpu, nat>, c: Cpu)
    requires c in m
    ensures |m - {c}| < |m|
  {
    assert (m - {c}).Keys == m.Keys - {c};
    assert |(m - {c}).Keys| == |m.Keys| - 1;
  }

  lemma {:induction false} MapSumWithout(m: map<Cpu, nat>, c: Cpu)
    requires c in m
    ensures MapSum(m) == m[c] + MapSum(m - {c})
    decreases |m|
  {
    var d := Pick(m);
    if d != c {
      Smaller(m, d);
      Smaller(m, c);
      MapSumWithout(m - {d}, c);
      MapSumWithout(m - {c}, d);
      assert m - {d} - {c} == m - {c} - {d};
    }
  }

  /** What was asked for is what the finished calls were given and what the others still want. */
  lemma {:induction false} AskedIsServed(run: seq<State>, trace: seq<Event>, heapStart: nat, i: nat)
    requires IsRun(run, trace, heapStart) && i < |run|
    ensures Balanced(trace[..i])
  {
    if i == 0 {
      assert Pending(trace[..0]) == map[];
    } else {
      AskedIsServed(run, trace, heapStart, i - 1);
      RunServes(run, trace, heapStart, i - 1);
      AskedStep(run[i - 1], run[i], trace[..i - 1], trace[i - 1]);
      assert trace[..i] == trace[..i - 1] + [trace[i - 1]];
    }
  }

  ghost predicate Balanced(trace: seq<Event>) {
    Sum(Asked(trace)) == Sum(Served(trace)) + MapSum(Pending(trace))
  }

  lemma AskedStep(s: State, s': State, rest: seq<Event>, e: Event)
    requires Serves(s, rest) && Step(s, e.cpu, e.action, s')
    requires Balanced(rest)
    ensures Balanced(rest + [e])
  {
    assert (rest + [e])[..|rest + [e]| - 1] == rest;
    assert ServesOne(s, Pending(rest), e.cpu);
    var before, after := Pending(rest), Pending(rest + [e]);
    if e.action.Call? {
      SumSnoc(Asked(rest), e.action.size);
      MapSumWithout(after, e.cpu);
      assert after - {e.cpu} == before;
    } else if e.action.Release? {
      SumSnoc(Served(rest), before[e.cpu]);
      MapSumWithout(before, e.cpu);
    }
  }

  /** At every moment of every run the finished calls got exactly the pages they asked for, at different addresses when
      they asked for any; with nobody inside the heap has grown by what they asked for, and with no call under way by
      what all calls ever asked for. */
  lemma GrowHeapServes(run: seq<State>, trace: seq<Event>, heapStart: nat, i: nat)
    requires IsRun(run, trace, heapStart) && i < |run|
    ensures var s, sizes := run[i], Served(trace[..i]);
            && |s.done| == |sizes| && (forall j | 0 <= j < |s.done| :: s.done[j].pages == sizes[j])
            && (forall j, k | 0 <= j < k < |s.done| && sizes[j] > 0 :: s.done[j].start < s.done[k].start)
            && ((forall c :: !InCritical(At(s, c))) ==> s.end == heapStart + PAGE_SIZE * Sum(sizes))
            && ((forall c :: At(s, c).Idle?) ==> s.end == heapStart + PAGE_SIZE * Sum(Asked(trace[..i])))
  {
    var s, sizes := run[i], Served(trace[..i]);
    RunServes(run, trace, heapStart, i);
    GrowHeapSafe(run, trace, heapStart, i);
    if forall c :: !InCritical(At(s, c)) {
      TilingSum(s.done, heapStart, s.end, sizes);
    }
    if forall c :: At(s, c).Idle? {
      AskedIsServed(run, trace, heapStart, i);
      NobodyPending(s, Pending(trace[..i]));
    }
  }

  lemma NobodyPending(s: State, pending: map<Cpu, nat>)
    requires (forall c :: ServesOne(s, pending, c)) && forall c :: At(s, c).Idle?
    ensures pending == map[]
  {
    forall c: Cpu
      ensures c !in pending
    {
      assert ServesOne(s, pending, c);
    }
  }

  // ----- a call that runs alone -----

  /** The steps of one call, one after the other. */
  function CallSteps(size: nat): seq<Action> {
    [Call(size), TestAndSet, ReadStart, ReadEnd, WriteEnd, Release]
  }

  /** With the lock free, an idle processor can make all steps of a call: it returns the old heap end and moves it by
      the pages asked for. */
  lemma AloneServes(s: State, c: Cpu, size: nat) returns (run: seq<State>)
    requires s.lock == 0 && At(s, c).Idle?
    ensures |run| == 7 && run[0] == s
    ensures forall i, j | 0 <= i < j < 7 && j == i + 1 :: Step(run[i], c, CallSteps(size)[i], run[j])
    ensures run[6].lock == 0 && run[6].end == s.end + PAGE_SIZE * size && At(run[6], c).Idle?
    ensures run[6].done == s.done + [Region(s.end, size)]
  {
    var end := s.end + size * PAGE_SIZE;
    var s1 := s.(pcs := s.pcs[c := Acquiring(size)]);
    var s2 := s1.(lock := 1, pcs := s1.pcs[c := Entered(size)]);
    var s3 := s2.(pcs := s2.pcs[c := HasStart(size, s.end)]);
    var s4 := s3.(pcs := s3.pcs[c := Adding(size, s.end, end)]);
    var s5 := s4.(end := end, pcs := s4.pcs[c := Stored(size, s.end)]);
    var s6 := s5.(lock := 0, pcs := s5.pcs[c := Idle], done := s5.done + [Region(s.end, size)]);
    run := [s, s1, s2, s3, s4, s5, s6];
    assert Step(s, c, Call(size), s1) && Step(s1, c, TestAndSet, s2) && Step(s2, c, ReadStart, s3);
    assert Step(s3, c, ReadEnd, s4) && Step(s4, c, WriteEnd, s5) && Step(s5, c, Release, s6);
  }

  /** While somebody holds the lock, testing it changes nothing. */
  lemma LockedOut(s: State, c: Cpu, s': State, heapStart: nat)
    requires Inv(s, heapStart) && s.lock != 0 && Step(s, c, TestAndSet, s')
    ensures s' == s
  {
  }
}
