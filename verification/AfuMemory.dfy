/** Pinned memory and the user-message (UMSG) base register of an accelerator function,
    as a machine whose threads interleave at every lock and at every DMA call. */
module AfuMemory {
  import opened Common
  import opened DmaRegions

  /** Where a thread is inside a map or unmap call. */
  datatype Thread =
    | Idle
    | Charged(length: nat)      // pages charged, nothing mapped yet
    | Mapped(region: Region)    // mapped for DMA, not yet in the tree
    | Removed(region: Region)   // out of the tree, still mapped for DMA
    | Unmapped(length: nat)     // no longer mapped, pages still charged

  datatype State = State(
    regions: seq<Region>, base: nat, enabled: bool, locked: nat, threads: seq<Thread>)

  datatype Config = Config(numUmsgs: nat, hasUmsg: bool, limit: nat, mayExceed: bool) {
    /** Bytes of the message window. */
    function Window(): nat {
      numUmsgs * PAGE_SIZE
    }

    ghost predicate Valid() {
      numUmsgs < 256
    }
  }

  datatype Errno = EINVAL | ENOMEM | EFAULT | EEXIST | EBUSY | EIO | ENODEV
  datatype Status = Ok | Fail(errno: Errno)

  function Pages(length: nat): nat {
    length / PAGE_SIZE
  }

  // --- Charging pages ---

  function MayCharge(c: Config, locked: nat, pages: nat): bool {
    locked + pages <= c.limit || c.mayExceed
  }

  /** Giving pages back; the counter is clamped at zero. */
  function Refunded(locked: nat, pages: nat): nat {
    if pages > locked then 0 else locked - pages
  }

  function RefundedAll(locked: nat, rs: seq<Region>): nat {
    if rs == [] then locked else RefundedAll(Refunded(locked, Pages(rs[0].length)), rs[1..])
  }

  function RegionPages(rs: seq<Region>): nat {
    if rs == [] then 0 else Pages(rs[0].length) + RegionPages(rs[1..])
  }

  function Held(t: Thread): nat {
    match t
    case Idle => 0
    case Charged(length) => Pages(length)
    case Mapped(r) => Pages(r.length)
    case Removed(r) => Pages(r.length)
    case Unmapped(length) => Pages(length)
  }

  function ThreadPages(ts: seq<Thread>): nat {
    if ts == [] then 0 else Held(ts[0]) + ThreadPages(ts[1..])
  }

  // --- The base register ---

  /** Whether a 64-bit sum falls below its first term. */
  predicate Wraps(a: nat, b: nat) {
    (a + b) % UINT64 < a
  }

  function BaseField(iova: nat): nat {
    iova % BUS_LIMIT
  }

  /** Pointing the base at [iova, iova + window), which one live region must hold. */
  function Point(c: Config, s: State, iova: nat): (Status, State) {
    if iova % PAGE_SIZE != 0 then (Fail(EINVAL), s)
    else if Wraps(iova, c.Window()) then (Fail(EINVAL), s)
    else
      match Search(s.regions, iova, c.Window())
      case None => (Fail(EINVAL), s)
      case Some(r) => (Ok, s.(base := BaseField(iova), regions := Mark(s.regions, r.iova, true)))
  }

  function Clear(c: Config, s: State): (Status, State) {
    if s.base == 0 then (Ok, s)
    else if Wraps(s.base, c.Window()) then (Fail(EINVAL), s)
    else
      match Search(s.regions, s.base, c.Window())
      case None => (Fail(ENODEV), s)
      case Some(r) => (Ok, s.(base := 0, regions := Mark(s.regions, r.iova, false)))
  }

  /** Setting the base to a nonzero address, or clearing it with 0. */
  function SetBase(c: Config, s: State, iova: nat): (Status, State) {
    if s.enabled then (Fail(EIO), s)
    else if iova != 0 then Point(c, s, iova)
    else Clear(c, s)
  }

  function Enable(s: State, enable: bool): (Status, State) {
    if enable && s.base == 0 then (Fail(EIO), s) else (Ok, s.(enabled := enable))
  }

  /** Halting the engine before the last close frees memory. */
  function Halt(c: Config, s: State): State {
    if c.hasUmsg then SetBase(c, Enable(s, false).1, 0).1 else s
  }

  // --- Steps ---

  datatype Step =
    | Charge(t: nat, length: nat)
    | Refund(t: nat)
    | MapDma(t: nat, iova: nat)
    | UnmapDma(t: nat)
    | Publish(t: nat)
    | Take(t: nat, iova: nat)
    | WriteBase(iova: nat)
    | Switch(on: bool)
    | Release

  predicate RangesApart(a: Region, b: Region) {
    a.End() <= b.iova || b.End() <= a.iova
  }

  predicate Holds(t: Thread) {
    t.Mapped? || t.Removed?
  }

  /** What dma_map_page promises: a range of bus addresses not handed out already. */
  ghost predicate Free(s: State, r: Region) {
    && r.Valid()
    && Disjoint(r, s.regions)
    && forall t :: 0 <= t < |s.threads| && Holds(s.threads[t]) ==> RangesApart(r, s.threads[t].region)
  }

  ghost predicate Can(c: Config, s: State, step: Step) {
    match step
    case Charge(t, length) =>
      t < |s.threads| && s.threads[t].Idle? && 0 < length && MayCharge(c, s.locked, Pages(length))
    case Refund(t) => t < |s.threads| && (s.threads[t].Charged? || s.threads[t].Unmapped?)
    case MapDma(t, iova) => t < |s.threads| && s.threads[t].Charged? && Free(s, Region(iova, s.threads[t].length, false))
    case UnmapDma(t) => t < |s.threads| && Holds(s.threads[t])
    case Publish(t) => t < |s.threads| && s.threads[t].Mapped?
    case Take(t, iova) =>
      t < |s.threads| && s.threads[t].Idle? && iova < UINT64
      && Search(s.regions, iova, 0).Some? && !Search(s.regions, iova, 0).value.inUse
    case WriteBase(iova) => c.hasUmsg && iova < UINT64
    case Switch(on) => c.hasUmsg
    // The last close: no call on any open file is still running.
    case Release => forall t :: 0 <= t < |s.threads| ==> s.threads[t].Idle?
  }

  ghost function Do(c: Config, s: State, step: Step): State
    requires Can(c, s, step)
  {
    match step
    case Charge(t, length) =>
      s.(locked := s.locked + Pages(length), threads := s.threads[t := Charged(length)])
    case Refund(t) =>
      s.(locked := Refunded(s.locked, Held(s.threads[t])), threads := s.threads[t := Idle])
    case MapDma(t, iova) => s.(threads := s.threads[t := Mapped(Region(iova, s.threads[t].length, false))])
    case UnmapDma(t) => s.(threads := s.threads[t := Unmapped(s.threads[t].region.length)])
    case Publish(t) =>
      s.(regions := Insert(s.regions, s.threads[t].region), threads := s.threads[t := Idle])
    case Take(t, iova) =>
      s.(regions := Without(s.regions, iova), threads := s.threads[t := Removed(Search(s.regions, iova, 0).value)])
    case WriteBase(iova) => SetBase(c, s, iova).1
    case Switch(on) => Enable(s, on).1
    case Release => Halt(c, s).(regions := [], locked := RefundedAll(s.locked, s.regions))
  }

  ghost predicate Reaches(c: Config, s: State, steps: seq<Step>, t: State)
    decreases |steps|
  {
    if steps == [] then s == t
    else Can(c, s, steps[0]) && Reaches(c, Do(c, s, steps[0]), steps[1..], t)
  }

  /** A freshly probed function; `baseline` pages were locked before. */
  ghost predicate Init(c: Config, baseline: nat, s: State) {
    && s.regions == [] && s.base == 0 && !s.enabled && s.locked == baseline
    && forall t :: 0 <= t < |s.threads| ==> s.threads[t].Idle?
  }

  // --- Invariant ---

  ghost predicate ThreadsApart(rs: seq<Region>, ts: seq<Thread>) {
    && (forall t :: 0 <= t < |ts| && Holds(ts[t]) ==> ts[t].region.Valid() && Disjoint(ts[t].region, rs))
    && (forall t, u :: 0 <= t < u < |ts| && Holds(ts[t]) && Holds(ts[u]) ==> RangesApart(ts[t].region, ts[u].region))
  }

  /** The base, if set, is page aligned and its window is inside region i, marked in use. */
  ghost predicate Anchored(c: Config, s: State, i: nat) {
    i < |s.regions| && s.regions[i].inUse && CheckIova(s.regions[i], s.base, c.Window())
  }

  ghost predicate BaseSafe(c: Config, s: State) {
    && s.base < BUS_LIMIT
    && (s.base != 0 ==> c.hasUmsg && s.base % PAGE_SIZE == 0 && exists i: nat :: Anchored(c, s, i))
    && (s.enabled ==> s.base != 0)
  }

  ghost predicate Accounted(baseline: nat, s: State) {
    s.locked == baseline + RegionPages(s.regions) + ThreadPages(s.threads)
  }

  ghost predicate UnderLimit(c: Config, baseline: nat, s: State) {
    baseline <= c.limit && !c.mayExceed ==> s.locked <= c.limit
  }

  ghost predicate Inv(c: Config, baseline: nat, s: State) {
    && Sorted(s.regions)
    && ThreadsApart(s.regions, s.threads)
    && BaseSafe(c, s)
    && Accounted(baseline, s)
    && UnderLimit(c, baseline, s)
  }

  // --- Sums ---

  lemma {:induction false} InsertPages(rs: seq<Region>, r: Region)
    ensures RegionPages(Insert(rs, r)) == RegionPages(rs) + Pages(r.length)
  {
    if rs == [] {
    } else {
      if r.iova < rs[0].iova {
        assert ([r] + rs)[1..] == rs;
      } else {
        InsertPages(rs[1..], r);
        assert ([rs[0]] + Insert(rs[1..], r))[1..] == Insert(rs[1..], r);
      }
    }
  }

  lemma {:induction false} WithoutPages(rs: seq<Region>, i: nat)
    requires Sorted(rs) && i < |rs|
    ensures RegionPages(rs) == RegionPages(Without(rs, rs[i].iova)) + Pages(rs[i].length)
  {
    var iova := rs[i].iova;
    if i == 0 {
      WithoutAbsent(rs[1..], iova);
    } else {
      WithoutPages(rs[1..], i - 1);
      assert ([rs[0]] + Without(rs[1..], iova))[1..] == Without(rs[1..], iova);
    }
  }

  lemma {:induction false} SameLengthsSamePages(a: seq<Region>, b: seq<Region>)
    requires |a| == |b| && forall i :: 0 <= i < |a| ==> a[i].length == b[i].length
    ensures RegionPages(a) == RegionPages(b)
  {
    if a == [] {
    } else {
      assert forall i :: 0 <= i < |a| - 1 ==> a[1..][i] == a[i + 1] && b[1..][i] == b[i + 1];
      SameLengthsSamePages(a[1..], b[1..]);
    }
  }

  lemma {:induction false} RefundAll(locked: nat, rs: seq<Region>)
    requires RegionPages(rs) <= locked
    ensures RefundedAll(locked, rs) == locked - RegionPages(rs)
  {
    if rs == [] {
    } else {
      RefundAll(locked - Pages(rs[0].length), rs[1..]);
    }
  }

  lemma {:induction false} ThreadUpdate(ts: seq<Thread>, t: nat, f: Thread)
    requires t < |ts|
    ensures ThreadPages(ts[t := f]) == ThreadPages(ts) - Held(ts[t]) + Held(f)
    ensures Held(ts[t]) <= ThreadPages(ts)
  {
    if t == 0 {
      assert ts[t := f][1..] == ts[1..];
    } else {
      ThreadUpdate(ts[1..], t - 1, f);
      assert ts[t := f][1..] == ts[1..][t - 1 := f];
    }
  }

  lemma {:induction false} IdlePages(ts: seq<Thread>)
    requires forall t :: 0 <= t < |ts| ==> ts[t].Idle?
    ensures ThreadPages(ts) == 0
  {
    if ts == [] {
    } else {
      IdlePages(ts[1..]);
    }
  }

  // --- Each step keeps the invariant ---

  lemma {:induction false} DisjointFromInserted(a: Region, rs: seq<Region>, r: Region)
    requires Disjoint(a, rs) && RangesApart(a, r)
    ensures Disjoint(a, Insert(rs, r))
  {
    var k := InsertSplits(rs, r);
  }

  lemma {:induction false} DisjointFromRemaining(a: Region, rs: seq<Region>, iova: nat)
    requires Disjoint(a, rs) && Sorted(rs)
    ensures Disjoint(a, Without(rs, iova))
  {
    WithoutKeepsSorted(rs, iova);
    var rest := Without(rs, iova);
    forall i | 0 <= i < |rest| ensures RangesApart(a, rest[i]) { assert rest[i] in rs; }
  }

  lemma {:induction false} ChargeKeeps(c: Config, baseline: nat, s: State, step: Step)
    requires Inv(c, baseline, s) && Can(c, s, step) && (step.Charge? || step.Refund? || step.UnmapDma?)
    ensures Inv(c, baseline, Do(c, s, step))
  {
    var after := Do(c, s, step);
    ThreadUpdate(s.threads, step.t, after.threads[step.t]);
    assert ThreadsApart(after.regions, after.threads);
    AnchorStays(c, s, after);
  }

  lemma {:induction false} AnchorStays(c: Config, s: State, after: State)
    requires BaseSafe(c, s)
    requires after.base == s.base && after.enabled == s.enabled && after.regions == s.regions
    ensures BaseSafe(c, after)
  {
    if s.base != 0 {
      var i: nat :| Anchored(c, s, i);
      assert Anchored(c, after, i);
    }
  }

  lemma {:induction false} MapDmaKeeps(c: Config, baseline: nat, s: State, step: Step)
    requires Inv(c, baseline, s) && Can(c, s, step) && step.MapDma?
    ensures Inv(c, baseline, Do(c, s, step))
  {
    var after := Do(c, s, step);
    ThreadUpdate(s.threads, step.t, after.threads[step.t]);
    AnchorStays(c, s, after);
  }

  lemma {:induction false} PublishKeeps(c: Config, baseline: nat, s: State, step: Step)
    requires Inv(c, baseline, s) && Can(c, s, step) && step.Publish?
    ensures Inv(c, baseline, Do(c, s, step))
  {
    var after, r := Do(c, s, step), s.threads[step.t].region;
    ThreadUpdate(s.threads, step.t, Idle);
    InsertPages(s.regions, r);
    InsertKeepsSorted(s.regions, r);
    assert ThreadsApart(after.regions, after.threads) by { PublishApart(s.regions, s.threads, step.t); }
    PublishAnchored(c, s, after, r);
  }

  lemma {:induction false} PublishAnchored(c: Config, s: State, after: State, r: Region)
    requires BaseSafe(c, s) && after.base == s.base && after.enabled == s.enabled && after.regions == Insert(s.regions, r)
    ensures BaseSafe(c, after)
  {
    if s.base != 0 {
      var k := InsertSplits(s.regions, r);
      var i: nat :| Anchored(c, s, i);
      assert Anchored(c, after, if i < k then i else i + 1);
    }
  }

  lemma {:induction false} PublishApart(rs: seq<Region>, ts: seq<Thread>, t: nat)
    requires ThreadsApart(rs, ts) && t < |ts| && ts[t].Mapped?
    ensures ThreadsApart(Insert(rs, ts[t].region), ts[t := Idle])
  {
    var after := ts[t := Idle];
    forall u | 0 <= u < |ts| && Holds(after[u]) ensures Disjoint(after[u].region, Insert(rs, ts[t].region)) {
      DisjointFromInserted(ts[u].region, rs, ts[t].region);
    }
  }

  lemma {:induction false} TakeApart(rs: seq<Region>, ts: seq<Thread>, t: nat, i: nat)
    requires Sorted(rs) && ThreadsApart(rs, ts) && t < |ts| && i < |rs|
    ensures ThreadsApart(Without(rs, rs[i].iova), ts[t := Removed(rs[i])])
  {
    var rest, after := Without(rs, rs[i].iova), ts[t := Removed(rs[i])];
    WithoutKeepsSorted(rs, rs[i].iova);
    forall j | 0 <= j < |rest| ensures RangesApart(rs[i], rest[j]) {
      assert rest[j] in rs;
      var k :| 0 <= k < |rs| && rs[k] == rest[j];
    }
    forall u | 0 <= u < |ts| && Holds(after[u]) ensures after[u].region.Valid() && Disjoint(after[u].region, rest) {
      if u != t {
        DisjointFromRemaining(ts[u].region, rs, rs[i].iova);
      }
    }
    forall u | 0 <= u < |ts| && u != t && Holds(ts[u]) ensures RangesApart(ts[u].region, rs[i]) {
    }
  }

  lemma {:induction false} TakeKeeps(c: Config, baseline: nat, s: State, step: Step)
    requires Inv(c, baseline, s) && Can(c, s, step) && step.Take?
    ensures Inv(c, baseline, Do(c, s, step))
  {
    var after := Do(c, s, step);
    var i := SearchFound(s.regions, step.iova, 0);
    assert s.regions[i].iova == step.iova;
    assert Accounted(baseline, after) by {
      ThreadUpdate(s.threads, step.t, Removed(s.regions[i]));
      WithoutPages(s.regions, i);
    }
    assert Sorted(after.regions) by { WithoutKeepsSorted(s.regions, step.iova); }
    TakeApart(s.regions, s.threads, step.t, i);
    TakeAnchored(c, s, after, i);
  }

  /** A region not in use is not the one that holds the base. */
  lemma {:induction false} TakeAnchored(c: Config, s: State, after: State, i: nat)
    requires Sorted(s.regions) && BaseSafe(c, s) && i < |s.regions| && !s.regions[i].inUse
    requires after.base == s.base && after.enabled == s.enabled && after.regions == Without(s.regions, s.regions[i].iova)
    ensures BaseSafe(c, after)
  {
    WithoutKeepsSorted(s.regions, s.regions[i].iova);
    if s.base != 0 {
      var k: nat :| Anchored(c, s, k);
      assert s.regions[k].iova != s.regions[i].iova;
      assert s.regions[k] in after.regions;
      var j: nat :| j < |after.regions| && after.regions[j] == s.regions[k];
      assert Anchored(c, after, j);
    }
  }

  lemma {:induction false} MarkKeeps(baseline: nat, rs: seq<Region>, ts: seq<Thread>, iova: nat, inUse: bool)
    requires Sorted(rs) && ThreadsApart(rs, ts)
    ensures Sorted(Mark(rs, iova, inUse)) && ThreadsApart(Mark(rs, iova, inUse), ts)
    ensures RegionPages(Mark(rs, iova, inUse)) == RegionPages(rs)
  {
    SameLengthsSamePages(Mark(rs, iova, inUse), rs);
  }

  /** A 64-bit sum that did not fall did not wrap. */
  lemma {:induction false} NoWrap(iova: nat, size: nat)
    requires iova < UINT64 && size < UINT64
    ensures Wraps(iova, size) <==> iova + size >= UINT64
  {
  }

  lemma {:induction false} BaseTruncates(iova: nat)
    requires iova < BUS_LIMIT
    ensures BaseField(iova) == iova
  {
  }

  lemma {:induction false} PointKeeps(c: Config, baseline: nat, s: State, iova: nat)
    requires c.Valid() && Inv(c, baseline, s) && !s.enabled && c.hasUmsg && 0 < iova < UINT64
    ensures Inv(c, baseline, Point(c, s, iova).1)
  {
    var (status, after) := Point(c, s, iova);
    if status == Ok {
      NoWrap(iova, c.Window());
      var i := SearchFound(s.regions, iova, c.Window());
      CheckIovaMeaning(s.regions[i], iova, c.Window());
      assert iova < BUS_LIMIT;
      BaseTruncates(iova);
      MarkKeeps(baseline, s.regions, s.threads, s.regions[i].iova, true);
      assert after.regions[i] == s.regions[i].(inUse := true);
      assert Anchored(c, after, i);
      assert BaseSafe(c, after);
    }
  }

  lemma {:induction false} SetBaseKeeps(c: Config, baseline: nat, s: State, iova: nat)
    requires c.Valid() && Inv(c, baseline, s) && c.hasUmsg && iova < UINT64
    ensures Inv(c, baseline, SetBase(c, s, iova).1)
  {
    var (status, after) := SetBase(c, s, iova);
    if !s.enabled && iova != 0 {
      PointKeeps(c, baseline, s, iova);
    } else if after != s {
      var r := Search(s.regions, s.base, c.Window()).value;
      MarkKeeps(baseline, s.regions, s.threads, r.iova, false);
    }
  }

  /** Clearing the base never meets the errors the driver warns about. */
  lemma {:induction false} ClearSucceeds(c: Config, baseline: nat, s: State)
    requires c.Valid() && Inv(c, baseline, s) && !s.enabled
    ensures Clear(c, s).0 == Ok && Clear(c, s).1.base == 0
  {
    if s.base != 0 {
      NoWrap(s.base, c.Window());
      var i: nat :| Anchored(c, s, i);
      CheckIovaMeaning(s.regions[i], s.base, c.Window());
      SearchUnique(s.regions, s.base, c.Window(), i);
    }
  }

  lemma {:induction false} HaltKeeps(c: Config, baseline: nat, s: State)
    requires c.Valid() && Inv(c, baseline, s)
    ensures Inv(c, baseline, Halt(c, s)) && Halt(c, s).base == 0 && !Halt(c, s).enabled
    ensures RegionPages(Halt(c, s).regions) == RegionPages(s.regions)
    ensures Halt(c, s).locked == s.locked && Halt(c, s).threads == s.threads
  {
    if c.hasUmsg {
      var off := Enable(s, false).1;
      if s.base != 0 {
        var i: nat :| Anchored(c, s, i);
        assert Anchored(c, off, i);
      }
      SetBaseKeeps(c, baseline, off, 0);
      ClearSucceeds(c, baseline, off);
    }
  }

  lemma {:induction false} ReleaseKeeps(c: Config, baseline: nat, s: State)
    requires c.Valid() && Inv(c, baseline, s) && Can(c, s, Release)
    ensures Init(c, baseline, Do(c, s, Release)) && Inv(c, baseline, Do(c, s, Release))
  {
    HaltKeeps(c, baseline, s);
    IdlePages(s.threads);
    RefundAll(s.locked, s.regions);
  }

  lemma {:induction false} StepKeeps(c: Config, baseline: nat, s: State, step: Step)
    requires c.Valid() && Inv(c, baseline, s) && Can(c, s, step)
    ensures Inv(c, baseline, Do(c, s, step))
  {
    match step
    case Charge(_, _) => ChargeKeeps(c, baseline, s, step);
    case Refund(_) => ChargeKeeps(c, baseline, s, step);
    case MapDma(_, _) => MapDmaKeeps(c, baseline, s, step);
    case UnmapDma(_) => ChargeKeeps(c, baseline, s, step);
    case Publish(_) => PublishKeeps(c, baseline, s, step);
    case Take(_, _) => TakeKeeps(c, baseline, s, step);
    case WriteBase(iova) => SetBaseKeeps(c, baseline, s, iova);
    case Switch(on) =>
      if s.base != 0 {
        var i: nat :| Anchored(c, s, i);
        assert Anchored(c, Do(c, s, step), i);
      }
    case Release => ReleaseKeeps(c, baseline, s);
  }

  lemma {:induction false} RunKeeps(c: Config, baseline: nat, s: State, steps: seq<Step>, t: State)
    requires c.Valid() && Inv(c, baseline, s) && Reaches(c, s, steps, t)
    ensures Inv(c, baseline, t)
    decreases |steps|
  {
    if steps == [] {
    } else {
      StepKeeps(c, baseline, s, steps[0]);
      RunKeeps(c, baseline, Do(c, s, steps[0]), steps[1..], t);
    }
  }

  lemma {:induction false} InitHolds(c: Config, baseline: nat, s: State)
    requires Init(c, baseline, s)
    ensures Inv(c, baseline, s)
  {
    IdlePages(s.threads);
  }

  // --- Over every run ---

  /** Every byte of the message window lies in region i. */
  ghost predicate Encloses(c: Config, s: State, i: nat) {
    && i < |s.regions| && s.regions[i].inUse
    && s.regions[i].iova <= s.base && s.base + c.Window() <= s.regions[i].End()
  }

  /** However the threads interleave, a set base has its whole window inside a live region
      marked in use, clear of every region some thread is about to unmap, and the engine
      is on only with a base. */
  lemma {:induction false} WindowStaysMapped(c: Config, baseline: nat, s: State, steps: seq<Step>, t: State)
    requires c.Valid() && Init(c, baseline, s) && Reaches(c, s, steps, t)
    ensures t.enabled ==> t.base != 0
    ensures t.base != 0 ==> exists i: nat :: Encloses(c, t, i)
    ensures forall u :: t.base != 0 && 0 <= u < |t.threads| && t.threads[u].Removed? ==>
      t.base + c.Window() <= t.threads[u].region.iova || t.threads[u].region.End() <= t.base
    ensures forall i :: t.base != 0 && 0 <= i < |t.regions| && !t.regions[i].inUse ==>
      t.base + c.Window() <= t.regions[i].iova || t.regions[i].End() <= t.base
  {
    InitHolds(c, baseline, s);
    RunKeeps(c, baseline, s, steps, t);
    if t.base != 0 {
      var i: nat :| Anchored(c, t, i);
      CheckIovaMeaning(t.regions[i], t.base, c.Window());
      assert Encloses(c, t, i);
    }
  }

  /** The locked-page counter is exactly what live regions and running calls hold; it stays
      under the limit; no refund is ever clamped. */
  lemma {:induction false} LockedPagesConserved(c: Config, baseline: nat, s: State, steps: seq<Step>, t: State)
    requires c.Valid() && Init(c, baseline, s) && Reaches(c, s, steps, t)
    ensures t.locked == baseline + RegionPages(t.regions) + ThreadPages(t.threads)
    ensures baseline <= c.limit && !c.mayExceed ==> t.locked <= c.limit
    ensures forall u :: 0 <= u < |t.threads| ==> Refunded(t.locked, Held(t.threads[u])) == t.locked - Held(t.threads[u])
    ensures RefundedAll(t.locked, t.regions) == t.locked - RegionPages(t.regions)
  {
    InitHolds(c, baseline, s);
    RunKeeps(c, baseline, s, steps, t);
    RefundAll(t.locked, t.regions);
    forall u | 0 <= u < |t.threads| ensures Held(t.threads[u]) <= t.locked {
      ThreadUpdate(t.threads, u, Idle);
    }
  }

  /** In every reachable state a search for any range finds the one live region that holds
      it, or none does. */
  lemma {:induction false} LookupIsExact(c: Config, baseline: nat, s: State, steps: seq<Step>, t: State, iova: nat, size: nat)
    requires c.Valid() && Init(c, baseline, s) && Reaches(c, s, steps, t) && iova + size < UINT64
    ensures forall i :: 0 <= i < |t.regions| ==>
      (Search(t.regions, iova, size) == Some(t.regions[i]) <==>
       if size == 0 then t.regions[i].iova == iova
       else t.regions[i].iova <= iova && iova + size <= t.regions[i].End())
    ensures Search(t.regions, iova, size).Some? ==> Search(t.regions, iova, size).value in t.regions
  {
    InitHolds(c, baseline, s);
    RunKeeps(c, baseline, s, steps, t);
    forall i | 0 <= i < |t.regions|
      ensures CheckIova(t.regions[i], iova, size) <==> Search(t.regions, iova, size) == Some(t.regions[i])
      ensures CheckIova(t.regions[i], iova, size) <==>
        if size == 0 then t.regions[i].iova == iova
        else t.regions[i].iova <= iova && iova + size <= t.regions[i].End()
    {
      CheckIovaMeaning(t.regions[i], iova, size);
      if CheckIova(t.regions[i], iova, size) {
        SearchUnique(t.regions, iova, size, i);
      }
      if Search(t.regions, iova, size) == Some(t.regions[i]) {
        var k := SearchFound(t.regions, iova, size);
      }
    }
    if Search(t.regions, iova, size).Some? {
      var k := SearchFound(t.regions, iova, size);
    }
  }

  // --- Marks that outlive their use ---

  /** Only the region that holds the base is marked. */
  ghost predicate MarksExact(c: Config, s: State) {
    forall i: nat :: i < |s.regions| && s.regions[i].inUse ==> s.base != 0 && Anchored(c, s, i)
  }

  /** Setting a base over another leaves no stale mark exactly when the old base was clear
      or lay in the same region. */
  lemma {:induction false} NoStaleMarkIff(c: Config, baseline: nat, s: State, iova: nat)
    requires c.Valid() && Inv(c, baseline, s) && c.hasUmsg && 0 < iova < UINT64
    requires SetBase(c, s, iova).0 == Ok && MarksExact(c, s)
    ensures MarksExact(c, SetBase(c, s, iova).1) <==>
      s.base == 0 || Search(s.regions, s.base, c.Window()) == Search(s.regions, iova, c.Window())
  {
    var after := SetBase(c, s, iova).1;
    assert after == Point(c, s, iova).1;
    var n := PointedAt(c, baseline, s, iova);
    MarksOne(s.regions, n);
    assert CheckIova(after.regions[n], after.base, c.Window());
    assert Anchored(c, after, n);
    OneAnchor(c, after, n);
    assert MarksExact(c, after) <==> forall i: nat :: i < |s.regions| && s.regions[i].inUse ==> i == n;
    if s.base != 0 {
      var k: nat :| Anchored(c, s, k);
      CheckIovaMeaning(s.regions[k], s.base, c.Window());
      SearchUnique(s.regions, s.base, c.Window(), k);
      OneAnchor(c, s, k);
    }
  }

  /** Setting a base marks region n, which then holds it. */
  lemma {:induction false} PointedAt(c: Config, baseline: nat, s: State, iova: nat) returns (n: nat)
    requires c.Valid() && Inv(c, baseline, s) && !s.enabled && 0 < iova < UINT64 && Point(c, s, iova).0 == Ok
    ensures Search(s.regions, iova, c.Window()).Some? && n < |s.regions|
    ensures Search(s.regions, iova, c.Window()).value == s.regions[n]
    ensures Point(c, s, iova).1 == s.(base := iova, regions := Mark(s.regions, s.regions[n].iova, true))
    ensures CheckIova(s.regions[n], iova, c.Window()) && iova < BUS_LIMIT
  {
    NoWrap(iova, c.Window());
    n := SearchFound(s.regions, iova, c.Window());
    CheckIovaMeaning(s.regions[n], iova, c.Window());
    BaseTruncates(iova);
  }

  /** Marking by start address marks one region of a sorted list. */
  lemma {:induction false} MarksOne(rs: seq<Region>, n: nat)
    requires Sorted(rs) && n < |rs|
    ensures forall i :: 0 <= i < |rs| ==>
      (Mark(rs, rs[n].iova, true)[i].inUse <==> rs[i].inUse || i == n)
      && Mark(rs, rs[n].iova, true)[i].iova == rs[i].iova && Mark(rs, rs[n].iova, true)[i].length == rs[i].length
  {
    forall i | 0 <= i < |rs| ensures rs[i].iova == rs[n].iova <==> i == n {}
  }

  /** Two one-page regions: moving the base from one to the other and then clearing it
      leaves the first one marked, so it can no longer be unmapped. */
  lemma {:induction false} StaleMark(c: Config, s: State, first: Region, second: Region)
    requires c.hasUmsg && c.numUmsgs == 1 && !s.enabled && s.base == 0 && s.regions == [first, second]
    requires first == Region(0x1000, 0x1000, false) && second == Region(0x2000, 0x1000, false)
    ensures var moved := SetBase(c, SetBase(c, s, 0x1000).1, 0x2000).1; var cleared := SetBase(c, moved, 0).1;
      && cleared.base == 0 && cleared.regions == [first.(inUse := true), second]
      && forall t :: !Can(c, cleared, Take(t, 0x1000))
  {
    var marked := first.(inUse := true);
    var one := SetBase(c, s, 0x1000).1;
    SearchTwo(first, second, 0x1000, 0x1000);
    assert one == s.(base := 0x1000, regions := [marked, second]);
    var two := SetBase(c, one, 0x2000).1;
    SearchTwo(marked, second, 0x2000, 0x1000);
    assert two == s.(base := 0x2000, regions := [marked, second.(inUse := true)]);
    SearchTwo(marked, second.(inUse := true), 0x2000, 0x1000);
    var cleared := SetBase(c, two, 0).1;
    assert cleared == s.(base := 0, regions := [marked, second]);
    SearchTwo(marked, second, 0x1000, 0);
  }

  lemma {:induction false} SearchTwo(a: Region, b: Region, iova: nat, size: nat)
    ensures Search([a, b], iova, size) ==
      if CheckIova(a, iova, size) then Some(a) else if CheckIova(b, iova, size) then Some(b) else None
  {
    assert [a, b][1..] == [b];
    SearchOne(b, iova, size);
  }

  lemma {:induction false} SearchOne(a: Region, iova: nat, size: nat)
    ensures Search([a], iova, size) == if CheckIova(a, iova, size) then Some(a) else None
  {
    assert [a][1..] == [];
  }

  lemma {:induction false} OneAnchor(c: Config, s: State, k: nat)
    requires c.Valid() && Sorted(s.regions) && s.base < BUS_LIMIT && Anchored(c, s, k)
    ensures forall i: nat :: Anchored(c, s, i) ==> i == k
  {
    forall i: nat | Anchored(c, s, i) ensures i == k {
      CheckIovaMeaning(s.regions[i], s.base, c.Window());
      CheckIovaMeaning(s.regions[k], s.base, c.Window());
    }
  }

  // --- Putting runs together ---

  lemma {:induction false} ReachesMore(c: Config, s: State, steps: seq<Step>, mid: State, step: Step)
    requires Reaches(c, s, steps, mid) && Can(c, mid, step)
    ensures Reaches(c, s, steps + [step], Do(c, mid, step))
    decreases |steps|
  {
    if steps == [] {
      assert ([] + [step])[1..] == [];
      assert Reaches(c, Do(c, s, step), [], Do(c, mid, step));
    } else {
      ReachesMore(c, Do(c, s, steps[0]), steps[1..], mid, step);
      assert (steps + [step])[1..] == steps[1..] + [step];
    }
  }

  /** Mapping and publishing in a row is a run. */
  lemma {:induction false} MappedThenPublished(
      c: Config, baseline: nat, was: State, run: seq<Step>, s: State, t: nat, iova: nat) returns (steps: seq<Step>)
    requires c.Valid() && Inv(c, baseline, s) && Reaches(c, was, run, s) && Can(c, s, MapDma(t, iova))
    ensures var mapped := Do(c, s, MapDma(t, iova));
      && Can(c, mapped, Publish(t)) && Inv(c, baseline, Do(c, mapped, Publish(t)))
      && Reaches(c, was, steps, Do(c, mapped, Publish(t)))
  {
    StepKeeps(c, baseline, s, MapDma(t, iova));
    ReachesMore(c, was, run, s, MapDma(t, iova));
    var mapped := Do(c, s, MapDma(t, iova));
    StepKeeps(c, baseline, mapped, Publish(t));
    ReachesMore(c, was, run + [MapDma(t, iova)], mapped, Publish(t));
    steps := run + [MapDma(t, iova)] + [Publish(t)];
  }

  lemma {:induction false} FreeStays(s: State, after: State, r: Region, t: nat)
    requires Free(s, r) && t < |s.threads| && |after.threads| == |s.threads| && after.threads[t].Charged?
    requires after.regions == s.regions && after.threads == s.threads[t := after.threads[t]]
    ensures Free(after, r)
  {
  }
}
