/** The accelerator function's driver: its map, unmap, message-base and close calls as runs
    of the protocol. */
module AfuDriver {
  import opened Common
  import opened DmaRegions
  import opened AfuMemory
  import opened Teardown
  import opened UmsgBase

  /** Narrowing to a C int. */
  function ToInt32(n: nat): int {
    var low := n % 0x1_0000_0000;
    if low < 0x8000_0000 then low else low - 0x1_0000_0000
  }

  /** The int that is equal to the number modulo 2^32. */
  lemma {:induction false} Narrows(n: nat)
    ensures -0x8000_0000 <= ToInt32(n) < 0x8000_0000 && (n - ToInt32(n)) % 0x1_0000_0000 == 0
    ensures n < 0x8000_0000 ==> ToInt32(n) == n
  {
    var q, low := n / 0x1_0000_0000, n % 0x1_0000_0000;
    assert n == q * 0x1_0000_0000 + low;
    if low >= 0x8000_0000 {
      assert n - ToInt32(n) == (q + 1) * 0x1_0000_0000;
    }
  }

  datatype Pin = PinFailed(errno: Errno) | Pinned(frames: seq<nat>)

  ghost predicate Contiguous(frames: seq<nat>, n: int) {
    forall i :: 0 <= i < n - 1 && i + 1 < |frames| ==> frames[i] + 1 == frames[i + 1]
  }

  method CheckContinuous(frames: seq<nat>) returns (ok: bool)
    ensures ok <==> Contiguous(frames, ToInt32(|frames|))
  {
    var n := ToInt32(|frames|);
    var i := 0;
    while i < n - 1
      invariant 0 <= i && n <= |frames|
      invariant forall k :: 0 <= k < i && k + 1 < |frames| ==> frames[k] + 1 == frames[k + 1]
    {
      if frames[i] + 1 != frames[i + 1] {
        return false;
      }
      i := i + 1;
    }
    return true;
  }

  /** Page-aligned, nonempty user memory that does not wrap around. */
  predicate AcceptsInput(userAddr: nat, length: nat) {
    && userAddr % PAGE_SIZE == 0 && length % PAGE_SIZE == 0 && length != 0
    && !Wraps(userAddr, length)
  }

  /** Why a map request fails, in the order the driver finds out. */
  function MapError(sound: bool, node: bool, within: bool, table: bool, pin: Pin, pages: nat, contiguous: bool): Errno {
    if !sound then EINVAL
    else if !node || !within || !table then ENOMEM
    else match pin
      case PinFailed(errno) => errno
      case Pinned(frames) => if |frames| == pages && !contiguous then EINVAL else EFAULT
  }

  ghost predicate PinnedInRow(pin: Pin) {
    pin.Pinned? ==> Contiguous(pin.frames, ToInt32(|pin.frames|))
  }

  class Afu {
    const config: Config
    ghost const baseline: nat
    var root: Tree
    var base: nat
    var enabled: bool
    var lockedVm: nat
    ghost var threads: seq<Thread>

    ghost function Now(): State
      reads this
    {
      State(Regions(root), base, enabled, lockedVm, threads)
    }

    ghost predicate Valid()
      reads this
    {
      config.Valid() && Inv(config, baseline, Now())
    }

    constructor (config: Config, lockedBefore: nat, ghost callers: nat)
      requires config.Valid()
      ensures Valid() && this.config == config && baseline == lockedBefore
      ensures Init(config, lockedBefore, Now()) && |threads| == callers
    {
      this.config := config;
      baseline := lockedBefore;
      root, base, enabled, lockedVm := Leaf, 0, false, lockedBefore;
      threads := seq(callers, _ => Idle);
      new;
      InitHolds(config, lockedBefore, Now());
    }

    /** Charges or refunds pages; a process that is exiting has no counter left to change. */
    method AdjustLockedVm(pages: nat, incr: bool, exiting: bool) returns (ok: bool)
      modifies this`lockedVm
      ensures ok == (incr && !exiting ==> config.mayExceed || old(lockedVm) + pages <= config.limit)
      ensures lockedVm == if !ok || exiting then old(lockedVm)
                          else if incr then old(lockedVm) + pages
                          else Refunded(old(lockedVm), pages)
    {
      if exiting {
        return true;
      }
      if incr {
        ok := lockedVm + pages <= config.limit || config.mayExceed;
        if ok {
          lockedVm := lockedVm + pages;
        }
      } else {
        ok := true;
        var n := pages;
        if n > lockedVm {
          n := lockedVm;
        }
        lockedVm := lockedVm - n;
      }
    }

    /** Gives back what a running call holds. */
    method UnpinPages(length: nat, ghost t: nat, ghost was: State, ghost run: seq<Step>) returns (ghost steps: seq<Step>)
      requires Valid() && t < |threads| && (threads[t] == Charged(length) || threads[t] == Unmapped(length))
      requires Reaches(config, was, run, Now())
      modifies this`lockedVm, this`threads
      ensures Valid() && threads == old(threads)[t := Idle]
      ensures lockedVm == old(lockedVm) - Pages(length)
      ensures Reaches(config, was, steps, Now())
    {
      ghost var before := Now();
      ThreadUpdate(threads, t, Idle);
      StepKeeps(config, baseline, before, Refund(t));
      ReachesMore(config, was, run, before, Refund(t));
      steps := run + [Refund(t)];
      var done := AdjustLockedVm(Pages(length), false, false);
      threads := threads[t := Idle];
      assert Now() == Do(config, before, Refund(t));
    }

    method PinPages(length: nat, tableAllocated: bool, pin: Pin, ghost t: nat)
      returns (status: Status, ghost steps: seq<Step>)
      requires Valid() && t < |threads| && threads[t].Idle? && 0 < length
      modifies this`lockedVm, this`threads
      ensures Valid() && Reaches(config, old(Now()), steps, Now())
      ensures status == Ok <==>
        && MayCharge(config, old(lockedVm), Pages(length)) && tableAllocated
        && pin.Pinned? && |pin.frames| == Pages(length)
      ensures if status == Ok
              then threads == old(threads)[t := Charged(length)] && lockedVm == old(lockedVm) + Pages(length)
              else Now() == old(Now())
      ensures status != Ok ==> status == Fail(MapError(true, true, config.mayExceed || old(lockedVm) + length / PAGE_SIZE <= config.limit,
        tableAllocated, pin, length / PAGE_SIZE, true))
    {
      ghost var was := Now();
      steps := [];
      var charged := AdjustLockedVm(Pages(length), true, false);
      if !charged {
        return Fail(ENOMEM), steps;
      }
      threads := threads[t := Charged(length)];
      StepKeeps(config, baseline, was, Charge(t, length));
      ReachesMore(config, was, steps, was, Charge(t, length));
      steps := steps + [Charge(t, length)];
      assert Now() == Do(config, was, Charge(t, length));
      status :=
        if !tableAllocated then Fail(ENOMEM)
        else match pin
             case PinFailed(errno) => Fail(errno)
             case Pinned(frames) => if |frames| != Pages(length) then Fail(EFAULT) else Ok;
      if status != Ok {
        steps := UnpinPages(length, t, was, steps);
        assert Now() == was;
      }
    }

    /** Maps user memory. The environment decides the allocations, the pinned frames and the
        bus address, which overlaps nothing mapped. Every failure restores everything. */
    method MapRegion(userAddr: nat, length: nat, accessOk: bool, nodeAllocated: bool, tableAllocated: bool,
                     pin: Pin, dma: Option<nat>, ghost t: nat)
      returns (status: Status, iova: nat, ghost steps: seq<Step>)
      requires Valid() && t < |threads| && threads[t].Idle? && userAddr < UINT64 && length < UINT64
      requires dma.Some? && 0 < length ==> Free(Now(), Region(dma.value, length, false))
      modifies this`root, this`lockedVm, this`threads
      ensures Valid() && Reaches(config, old(Now()), steps, Now())
      ensures status == Ok <==>
        && userAddr % 0x1000 == 0 && length % 0x1000 == 0 && length > 0 && userAddr + length < UINT64
        && accessOk && nodeAllocated && tableAllocated
        && (config.mayExceed || old(lockedVm) + length / PAGE_SIZE <= config.limit)
        && pin.Pinned? && |pin.frames| == length / PAGE_SIZE && Contiguous(pin.frames, ToInt32(|pin.frames|))
        && dma.Some?
      ensures if status == Ok
              then dma == Some(iova)
                   && Now() == old(Now()).(regions := Insert(old(Regions(root)), Region(iova, length, false)),
                                           locked := old(lockedVm) + length / PAGE_SIZE)
              else Now() == old(Now())
      ensures status != Ok ==> status == Fail(MapError(AcceptsInput(userAddr, length) && accessOk, nodeAllocated,
        config.mayExceed || old(lockedVm) + length / PAGE_SIZE <= config.limit, tableAllocated, pin, length / PAGE_SIZE, PinnedInRow(pin)))
    {
      iova, steps := 0, [];
      NoWrap(userAddr, length);
      if !AcceptsInput(userAddr, length) || !accessOk {
        return Fail(EINVAL), iova, steps;
      }
      if !nodeAllocated {
        return Fail(ENOMEM), iova, steps;
      }
      ghost var was := Now();
      status, steps := PinPages(length, tableAllocated, pin, t);
      if status != Ok {
        return status, iova, steps;
      }
      if dma.Some? {
        FreeStays(was, Now(), Region(dma.value, length, false), t);
      }
      status, iova, steps := MapPinned(length, pin.frames, dma, t, was, steps);
      assert threads == was.threads;
    }

    /** Maps pages already pinned, if they are contiguous. */
    method MapPinned(length: nat, frames: seq<nat>, dma: Option<nat>, ghost t: nat, ghost was: State, ghost run: seq<Step>)
      returns (status: Status, iova: nat, ghost steps: seq<Step>)
      requires Valid() && t < |threads| && threads[t] == Charged(length)
      requires dma.Some? ==> Free(Now(), Region(dma.value, length, false))
      requires Reaches(config, was, run, Now())
      modifies this`root, this`lockedVm, this`threads
      ensures Valid() && Reaches(config, was, steps, Now()) && threads == old(threads)[t := Idle]
      ensures status == Ok <==> Contiguous(frames, ToInt32(|frames|)) && dma.Some?
      ensures if status == Ok
              then dma == Some(iova) && lockedVm == old(lockedVm)
                   && Regions(root) == Insert(old(Regions(root)), Region(iova, length, false))
              else root == old(root) && lockedVm == old(lockedVm) - Pages(length)
      ensures status != Ok ==> status == Fail(if Contiguous(frames, ToInt32(|frames|)) then EFAULT else EINVAL)
    {
      iova := 0;
      var contiguous := CheckContinuous(frames);
      if !contiguous || dma == None {
        steps := UnpinPages(length, t, was, run);
        return Fail(if !contiguous then EINVAL else EFAULT), iova, steps;
      }
      iova := dma.value;
      status, steps := AddRegion(iova, length, t, was, run);
    }

    /** The locked end of a map call. */
    method AddRegion(iova: nat, length: nat, ghost t: nat, ghost was: State, ghost run: seq<Step>)
      returns (status: Status, ghost steps: seq<Step>)
      requires Valid() && t < |threads| && threads[t] == Charged(length)
      requires Free(Now(), Region(iova, length, false)) && Reaches(config, was, run, Now())
      modifies this`root, this`threads
      ensures Valid() && Reaches(config, was, steps, Now())
      ensures status == Ok && threads == old(threads)[t := Idle]
      ensures Regions(root) == Insert(old(Regions(root)), Region(iova, length, false))
    {
      var region := Region(iova, length, false);
      ghost var mapped := Do(config, Now(), MapDma(t, iova));
      steps := MappedThenPublished(config, baseline, was, run, Now(), t, iova);
      AddIsInsert(root, region);
      match Add(root, region)
      case Some(tree) =>
        root := tree;
        threads := threads[t := Idle];
        status := Ok;
        assert Now() == Do(config, mapped, Publish(t));
    }

    /** The locked start of an unmap call. */
    method TakeRegion(iova: nat, ghost t: nat) returns (status: Status, region: Region)
      requires Valid() && t < |threads| && threads[t].Idle? && iova < UINT64
      modifies this`root, this`threads
      ensures Valid()
      ensures match Search(old(Regions(root)), iova, 0)
              case None => status == Fail(EINVAL)
              case Some(r) => if r.inUse then status == Fail(EBUSY) else status == Ok && region == r
      ensures if status == Ok
              then Can(config, old(Now()), Take(t, iova)) && Now() == Do(config, old(Now()), Take(t, iova))
              else Now() == old(Now())
    {
      region := Region(0, 0, false);
      var found := Find(root, iova, 0);
      if found == None {
        return Fail(EINVAL), region;
      }
      region := found.value;
      if region.inUse {
        return Fail(EBUSY), region;
      }
      StepKeeps(config, baseline, Now(), Take(t, iova));
      ghost var after := Do(config, Now(), Take(t, iova));
      RemoveIsWithout(root, iova);
      root := Remove(root, iova);
      threads := threads[t := Removed(region)];
      status := Ok;
      assert Now() == after;
    }

    /** Ends the DMA mapping of a region taken out of the tree: from here on its bus
        addresses may be handed out again. */
    ghost method UnmapPage(region: Region, t: nat, was: State, run: seq<Step>) returns (steps: seq<Step>)
      requires Valid() && t < |threads| && threads[t] == Removed(region) && Reaches(config, was, run, Now())
      modifies this`threads
      ensures Valid() && threads == old(threads)[t := Unmapped(region.length)] && Reaches(config, was, steps, Now())
    {
      var before := Now();
      StepKeeps(config, baseline, before, UnmapDma(t));
      ReachesMore(config, was, run, before, UnmapDma(t));
      steps := run + [UnmapDma(t)];
      threads := threads[t := Unmapped(region.length)];
      assert Now() == Do(config, before, UnmapDma(t));
    }

    /** Refuses a region that does not exist or is in use, and changes nothing then. */
    method UnmapRegion(iova: nat, ghost t: nat) returns (status: Status, ghost steps: seq<Step>)
      requires Valid() && t < |threads| && threads[t].Idle? && iova < UINT64
      modifies this`root, this`lockedVm, this`threads
      ensures Valid() && Reaches(config, old(Now()), steps, Now())
      ensures match Search(old(Regions(root)), iova, 0)
              case None => status == Fail(EINVAL) && Now() == old(Now())
              case Some(r) =>
                if r.inUse then status == Fail(EBUSY) && Now() == old(Now())
                else
                  && status == Ok && Regions(root) == Without(old(Regions(root)), iova)
                  && lockedVm + r.length / PAGE_SIZE == old(lockedVm)
                  && threads == old(threads) && base == old(base) && enabled == old(enabled)
    {
      ghost var was := Now();
      steps := [];
      var region;
      status, region := TakeRegion(iova, t);
      if status != Ok {
        return;
      }
      ReachesMore(config, was, steps, was, Take(t, iova));
      steps := UnmapPage(region, t, was, steps + [Take(t, iova)]);
      steps := UnpinPages(region.length, t, was, steps);
      assert threads == was.threads;
    }

    /** Sets or clears the base register. */
    method SetAddr(iova: nat) returns (status: Status)
      requires Valid() && config.hasUmsg && iova < UINT64
      modifies this`root, this`base
      ensures Valid() && (status, Now()) == SetBase(config, old(Now()), iova)
      ensures SetRule(config, old(Now()), iova, status, Now())
    {
      SetMeetsRule(config, baseline, Now(), iova);
      ghost var after := SetBase(config, Now(), iova).1;
      SetBaseKeeps(config, baseline, Now(), iova);
      if enabled {
        return Fail(EIO);
      }
      if iova != 0 {
        status := PointBase(iova);
      } else {
        ClearSucceeds(config, baseline, Now());
        status := ClearBase();
      }
      assert Now() == after;
    }

    method PointBase(iova: nat) returns (status: Status)
      requires Sorted(Regions(root)) && config.Valid() && 0 < iova < UINT64
      modifies this`root, this`base
      ensures (status, Now()) == Point(config, old(Now()), iova)
    {
      var size := config.numUmsgs * PAGE_SIZE;
      if iova % PAGE_SIZE != 0 {
        return Fail(EINVAL);
      }
      NoWrap(iova, size);
      if Wraps(iova, size) {
        return Fail(EINVAL);
      }
      var found := Find(root, iova, size);
      if found == None {
        return Fail(EINVAL);
      }
      SetInUseIsMark(root, found.value.iova, true);
      base := BaseField(iova);
      root := SetInUse(root, found.value.iova, true);
      status := Ok;
      assert Now() == Point(config, old(Now()), iova).1;
    }

    method ClearBase() returns (status: Status)
      requires Sorted(Regions(root)) && config.Valid() && base < BUS_LIMIT
      modifies this`root, this`base
      ensures (status, Now()) == Clear(config, old(Now()))
    {
      var size := config.numUmsgs * PAGE_SIZE;
      if base == 0 {
        return Ok;
      }
      NoWrap(base, size);
      if Wraps(base, size) {
        return Fail(EINVAL);
      }
      var found := Find(root, base, size);
      if found == None {
        return Fail(ENODEV);
      }
      SetInUseIsMark(root, found.value.iova, false);
      base := 0;
      root := SetInUse(root, found.value.iova, false);
      status := Ok;
      assert Now() == Clear(config, old(Now())).1;
    }

    method UmsgEnable(enable: bool) returns (status: Status)
      requires Valid() && config.hasUmsg
      modifies this`enabled
      ensures Valid() && (status, Now()) == Enable(old(Now()), enable)
      ensures status == Ok <==> !enable || old(base) != 0
      ensures status == Ok ==> Now() == old(Now()).(enabled := enable)
      ensures status != Ok ==> status == Fail(EIO) && Now() == old(Now())
    {
      StepKeeps(config, baseline, Now(), Switch(enable));
      if enable && base == 0 {
        return Fail(EIO);
      }
      if enabled != enable {
        enabled := enable;
      }
      status := Ok;
    }

    method UmsgHalt()
      requires Valid()
      modifies this`root, this`base, this`enabled
      ensures Valid() && base == 0 && !enabled && Now() == Halt(config, old(Now()))
    {
      HaltKeeps(config, baseline, Now());
      if config.hasUmsg {
        var off := UmsgEnable(false);
        var cleared := SetAddr(0);
      }
    }

    /** Takes every region out of the tree, ends its DMA mapping unless it is at bus address 0,
        and gives its pages back; the engine is already halted. */
    method DestroyRegions(exiting: bool) returns (ghost events: seq<Event>)
      requires Sorted(Regions(root)) && base == 0 && !enabled
      modifies this`root, this`lockedVm
      ensures root == Leaf
      ensures lockedVm == if exiting then old(lockedVm) else RefundedAll(old(lockedVm), old(Regions(root)))
      ensures Regained(events) == old(Regions(root))
      ensures UnmappedFirst(events) <==> NoneAtZero(old(Regions(root)))
    {
      ghost var all := Regions(root);
      events := [];
      while root.Node?
        invariant Sorted(Regions(root)) && Tearing(events, Regions(root), all)
        invariant if exiting then lockedVm == old(lockedVm)
                  else RefundedAll(lockedVm, Regions(root)) == RefundedAll(old(lockedVm), all)
        decreases |Regions(root)|
      {
        events := DestroyFirst(exiting, events, Regions(root), all);
      }
      TearingEnds(events, all);
    }

    method DestroyFirst(exiting: bool, ghost before: seq<Event>, ghost rest: seq<Region>, ghost all: seq<Region>)
      returns (ghost events: seq<Event>)
      requires root.Node? && Regions(root) == rest && Sorted(rest) && Tearing(before, rest, all)
      modifies this`root, this`lockedVm
      ensures rest != [] && Regions(root) == rest[1..] && Sorted(rest[1..]) && Tearing(events, rest[1..], all)
      ensures lockedVm == if exiting then old(lockedVm) else Refunded(old(lockedVm), Pages(rest[0].length))
    {
      var first := First(root);
      DropFirst(rest);
      RemoveIsWithout(root, first.iova);
      root := Remove(root, first.iova);
      events := before;
      if first.iova != 0 {
        events := events + [DmaUnmapped(first)];
      }
      events := events + [Unpinned(first)];
      assert events == before + RegionTeardown(first);
      var done := AdjustLockedVm(Pages(first.length), false, exiting);
    }

    /** The last close of the device, by a live process or by one that is exiting. */
    method Release(exiting: bool) returns (ghost events: seq<Event>)
      requires Valid() && forall t :: 0 <= t < |threads| ==> threads[t].Idle?
      modifies this`root, this`base, this`enabled, this`lockedVm
      ensures root == Leaf && base == 0 && !enabled
      ensures exiting ==> lockedVm == old(lockedVm)
      ensures !exiting ==> Valid() && Init(config, baseline, Now()) && Now() == Do(config, old(Now()), Step.Release)
      ensures Regained(events) == Halt(config, old(Now())).regions
      ensures UnmappedFirst(events) <==> NoneAtZero(old(Regions(root)))
    {
      ghost var was := Now();
      ReleaseKeeps(config, baseline, was);
      HaltKeeps(config, baseline, was);
      HaltKeepsZero(config, was);
      UmsgHalt();
      IdlePages(threads);
      RefundAll(lockedVm, Regions(root));
      RefundAll(lockedVm, was.regions);
      events := DestroyRegions(exiting);
    }
  }

  /** The leftmost region. */
  function First(t: Tree): (r: Region)
    requires t.Node?
    ensures Regions(t) != [] && r == Regions(t)[0]
  {
    if t.left.Node? then First(t.left) else t.region
  }

  lemma {:induction false} DropFirst(rs: seq<Region>)
    requires Sorted(rs) && rs != []
    ensures Without(rs, rs[0].iova) == rs[1..]
  {
    WithoutAbsent(rs[1..], rs[0].iova);
  }
}
