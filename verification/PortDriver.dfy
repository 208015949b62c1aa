/** The driver calls that release, assign, share and open ports. */
module PortDriver {
  import opened PortOwnership

  datatype Errno = EINVAL | EBUSY | ENOMEM | Other(code: nat)
  datatype Status = Ok(value: nat) | Fail(errno: Errno)

  class Driver {
    var ports: seq<Port>
    var vf: seq<bool>
    var released: int
    ghost var files: seq<nat>

    ghost function Now(): State
      reads this
    {
      State(ports, files, vf, released, Unlocked)
    }

    ghost predicate Valid()
      reads this
    {
      Inv(Now())
    }

    /** Position of the port with this id, or the end of the list. */
    method Lookup(id: nat) returns (k: nat)
      ensures k <= |ports| && (k < |ports| ==> ports[k].id == id)
      ensures k == |ports| ==> forall j :: 0 <= j < |ports| ==> ports[j].id != id
    {
      k := 0;
      while k < |ports|
        invariant k <= |ports| && forall j :: 0 <= j < k ==> ports[j].id != id
      {
        if ports[k].id == id {
          return;
        }
        k := k + 1;
      }
    }

    method DetachPort(id: nat) returns (status: Status, ghost k: nat)
      requires Valid()
      modifies this`ports, this`released
      ensures Valid() && k <= |ports|
      ensures if k == |ports|
              then status == Fail(EINVAL) && forall j :: 0 <= j < |ports| ==> ports[j].id != id
              else ports[k].id == id
                   && status == if Can(old(Now()), DetachBegin(k)) then Ok(0) else Fail(EBUSY)
      ensures status.Ok? ==> Now() == Do(Do(old(Now()), DetachBegin(k)), DetachEnd)
      ensures status == Fail(EBUSY) ==> !old(ports)[k].registered || old(ports)[k].openCount != 0 || old(ports)[k].unplug
      ensures status.Ok? ==>
        && old(ports)[k].registered && old(ports)[k].openCount == 0 && !old(ports)[k].unplug
        && ports == old(ports)[k := old(ports)[k].(registered := false, excl := true, openCount := 1)]
        && released == old(released) + 1
      ensures !status.Ok? ==> Now() == old(Now())
    {
      var i := Lookup(id);
      k := i;
      if i == |ports| {
        return Fail(EINVAL), k;
      }
      if !ports[i].registered {
        return Fail(EBUSY), k;
      }
      if ports[i].openCount != 0 || ports[i].unplug {
        return Fail(EBUSY), k;
      }
      ghost var before := Now();
      PortStepKeeps(before, DetachBegin(i));
      ghost var claimed := Do(before, DetachBegin(i));
      PortStepKeeps(claimed, DetachEnd);
      ports := ports[i := ports[i].(excl := true, openCount := ports[i].openCount + 1)];
      ports := ports[i := ports[i].(registered := false)];
      released := released + 1;
      status := Ok(0);
      assert Now() == Do(claimed, DetachEnd);
    }

    method AttachPort(id: nat, added: bool) returns (status: Status, ghost k: nat)
      requires Valid() && id < |vf|
      modifies this`ports, this`released
      ensures Valid() && k <= |ports|
      ensures status.Ok? ==> k < |ports| && ports[k].id == id && added
      ensures if status.Ok?
              then Can(old(Now()), AttachBegin(k))
                   && Now() == Do(Do(Do(old(Now()), AttachBegin(k)), AttachUseEnd), AttachEnd)
              else Now() == old(Now())
      ensures status.Ok? ==>
        && ports == old(ports)[k := old(ports)[k].(registered := true, excl := false, openCount := old(ports)[k].openCount - 1)]
        && released == old(released) - 1
      ensures status == Fail(ENOMEM) ==> !added
      ensures status.Ok? || status in {Fail(EINVAL), Fail(EBUSY), Fail(ENOMEM)}
      ensures status == Fail(EINVAL) <==> !vf[id] && forall j :: 0 <= j < |ports| ==> ports[j].id != id
      ensures status == Fail(EBUSY) <==> vf[id] || exists j :: 0 <= j < |ports| && ports[j].id == id && old(ports)[j].registered
    {
      k := |ports|;
      if vf[id] {
        return Fail(EBUSY), k;
      }
      var i := Lookup(id);
      k := i;
      if i == |ports| {
        return Fail(EINVAL), k;
      }
      if ports[i].registered {
        return Fail(EBUSY), k;
      }
      if !added {
        return Fail(ENOMEM), k;
      }
      Register(i);
      status := Ok(0);
    }

    /** Registers a released port again and gives up the driver's claim. */
    method Register(i: nat)
      requires Valid() && Can(Now(), AttachBegin(i))
      modifies this`ports, this`released
      ensures Valid() && Now() == Do(Do(Do(old(Now()), AttachBegin(i)), AttachUseEnd), AttachEnd)
      ensures |ports| == |old(ports)| && forall j :: 0 <= j < |ports| ==> ports[j].id == old(ports)[j].id
    {
      ghost var before := Now();
      PortStepKeeps(before, AttachBegin(i));
      ghost var again := Do(before, AttachBegin(i));
      PortStepKeeps(again, AttachUseEnd);
      ghost var given := Do(again, AttachUseEnd);
      PortStepKeeps(given, AttachEnd);
      ports := ports[i := ports[i].(registered := true)];
      ports := ports[i := UseEnd(ports[i])];
      released := released - 1;
      assert Now() == Do(given, AttachEnd);
    }

    /** Releases or assigns a port on behalf of user space. */
    method ConfigPort(id: nat, flags: nat, release: bool, added: bool) returns (status: Status)
      requires Valid()
      modifies this`ports, this`released
      ensures Valid()
      ensures flags != 0 || id >= |vf| ==> status == Fail(EINVAL)
      ensures !status.Ok? ==> Now() == old(Now())
      ensures status.Ok? ==> released == old(released) + (if release then 1 else -1)
    {
      if flags != 0 || id >= |vf| {
        return Fail(EINVAL);
      }
      ghost var k;
      if release {
        status, k := DetachPort(id);
      } else {
        status, k := AttachPort(id, added);
      }
    }

    /** Hands the first `numVfs` unregistered ports to virtual functions, or takes all back. */
    method SriovConfigure(numVfs: nat, enabled: bool, code: nat) returns (status: Status)
      requires Valid()
      modifies this`vf
      ensures Valid()
      ensures status == if released < numVfs then Fail(EBUSY)
                        else if numVfs != 0 && !enabled then Fail(Other(code))
                        else Ok(numVfs)
      ensures if released < numVfs then Now() == old(Now())
              else Can(old(Now()), Sriov(numVfs, enabled)) && Now() == Do(old(Now()), Sriov(numVfs, enabled))
    {
      if released < numVfs {
        return Fail(EBUSY);
      }
      ghost var before := Now();
      SriovKeeps(before, Sriov(numVfs, enabled));
      if numVfs == 0 {
        TakeBack();
      } else {
        HandOut(numVfs);
        if !enabled {
          TakeBack();
          AllBack(before, vf, numVfs);
          return Fail(Other(code));
        }
      }
      assert vf == Configured(ports, before.vf, numVfs, enabled);
      status := Ok(numVfs);
    }

    method HandOut(numVfs: nat)
      requires Shape(ports, files, vf) && 0 < numVfs <= Rank(ports, |ports|)
      modifies this`vf
      ensures vf == Configured(ports, old(vf), numVfs, true)
    {
      var given, i := 0, 0;
      while i < |ports|
        invariant i <= |ports| && |vf| == |old(vf)| && given == Rank(ports, i) < numVfs
        invariant forall id :: 0 <= id < |vf| ==>
          (vf[id] <==> old(vf)[id] || exists k: nat :: k < i && Unowned(ports, k, id))
      {
        if !ports[i].registered {
          ghost var was := vf;
          vf := vf[ports[i].id := true];
          GivenOneMore(ports, old(vf), was, vf, i);
          given := given + 1;
          if given == numVfs {
            FirstRanks(ports, i, numVfs);
            assert vf == Configured(ports, old(vf), numVfs, true);
            return;
          }
        }
        i := i + 1;
      }
      assert false;
    }

    method TakeBack()
      requires Shape(ports, files, vf)
      modifies this`vf
      ensures vf == Configured(ports, old(vf), 0, true)
    {
      var i := 0;
      while i < |ports|
        invariant i <= |ports| && |vf| == |old(vf)|
        invariant forall id :: 0 <= id < |vf| ==>
          (vf[id] <==> old(vf)[id] && !exists k: nat :: k < i && Unowned(ports, k, id))
      {
        if !ports[i].registered {
          ghost var was := vf;
          vf := vf[ports[i].id := false];
          TakenOneMore(ports, old(vf), was, vf, i);
        }
        i := i + 1;
      }
      assert vf == Configured(ports, old(vf), 0, true);
    }

    method OpenPort(k: nat, excl: bool, pidAllocated: bool) returns (status: Status)
      requires Valid() && k < |ports|
      modifies this`ports, this`files
      ensures Valid()
      ensures status == Fail(EBUSY) <==>
        old(ports)[k].unplug || (if excl then old(ports)[k].openCount != 0 else old(ports)[k].excl)
      ensures status != Fail(EBUSY) ==> status == if pidAllocated then Ok(0) else Fail(ENOMEM)
      ensures status.Ok? ==> Can(old(Now()), Open(k, excl)) && Now() == Do(old(Now()), Open(k, excl))
      ensures status.Ok? ==>
        && ports == old(ports)[k := old(ports)[k].(excl := excl, openCount := old(ports)[k].openCount + 1)]
        && files == old(files)[k := old(files)[k] + 1]
      ensures !status.Ok? ==> Now() == old(Now())
    {
      if ports[k].unplug || (if excl then ports[k].openCount != 0 else ports[k].excl) {
        return Fail(EBUSY);
      }
      ghost var before := Now();
      PortStepKeeps(before, Open(k, excl));
      assert PortOk(before.ports[k], before.files[k], Unlocked, k);
      ports := ports[k := Claim(ports[k], excl)];
      if !pidAllocated {
        ports := ports[k := UseEnd(ports[k])];
        assert Now() == before;
        return Fail(ENOMEM);
      }
      files := files[k := files[k] + 1];
      assert Now() == Do(before, Open(k, excl));
      status := Ok(0);
    }

    method ClosePort(k: nat)
      requires Valid() && k < |ports| && 0 < files[k]
      modifies this`ports, this`files
      ensures Valid() && Now() == Do(old(Now()), Close(k))
      ensures ports == old(ports)[k := old(ports)[k].(excl := false, openCount := old(ports)[k].openCount - 1)]
      ensures files == old(files)[k := old(files)[k] - 1]
    {
      ghost var before := Now();
      PortStepKeeps(before, Close(k));
      ports := ports[k := UseEnd(ports[k])];
      files := files[k := files[k] - 1];
      assert Now() == Do(before, Close(k));
    }
  }

  lemma {:induction false} GivenOneMore(ports: seq<Port>, start: seq<bool>, was: seq<bool>, now: seq<bool>, i: nat)
    requires i < |ports| && !ports[i].registered && ports[i].id < |was| == |start|
    requires now == was[ports[i].id := true]
    requires forall id :: 0 <= id < |was| ==> (was[id] <==> start[id] || exists k: nat :: k < i && Unowned(ports, k, id))
    ensures forall id :: 0 <= id < |now| ==> (now[id] <==> start[id] || exists k: nat :: k < i + 1 && Unowned(ports, k, id))
  {
    forall id | 0 <= id < |now| ensures now[id] <==> start[id] || exists k: nat :: k < i + 1 && Unowned(ports, k, id) {
      if id == ports[i].id {
        assert Unowned(ports, i, id);
      }
    }
  }

  lemma {:induction false} TakenOneMore(ports: seq<Port>, start: seq<bool>, was: seq<bool>, now: seq<bool>, i: nat)
    requires i < |ports| && !ports[i].registered && ports[i].id < |was| == |start|
    requires now == was[ports[i].id := false]
    requires forall id :: 0 <= id < |was| ==> (was[id] <==> start[id] && !exists k: nat :: k < i && Unowned(ports, k, id))
    ensures forall id :: 0 <= id < |now| ==> (now[id] <==> start[id] && !exists k: nat :: k < i + 1 && Unowned(ports, k, id))
  {
    forall id | 0 <= id < |now| ensures now[id] <==> start[id] && !exists k: nat :: k < i + 1 && Unowned(ports, k, id) {
      if id == ports[i].id {
        assert Unowned(ports, i, id);
      }
    }
  }

  /** When the i-th port is the last one given out, those before it are the low ranks. */
  lemma {:induction false} FirstRanks(ports: seq<Port>, i: nat, numVfs: nat)
    requires i < |ports| && !ports[i].registered && Rank(ports, i) + 1 == numVfs
    ensures forall k: nat :: k < |ports| && !ports[k].registered ==> (Rank(ports, k) < numVfs <==> k < i + 1)
  {
    forall k: nat | k < |ports| && !ports[k].registered ensures Rank(ports, k) < numVfs <==> k < i + 1 {
      if k <= i {
        RankGrows(ports, k, i);
      } else {
        RankGrows(ports, i + 1, k);
      }
    }
  }

  /** Handing out and taking back is taking back. */
  lemma {:induction false} AllBack(s: State, vf: seq<bool>, numVfs: nat)
    requires Inv(s) && 0 < numVfs
    requires vf == Configured(s.ports, Configured(s.ports, s.vf, numVfs, true), 0, true)
    ensures vf == Configured(s.ports, s.vf, numVfs, false)
  {
    forall id | 0 <= id < |vf| ensures vf[id] == VfAfter(s.ports, s.vf[id], numVfs, false, id) {}
  }
}
