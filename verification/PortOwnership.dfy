/** Which ports of the card the host driver owns: released and re-assigned ports, virtual
    functions, and open device files, over every interleaving of the locked steps. */
module PortOwnership {

  datatype Port = Port(id: nat, registered: bool, excl: bool, openCount: int, unplug: bool)

  /** The driver lock, and how far its holder is inside a release or an assign. */
  datatype Lock =
    | Unlocked
    | Detaching(k: nat)  // port claimed, still registered
    | Attaching(k: nat)  // registered again, still claimed
    | Attached(k: nat)   // claim given up, not yet counted

  /** `vf[id]` is the access-control bit of port `id`; `files[k]` counts user files open
      on the k-th port of the list. */
  datatype State = State(ports: seq<Port>, files: seq<nat>, vf: seq<bool>, released: int, lock: Lock)

  datatype Step =
    | DetachBegin(k: nat)
    | DetachEnd
    | AttachBegin(k: nat)
    | AttachUseEnd
    | AttachEnd
    | Sriov(numVfs: nat, enabled: bool)
    | Open(k: nat, excl: bool)
    | Close(k: nat)
    | Unplug(k: nat)

  // --- Claims on one port ---

  predicate MayClaim(p: Port, excl: bool) {
    !p.unplug && if excl then p.openCount == 0 else !p.excl
  }

  function Claim(p: Port, excl: bool): Port {
    p.(excl := p.excl || excl, openCount := p.openCount + 1)
  }

  function UseEnd(p: Port): Port {
    p.(excl := false, openCount := p.openCount - 1)
  }

  // --- Virtual functions ---

  /** Number of unregistered ports before position k. */
  function Rank(ports: seq<Port>, k: nat): nat
    requires k <= |ports|
  {
    if k == 0 then 0 else Rank(ports, k - 1) + (if ports[k - 1].registered then 0 else 1)
  }

  ghost predicate Unowned(ports: seq<Port>, k: nat, id: nat) {
    k < |ports| && ports[k].id == id && !ports[k].registered
  }

  /** A successful configure gives the first `numVfs` unregistered ports to virtual
      functions; configuring none, or failing to enable, takes every one back. */
  ghost predicate VfAfter(ports: seq<Port>, before: bool, numVfs: nat, enabled: bool, id: nat) {
    if numVfs == 0 || !enabled then before && !exists k: nat :: Unowned(ports, k, id)
    else before || exists k: nat :: Unowned(ports, k, id) && Rank(ports, k) < numVfs
  }

  ghost function Configured(ports: seq<Port>, vf: seq<bool>, numVfs: nat, enabled: bool): (r: seq<bool>)
    ensures |r| == |vf| && forall id :: 0 <= id < |vf| ==> r[id] == VfAfter(ports, vf[id], numVfs, enabled, id)
  {
    seq(|vf|, id requires 0 <= id < |vf| => VfAfter(ports, vf[id], numVfs, enabled, id))
  }

  // --- Steps ---

  ghost predicate Can(s: State, step: Step) {
    match step
    case DetachBegin(k) => s.lock == Unlocked && k < |s.ports| && s.ports[k].registered && MayClaim(s.ports[k], true)
    case DetachEnd => s.lock.Detaching? && s.lock.k < |s.ports|
    case AttachBegin(k) =>
      s.lock == Unlocked && k < |s.ports| && !s.ports[k].registered && s.ports[k].id < |s.vf| && !s.vf[s.ports[k].id]
    case AttachUseEnd => s.lock.Attaching? && s.lock.k < |s.ports|
    case AttachEnd => s.lock.Attached?
    case Sriov(numVfs, _) => s.lock == Unlocked && numVfs <= s.released
    case Open(k, excl) => k < |s.ports| && k < |s.files| && MayClaim(s.ports[k], excl)
    case Close(k) => k < |s.ports| && k < |s.files| && 0 < s.files[k]
    case Unplug(k) => s.lock == Unlocked && k < |s.ports|
  }

  ghost function Do(s: State, step: Step): State
    requires Can(s, step)
  {
    match step
    case DetachBegin(k) => s.(ports := s.ports[k := Claim(s.ports[k], true)], lock := Detaching(k))
    case DetachEnd =>
      var k := s.lock.k;
      s.(ports := s.ports[k := s.ports[k].(registered := false)], released := s.released + 1, lock := Unlocked)
    case AttachBegin(k) => s.(ports := s.ports[k := s.ports[k].(registered := true)], lock := Attaching(k))
    case AttachUseEnd =>
      var k := s.lock.k;
      s.(ports := s.ports[k := UseEnd(s.ports[k])], lock := Attached(k))
    case AttachEnd => s.(released := s.released - 1, lock := Unlocked)
    case Sriov(numVfs, enabled) => s.(vf := Configured(s.ports, s.vf, numVfs, enabled))
    case Open(k, excl) =>
      s.(ports := s.ports[k := Claim(s.ports[k], excl)], files := s.files[k := s.files[k] + 1])
    case Close(k) => s.(ports := s.ports[k := UseEnd(s.ports[k])], files := s.files[k := s.files[k] - 1])
    case Unplug(k) => s.(ports := s.ports[k := s.ports[k].(unplug := true)])
  }

  ghost predicate Reaches(s: State, steps: seq<Step>, t: State)
    decreases |steps|
  {
    if steps == [] then s == t else Can(s, steps[0]) && Reaches(Do(s, steps[0]), steps[1..], t)
  }

  ghost predicate Shape(ports: seq<Port>, files: seq<nat>, vf: seq<bool>) {
    && |files| == |ports|
    && (forall k :: 0 <= k < |ports| ==> ports[k].id < |vf|)
    && (forall j, k :: 0 <= j < k < |ports| ==> ports[j].id != ports[k].id)
  }

  /** Every port found at start-up is registered, closed and the host's. */
  ghost predicate Init(s: State) {
    && Shape(s.ports, s.files, s.vf) && s.released == 0 && s.lock == Unlocked
    && (forall k :: 0 <= k < |s.ports| ==>
          s.ports[k].registered && !s.ports[k].excl && s.ports[k].openCount == 0 && s.files[k] == 0)
    && (forall id :: 0 <= id < |s.vf| ==> !s.vf[id])
  }

  // --- Invariant ---

  /** Whether the driver itself holds a claim on the k-th port. */
  predicate DriverHolds(p: Port, lock: Lock, k: nat) {
    !p.registered || lock == Detaching(k) || lock == Attaching(k)
  }

  predicate PortOk(p: Port, files: nat, lock: Lock, k: nat) {
    && p.openCount == files + (if DriverHolds(p, lock, k) then 1 else 0)
    && (p.excl ==> p.openCount == 1)
    && (DriverHolds(p, lock, k) ==> p.excl)
    && (lock == Attached(k) || lock == Detaching(k) || lock == Attaching(k) ==> p.registered)
  }

  ghost predicate VfOk(ports: seq<Port>, vf: seq<bool>) {
    forall id :: 0 <= id < |vf| && vf[id] ==> exists k: nat :: Unowned(ports, k, id)
  }

  ghost predicate Inv(s: State) {
    && Shape(s.ports, s.files, s.vf)
    && (s.lock != Unlocked ==> s.lock.k < |s.ports|)
    && (forall k :: 0 <= k < |s.ports| ==> PortOk(s.ports[k], s.files[k], s.lock, k))
    && VfOk(s.ports, s.vf)
    && s.released == Rank(s.ports, |s.ports|) + (if s.lock.Attaching? || s.lock.Attached? then 1 else 0)
  }

  // --- Counting ---

  lemma {:induction false} RankUpdate(ports: seq<Port>, j: nat, p: Port, k: nat)
    requires j < |ports| && k <= |ports|
    ensures Rank(ports[j := p], k) == Rank(ports, k) +
      (if j < k then (if p.registered then 0 else 1) - (if ports[j].registered then 0 else 1) else 0)
  {
    if k == 0 {
    } else {
      RankUpdate(ports, j, p, k - 1);
    }
  }

  lemma {:induction false} RankGrows(ports: seq<Port>, j: nat, k: nat)
    requires j <= k <= |ports|
    ensures Rank(ports, j) <= Rank(ports, k)
  {
    if j == k {
    } else {
      RankGrows(ports, j, k - 1);
    }
  }

  // --- Each step keeps the invariant ---

  /** Changing anything of a port but whether it is registered leaves the owners alone. */
  lemma {:induction false} OwnersStay(ports: seq<Port>, vf: seq<bool>, j: nat, p: Port)
    requires VfOk(ports, vf) && j < |ports| && p.id == ports[j].id
    requires p.registered ==> ports[j].registered || (p.id < |vf| ==> !vf[p.id])
    requires forall i, k :: 0 <= i < k < |ports| ==> ports[i].id != ports[k].id
    ensures VfOk(ports[j := p], vf)
  {
    var after := ports[j := p];
    forall id | 0 <= id < |vf| && vf[id] ensures exists k: nat :: Unowned(after, k, id) {
      var k: nat :| Unowned(ports, k, id);
      assert Unowned(after, k, id);
    }
  }

  lemma {:induction false} PortsStayOk(s: State, step: Step, k: nat)
    requires Inv(s) && Can(s, step) && !step.Sriov? && !step.AttachEnd?
    requires k == if step.DetachEnd? || step.AttachUseEnd? then s.lock.k else step.k
    ensures forall j :: 0 <= j < |s.ports| ==> PortOk(Do(s, step).ports[j], Do(s, step).files[j], Do(s, step).lock, j)
  {
    var t := Do(s, step);
    assert PortOk(s.ports[k], s.files[k], s.lock, k);
    forall j | 0 <= j < |t.ports| ensures PortOk(t.ports[j], t.files[j], t.lock, j) {
      assert PortOk(s.ports[j], s.files[j], s.lock, j);
    }
  }

  lemma {:induction false} PortStepKeeps(s: State, step: Step)
    requires Inv(s) && Can(s, step) && !step.Sriov?
    ensures Inv(Do(s, step))
  {
    if !step.AttachEnd? {
      var k := if step.DetachEnd? || step.AttachUseEnd? then s.lock.k else step.k;
      var t := Do(s, step);
      RankUpdate(s.ports, k, t.ports[k], |s.ports|);
      OwnersStay(s.ports, s.vf, k, t.ports[k]);
      PortsStayOk(s, step, k);
      assert PortOk(s.ports[k], s.files[k], s.lock, k);
    }
  }

  lemma {:induction false} SriovKeeps(s: State, step: Step)
    requires Inv(s) && Can(s, step) && step.Sriov?
    ensures Inv(Do(s, step))
  {
    var t := Do(s, step);
    forall id | 0 <= id < |t.vf| && t.vf[id] ensures exists k: nat :: Unowned(t.ports, k, id) {
      if !s.vf[id] {
        var k: nat :| Unowned(s.ports, k, id) && Rank(s.ports, k) < step.numVfs;
      }
    }
  }

  lemma {:induction false} RunKeeps(s: State, steps: seq<Step>, t: State)
    requires Inv(s) && Reaches(s, steps, t)
    ensures Inv(t)
    decreases |steps|
  {
    if steps == [] {
    } else {
      if steps[0].Sriov? {
        SriovKeeps(s, steps[0]);
      } else {
        PortStepKeeps(s, steps[0]);
      }
      RunKeeps(Do(s, steps[0]), steps[1..], t);
    }
  }

  lemma {:induction false} AllRegistered(ports: seq<Port>, k: nat)
    requires k <= |ports| && forall j :: 0 <= j < |ports| ==> ports[j].registered
    ensures Rank(ports, k) == 0
  {
    if k == 0 {
    } else {
      AllRegistered(ports, k - 1);
    }
  }

  lemma {:induction false} InitHolds(s: State)
    requires Init(s)
    ensures Inv(s)
  {
    AllRegistered(s.ports, |s.ports|);
  }

  // --- Over every run ---

  /** Whenever the driver lock is free: the counter is the number of unregistered ports,
      each held exclusively with one claim and no user file; a virtual function's port is
      never registered; and a registered port's claims are exactly its open files. */
  lemma {:induction false} OwnershipHolds(s: State, steps: seq<Step>, t: State)
    requires Init(s) && Reaches(s, steps, t) && t.lock == Unlocked
    ensures t.released == Rank(t.ports, |t.ports|)
    ensures |t.files| == |t.ports|
    ensures forall k :: 0 <= k < |t.ports| && !t.ports[k].registered ==>
      t.ports[k].excl && t.ports[k].openCount == 1 && t.files[k] == 0
    ensures forall k :: 0 <= k < |t.ports| && t.ports[k].registered ==> t.ports[k].openCount == t.files[k]
    ensures forall k :: 0 <= k < |t.ports| && t.ports[k].id < |t.vf| && t.vf[t.ports[k].id] ==> !t.ports[k].registered
  {
    InitHolds(s);
    RunKeeps(s, steps, t);
    forall k | 0 <= k < |t.ports| ensures PortOk(t.ports[k], t.files[k], t.lock, k) {}
    forall k | 0 <= k < |t.ports| && t.ports[k].id < |t.vf| && t.vf[t.ports[k].id] ensures !t.ports[k].registered {
      var j: nat :| Unowned(t.ports, j, t.ports[k].id);
    }
  }

  /** At any moment, even in the middle of a release or an assign, a port the driver
      claims, has unregistered or has given to a virtual function cannot be opened. */
  lemma {:induction false} ReleasedPortStaysClosed(s: State, steps: seq<Step>, t: State, k: nat, excl: bool)
    requires Init(s) && Reaches(s, steps, t) && k < |t.ports|
    requires DriverHolds(t.ports[k], t.lock, k)
    ensures !Can(t, Open(k, excl)) && !Can(t, Close(k)) && t.ports[k].excl && t.ports[k].openCount == 1
  {
    InitHolds(s);
    RunKeeps(s, steps, t);
    assert PortOk(t.ports[k], t.files[k], t.lock, k);
  }

  /** Configuring no functions, or failing to enable them, leaves every port the host's. */
  lemma {:induction false} TakesEveryPortBack(s: State, steps: seq<Step>, t: State, numVfs: nat, enabled: bool)
    requires Init(s) && Reaches(s, steps, t) && Can(t, Sriov(numVfs, enabled)) && (numVfs == 0 || !enabled)
    ensures forall id :: 0 <= id < |t.vf| ==> !Do(t, Sriov(numVfs, enabled)).vf[id]
  {
    InitHolds(s);
    RunKeeps(s, steps, t);
  }

  /** How many of the first k ports belong to virtual functions. */
  function VfCount(ports: seq<Port>, vf: seq<bool>, k: nat): nat
    requires k <= |ports| && forall j :: 0 <= j < |ports| ==> ports[j].id < |vf|
  {
    if k == 0 then 0 else VfCount(ports, vf, k - 1) + (if vf[ports[k - 1].id] then 1 else 0)
  }

  lemma {:induction false} CountConfigured(ports: seq<Port>, files: seq<nat>, vf: seq<bool>, numVfs: nat, k: nat)
    requires Shape(ports, files, vf) && 0 < numVfs && k <= |ports| && forall id :: 0 <= id < |vf| ==> !vf[id]
    ensures VfCount(ports, Configured(ports, vf, numVfs, true), k) ==
      if Rank(ports, k) <= numVfs then Rank(ports, k) else numVfs
  {
    if k == 0 {
    } else {
      CountConfigured(ports, files, vf, numVfs, k - 1);
      var after, id := Configured(ports, vf, numVfs, true), ports[k - 1].id;
      if Unowned(ports, k - 1, id) && Rank(ports, k - 1) < numVfs {
        assert after[id];
      } else if after[id] {
        var j: nat :| Unowned(ports, j, id) && Rank(ports, j) < numVfs;
        assert j == k - 1;
      }
    }
  }

  /** From a state without virtual functions, a successful configure hands out exactly the
      number asked for: the counter never promises more ports than the list holds. */
  lemma {:induction false} HandsOutExactly(s: State, steps: seq<Step>, t: State, numVfs: nat)
    requires Init(s) && Reaches(s, steps, t) && Can(t, Sriov(numVfs, true)) && 0 < numVfs
    requires forall id :: 0 <= id < |t.vf| ==> !t.vf[id]
    requires forall j :: 0 <= j < |t.ports| ==> t.ports[j].id < |t.vf|
    ensures VfCount(t.ports, Do(t, Sriov(numVfs, true)).vf, |t.ports|) == numVfs
  {
    InitHolds(s);
    RunKeeps(s, steps, t);
    CountConfigured(t.ports, t.files, t.vf, numVfs, |t.ports|);
  }

  // --- Opening ---

  /** In every reachable state a port the driver does not hold can be opened exclusively exactly
      when no file is open on it, and shared unless one file has it exclusively; an unplugged
      port cannot be opened at all. */
  lemma {:induction false} OpenAllowedIff(s: State, steps: seq<Step>, t: State, k: nat)
    requires Init(s) && Reaches(s, steps, t) && k < |t.ports| && k < |t.files| && !DriverHolds(t.ports[k], t.lock, k)
    ensures Can(t, Open(k, true)) <==> !t.ports[k].unplug && t.files[k] == 0
    ensures t.files[k] != 1 ==> (Can(t, Open(k, false)) <==> !t.ports[k].unplug)
    ensures t.files[k] == 1 ==> (Can(t, Open(k, false)) <==> !t.ports[k].unplug && !t.ports[k].excl)
  {
    InitHolds(s);
    RunKeeps(s, steps, t);
    assert PortOk(t.ports[k], t.files[k], t.lock, k);
  }

  /** A file that opened a port exclusively keeps every other out until it is closed; shared
      files do not keep each other out. */
  lemma {:induction false} OpensShareOrExclude(s: State, steps: seq<Step>, t: State, k: nat, excl: bool)
    requires Init(s) && Reaches(s, steps, t) && Can(t, Open(k, excl)) && !DriverHolds(t.ports[k], t.lock, k)
    ensures var after := Do(t, Open(k, excl));
      && after.files[k] == t.files[k] + 1 && !Can(after, Open(k, true))
      && (Can(after, Open(k, false)) <==> !excl)
      && Can(after, Close(k)) && (t.files[k] == 0 ==> Do(after, Close(k)) == t)
  {
    InitHolds(s);
    RunKeeps(s, steps, t);
    assert PortOk(t.ports[k], t.files[k], t.lock, k);
    var after := Do(t, Open(k, excl));
    if t.files[k] == 0 {
      assert Do(after, Close(k)).ports == t.ports && Do(after, Close(k)).files == t.files;
    }
  }

  /** Once unplugged, a port stays closed to every new file. */
  lemma {:induction false} UnplugIsFinal(s: State, steps: seq<Step>, t: State, k: nat)
    requires Reaches(s, steps, t) && k < |s.ports| && s.ports[k].unplug
    ensures k < |t.ports| && t.ports[k].unplug && forall excl :: !Can(t, Open(k, excl))
    decreases |steps|
  {
    if steps == [] {
    } else {
      UnplugIsFinal(Do(s, steps[0]), steps[1..], t, k);
    }
  }
}
