/** Partial reconfiguration of a port: a credit-paced push against an engine that drains
    on its own, inside the manager's load sequence, with the port held in reset. */
module PartialReconfig {
  import opened Bits
  import opened Common
  import opened PrTypes
  import PortReset

  /** The management engine with one port. */
  class Fme {
    const bandwidth: nat
    var port: PortReset.Port
    var holders: multiset<nat>  // threads between a disable and its enable of the port
    // The reconfiguration engine.
    var credit: nat             // pushes the engine can take
    var delivered: seq<byte>
    ghost var polls: nat        // reads of the credit field
    ghost var timeouts: nat     // waits for the engine that ran out
    ghost var exposed: nat      // pushes made while the port was out of reset
    ghost var astray: nat       // pushes made to another port's region, or without a request, or in reset
    ghost var pulses: nat       // times the engine was put in reset
    ghost var reports: seq<nat> // what the error register held whenever it was read
    var regionId: nat
    var prReset: bool
    var startRequest: bool
    var pushComplete: bool
    // The manager.
    var prError: nat
    var state: ManagerState
    ghost var passed: seq<ManagerState>  // the states gone through

    ghost function Now(): PortReset.State
      reads this
    {
      PortReset.State(port, holders)
    }

    ghost predicate Valid()
      reads this
    {
      PortReset.Inv(Now())
    }

    // --- The port ---

    method PortDisable(t: nat)
      requires Valid()
      modifies this`port, this`holders
      ensures Valid() && Now() == PortReset.Do(old(Now()), PortReset.Hold(t))
      ensures port.softReset
    {
      PortReset.StepKeeps(Now(), PortReset.Hold(t));
      var held := port.disableCount != 0;
      port := port.(disableCount := port.disableCount + 1);
      if !held {
        port := port.(softReset := true);
      }
      holders := holders + multiset{t};
      assert t in holders;
    }

    method PortEnable(t: nat)
      requires Valid() && t in holders
      modifies this`port, this`holders
      ensures Valid() && port.disableCount + 1 == old(port.disableCount)
      ensures PortReset.Can(old(Now()), PortReset.Drop(t)) && Now() == PortReset.Do(old(Now()), PortReset.Drop(t))
    {
      assert |holders| > 0;
      PortReset.StepKeeps(Now(), PortReset.Drop(t));
      port := port.(disableCount := port.disableCount - 1);
      if port.disableCount == 0 {
        port := port.(softReset := false);
      }
      holders := holders - multiset{t};
    }

    /** Anything the rest of the system may do between two of this thread's actions: the
        engine returns credits; other threads reset, disable and enable the port. */
    method Interfere(me: nat)
      requires Valid()
      modifies this`port, this`holders, this`credit
      ensures Valid() && holders[me] == old(holders[me]) && credit >= old(credit)
      ensures me in holders ==> port.softReset
    {
      var returned: int := *;
      if returned > 0 {
        credit := credit + returned;
      }
      var n: int := *;
      var i := 0;
      while i < n
        invariant Valid() && holders[me] == old(holders[me]) && credit >= old(credit)
      {
        var t: nat := *;
        var reset: bool := *;
        if reset {
          PortReset.StepKeeps(Now(), PortReset.Pulse(t));
          PortDisable(t);
          PortEnable(t);
        } else if t != me {
          var drop: bool := *;
          if drop && t in holders {
            PortEnable(t);
          } else {
            PortDisable(t);
          }
        }
        i := i + 1;
      }
    }

    // --- The engine ---

    /** The credit field of the status register. */
    method ReadCredit(me: nat) returns (c: nat)
      requires Valid()
      modifies this`port, this`holders, this`credit, this`polls
      ensures Valid() && holders[me] == old(holders[me]) && credit >= old(credit) && c <= credit
      ensures polls == old(polls) + 1
    {
      Interfere(me);
      c := credit % CREDIT_FIELD;
      polls := polls + 1;
    }

    method SetEngineReset(on: bool)
      modifies this`prReset, this`pulses
      ensures prReset == on && pulses == old(pulses) + (if on then 1 else 0)
    {
      prReset := on;
      pulses := pulses + (if on then 1 else 0);
    }

    /** One push meant for a port; it takes a credit and leaves one over. */
    method Push(chunk: seq<byte>, ghost portId: nat)
      requires |chunk| == bandwidth && 1 < credit
      modifies this`credit, this`delivered, this`exposed, this`astray
      ensures astray == old(astray) + (if regionId == portId && startRequest && !prReset then 0 else 1)
      ensures credit == old(credit) - 1 && delivered == old(delivered) + chunk
      ensures exposed == old(exposed) + (if port.softReset then 0 else 1)
    {
      credit := credit - 1;
      delivered := delivered + chunk;
      exposed := exposed + (if port.softReset then 0 else 1);
      astray := astray + (if regionId == portId && startRequest && !prReset then 0 else 1);
    }

    /** A push by a thread that holds the port, after anything the others may do. */
    method PushHeld(chunk: seq<byte>, me: nat, known: nat, ghost portId: nat)
      requires Valid() && me in holders && |chunk| == bandwidth && 1 < known <= credit
      modifies this`port, this`holders, this`credit, this`delivered, this`exposed, this`astray
      ensures Valid() && holders[me] == old(holders[me]) && credit >= known - 1
      ensures regionId == portId && startRequest && !prReset ==> astray == old(astray)
      ensures delivered == old(delivered) + chunk && exposed == old(exposed)
    {
      Interfere(me);
      Push(chunk, portId);
    }

    /** Reads the error register, 0 for no error, and clears it. */
    method HandleError() returns (error: nat)
      modifies this`reports
      ensures reports == old(reports) + [error]
    {
      error := *;
      reports := reports + [error];
    }

    method WaitField(me: nat) returns (ok: bool)
      requires Valid()
      modifies this`port, this`holders, this`credit, this`timeouts
      ensures Valid() && holders[me] == old(holders[me])
      ensures timeouts == old(timeouts) + (if ok then 0 else 1)
    {
      Interfere(me);
      ok := *;
      if !ok {
        timeouts := timeouts + 1;
      }
    }

    /** `present` says whether the card has the feature, `partial` whether the request is for
        a partial reconfiguration. */
    method PrWriteInit(me: nat, present: bool, partial: bool) returns (status: Status)
      requires Valid()
      modifies this`port, this`holders, this`credit, this`timeouts, this`prReset, this`pulses, this`reports
      ensures Valid() && holders[me] == old(holders[me])
      ensures timeouts >= old(timeouts)
      ensures status == if !present || !partial then Fail(EINVAL) else if timeouts == old(timeouts) then Ok else Fail(ETIMEDOUT)
      ensures status == Ok ==> !prReset && |reports| == |old(reports)| + 1
      ensures pulses == old(pulses) + (if present && partial then 1 else 0)
    {
      if !present || !partial {
        return Fail(EINVAL);
      }
      SetEngineReset(true);
      var acked := WaitField(me);
      if !acked {
        return Fail(ETIMEDOUT);
      }
      SetEngineReset(false);
      var idle := WaitField(me);
      if !idle {
        return Fail(ETIMEDOUT);
      }
      var oldError := HandleError();
      status := Ok;
    }

    /** Waits until more than one credit is known, within what is left of the time limit. */
    method AwaitCredit(me: nat, cached: nat, delay: nat) returns (ok: bool, known: nat, waited: nat)
      requires Valid() && me in holders && cached <= credit && delay <= PR_WAIT_TIMEOUT + 1
      modifies this`port, this`holders, this`credit, this`polls
      ensures Valid() && holders[me] == old(holders[me]) && port.softReset
      ensures known <= credit && delay <= waited <= PR_WAIT_TIMEOUT + 2
      ensures if ok then known > 1 && waited <= PR_WAIT_TIMEOUT + 1 else known <= 1 && waited == PR_WAIT_TIMEOUT + 2
      ensures polls - old(polls) == waited - delay - (if ok then 0 else 1)
    {
      known, waited := cached, delay;
      assert holders != multiset{};
      while known <= 1
        invariant Valid() && holders[me] == old(holders[me]) && port.softReset
        invariant polls - old(polls) == waited - delay
        invariant known <= credit && delay <= waited <= PR_WAIT_TIMEOUT + 1
        decreases PR_WAIT_TIMEOUT + 2 - waited
      {
        waited := waited + 1;
        if waited - 1 > PR_WAIT_TIMEOUT {
          return false, known, waited;
        }
        known := ReadCredit(me);
        assert holders != multiset{};
      }
      ok := true;
    }

    /** Pushes a buffer. A prefix of it is delivered in order, all of it on success; no push
        finds fewer than two credits or the port out of reset. */
    method PrWrite(buf: seq<byte>, me: nat, portId: nat) returns (status: Status, ghost pushed: nat)
      requires Valid() && me in holders
      modifies this`port, this`holders, this`credit, this`polls, this`delivered, this`exposed, this`astray
      modifies this`regionId, this`startRequest, this`prError, this`reports
      ensures Valid() && holders[me] == old(holders[me])
      ensures regionId == portId && startRequest && (!prReset ==> astray == old(astray))
      ensures pushed <= |buf| && delivered == old(delivered) + buf[..pushed]
      ensures exposed == old(exposed)
      ensures status == Ok <==> pushed == |buf|
      ensures status == Fail(EINVAL) ==> 0 < |buf| - pushed < bandwidth
      ensures status == Fail(EFAULT) ==> bandwidth != 4 && bandwidth != 64 && pushed == 0
      ensures status == Fail(EIO) ==> prError != 0
      ensures status == Fail(ETIMEDOUT) ==> prError == 0
      ensures status == Fail(EIO) || status == Fail(ETIMEDOUT) ==> reports == old(reports) + [prError]
      ensures status == Ok ==> prError == old(prError)
      ensures polls - old(polls) <= PR_WAIT_TIMEOUT + 2
      ensures status in {Fail(EIO), Fail(ETIMEDOUT)} ==> polls - old(polls) == PR_WAIT_TIMEOUT + 2
      ensures status in {Ok, Fail(EINVAL), Fail(EFAULT), Fail(EIO), Fail(ETIMEDOUT)}
      ensures bandwidth == 4 || bandwidth == 64 ==> Whole(pushed, bandwidth)
    {
      regionId := portId;
      startRequest := true;
      var cached := ReadCredit(me);
      status, pushed := PushAll(buf, me, portId, cached);
    }

    /** The push loop, once the request is started; one read of the credit has been made. */
    method PushAll(buf: seq<byte>, me: nat, ghost portId: nat, known: nat) returns (status: Status, ghost pushed: nat)
      requires Valid() && me in holders && known <= credit && regionId == portId && startRequest
      modifies this`port, this`holders, this`credit, this`polls, this`delivered, this`exposed, this`astray, this`prError, this`reports
      ensures Valid() && holders[me] == old(holders[me])
      ensures !prReset ==> astray == old(astray)
      ensures pushed <= |buf| && delivered == old(delivered) + buf[..pushed]
      ensures exposed == old(exposed)
      ensures status == Ok <==> pushed == |buf|
      ensures status == Fail(EINVAL) ==> 0 < |buf| - pushed < bandwidth
      ensures status == Fail(EFAULT) ==> bandwidth != 4 && bandwidth != 64 && pushed == 0
      ensures status == Fail(EIO) ==> prError != 0
      ensures status == Fail(ETIMEDOUT) ==> prError == 0
      ensures status == Fail(EIO) || status == Fail(ETIMEDOUT) ==> reports == old(reports) + [prError]
      ensures status == Ok ==> prError == old(prError)
      ensures polls - old(polls) <= PR_WAIT_TIMEOUT + 1
      ensures status in {Fail(EIO), Fail(ETIMEDOUT)} ==> polls - old(polls) == PR_WAIT_TIMEOUT + 1
      ensures status in {Ok, Fail(EINVAL), Fail(EFAULT), Fail(EIO), Fail(ETIMEDOUT)}
      ensures bandwidth == 4 || bandwidth == 64 ==> Whole(pushed, bandwidth)
    {
      pushed := 0;
      assert buf[..0] == [];
      var cached: nat := known;
      var at: nat, delay: nat := 0, 0;
      while at < |buf|
        invariant Valid() && holders[me] == old(holders[me])
        invariant at == pushed <= |buf| && delivered == old(delivered) + buf[..at]
        invariant exposed == old(exposed) && (!prReset ==> astray == old(astray))
        invariant reports == old(reports) && prError == old(prError)
        invariant polls - old(polls) == delay
        invariant cached <= credit && delay <= PR_WAIT_TIMEOUT + 1
        invariant at > 0 ==> bandwidth == 4 || bandwidth == 64
        invariant bandwidth == 4 || bandwidth == 64 ==> Whole(at, bandwidth)
        decreases |buf| - at
      {
        var ok;
        ok, cached, delay := AwaitCredit(me, cached, delay);
        if !ok {
          prError := HandleError();
          return Fail(if prError != 0 then EIO else ETIMEDOUT), pushed;
        }
        if |buf| - at >= bandwidth {
          if bandwidth != 4 && bandwidth != 64 {
            return Fail(EFAULT), pushed;
          }
          PushHeld(buf[at..at + bandwidth], me, cached, portId);
          assert buf[..at + bandwidth] == buf[..at] + buf[at..at + bandwidth];
          at := at + bandwidth;
          pushed := at;
          cached := cached - 1;
        } else {
          return Fail(EINVAL), pushed;
        }
      }
      status := Ok;
      assert buf[..at] == buf;
    }

    method PrWriteComplete(me: nat) returns (status: Status)
      requires Valid()
      modifies this`port, this`holders, this`credit, this`timeouts, this`pushComplete, this`startRequest, this`prError, this`reports
      ensures Valid() && holders[me] == old(holders[me]) && pushComplete
      ensures status == Ok ==> !startRequest && prError == 0
      ensures status == Fail(EIO) ==> !startRequest && prError != 0
      ensures if status == Fail(ETIMEDOUT) then prError == old(prError) else reports == old(reports) + [prError]
      ensures EngineAnswer(status)
      ensures status == Fail(ETIMEDOUT) <==> timeouts > old(timeouts)
      ensures timeouts >= old(timeouts)
    {
      pushComplete := true;
      var cleared := WaitField(me);
      if !cleared {
        return Fail(ETIMEDOUT);
      }
      startRequest := false;  // the engine cleared the request
      prError := HandleError();
      status := if prError != 0 then Fail(EIO) else Ok;
    }

    // --- The manager ---

    method Enter(next: ManagerState)
      modifies this`state, this`passed
      ensures state == next && passed == old(passed) + [next]
    {
      state := next;
      passed := passed + [next];
    }

    /** Steps the manager through a load. `stages` holds the results of the steps taken. */
    method BufLoad(buf: seq<byte>, me: nat, portId: nat, present: bool, partial: bool)
      returns (status: Status, ghost stages: seq<Status>)
      requires Valid() && me in holders
      modifies this`port, this`holders, this`credit, this`polls, this`timeouts, this`delivered, this`regionId, this`prReset
      modifies this`exposed, this`astray, this`pulses, this`reports
      modifies this`startRequest, this`pushComplete, this`prError, this`state, this`passed
      ensures Valid() && holders[me] == old(holders[me])
      ensures Staged(stages, status, state)
      ensures passed == old(passed) + [WriteInit, Write, WriteComplete][..|stages|] + [state]
      ensures state == Operating ==> !prReset && !startRequest && pushComplete && prError == 0 && Reported(reports, prError)
      ensures |stages| == 1 ==> delivered == old(delivered)
      ensures exposed == old(exposed) && astray == old(astray)
      ensures |stages| > 1 ==> regionId == portId
      ensures pulses == old(pulses) + (if present && partial then 1 else 0)
      ensures |stages| == 3 ==> delivered == old(delivered) + buf
      ensures !present || !partial ==> stages == [Fail(EINVAL)]
      ensures present && partial && Whole(|buf|, bandwidth) ==>
        && EngineAnswer(status)
        && (status == Fail(EIO) ==> prError != 0 && Reported(reports, prError))
        && (status != Fail(EIO) && old(prError) == 0 ==> prError == 0)
        && (status == Fail(ETIMEDOUT) ==> timeouts > old(timeouts) || polls - old(polls) == PR_WAIT_TIMEOUT + 2)
    {
      Enter(WriteInit);
      status := PrWriteInit(me, present, partial);
      stages := [status];
      if status != Ok {
        Enter(WriteInitErr);
        return;
      }
      status := WriteStage(buf, me, portId);
      stages := [Ok, status];
      if status != Ok {
        return;
      }
      status := CompleteStage(me);
      stages := [Ok, Ok, status];
    }

    method WriteStage(buf: seq<byte>, me: nat, portId: nat) returns (status: Status)
      requires Valid() && me in holders
      modifies this`port, this`holders, this`credit, this`polls, this`delivered, this`exposed, this`astray
      modifies this`regionId, this`startRequest, this`prError, this`reports, this`state, this`passed
      ensures Valid() && holders[me] == old(holders[me]) && exposed == old(exposed)
      ensures regionId == portId && (!prReset ==> astray == old(astray))
      ensures state == if status == Ok then Write else WriteErr
      ensures passed == old(passed) + [Write] + (if status == Ok then [] else [WriteErr])
      ensures status == Ok ==> delivered == old(delivered) + buf
      ensures Whole(|buf|, bandwidth) ==> EngineAnswer(status)
      ensures status == Fail(EIO) ==> prError != 0 && Reported(reports, prError)
      ensures status == Ok || status == Fail(ETIMEDOUT) ==> prError == if status == Ok then old(prError) else 0
      ensures status == Fail(ETIMEDOUT) ==> polls - old(polls) == PR_WAIT_TIMEOUT + 2
    {
      Enter(Write);
      ghost var pushed;
      status, pushed := PrWrite(buf, me, portId);
      assert status == Ok ==> buf[..pushed] == buf;
      if status != Ok {
        Enter(WriteErr);
        if Whole(|buf|, bandwidth) {
          NoTail(|buf|, pushed, bandwidth);
        }
      }
    }

    method CompleteStage(me: nat) returns (status: Status)
      requires Valid()
      modifies this`port, this`holders, this`credit, this`timeouts, this`pushComplete, this`startRequest, this`prError, this`reports, this`state, this`passed
      ensures Valid() && holders[me] == old(holders[me])
      ensures state == if status == Ok then Operating else WriteCompleteErr
      ensures passed == old(passed) + [WriteComplete, state]
      ensures status == Ok ==> !startRequest && pushComplete && prError == 0 && Reported(reports, prError)
      ensures EngineAnswer(status)
      ensures status == Fail(EIO) ==> prError != 0 && Reported(reports, prError)
      ensures status == Fail(ETIMEDOUT) ==> timeouts > old(timeouts) && prError == old(prError)
    {
      Enter(WriteComplete);
      status := PrWriteComplete(me);
      Enter(if status == Ok then Operating else WriteCompleteErr);
    }

    /** Reconfigures a port with a user's bitstream. On success the engine got the bitstream
        padded with zeros, in order; in every case no push was made with the port out of
        reset and this thread's hold on the port is over. */
    method Reconfigure(data: seq<byte>, me: nat, portId: nat, numPorts: nat, flags: nat,
                       readable: bool, bufAllocated: bool, copied: bool, managerFree: bool)
      returns (status: Status, ghost stages: seq<Status>)
      requires Valid() && |data| < UINT32 && (bandwidth == 4 || bandwidth == 64)
      // An empty allocation fails.
      requires Align(|data|, bandwidth) == 0 ==> !bufAllocated
      modifies this`port, this`holders, this`credit, this`polls, this`timeouts, this`delivered, this`regionId, this`prReset
      modifies this`exposed, this`astray, this`pulses, this`reports
      modifies this`startRequest, this`pushComplete, this`prError, this`state, this`passed
      ensures Valid() && holders[me] == old(holders[me])
      ensures exposed == old(exposed) && astray == old(astray)
      ensures status == Ok ==> regionId == portId && pulses == old(pulses) + 1
      ensures stages != [] ==> Staged(stages, status, state)
      ensures status == Ok ==> stages != []
      ensures var length := Align(|data|, bandwidth);
        status == Ok ==> |data| <= length && delivered == old(delivered) + (data + Zeros(length - |data|))
      ensures stages == [] ==> delivered == old(delivered) && state == old(state) && Now() == old(Now())
      ensures stages != [] && status != Ok ==> state != Operating
      ensures stages == [] <==> flags != 0 || portId >= numPorts || !readable || !bufAllocated || !copied || !managerFree
      ensures stages == [] ==> status == Fail(Refusal(flags != 0 || portId >= numPorts, readable, bufAllocated, copied))
      ensures stages != [] ==> EngineAnswer(status) && (status == Fail(EIO) <==> prError != 0)
    {
      stages := [];
      if flags != 0 || portId >= numPorts {
        return Fail(EINVAL), stages;
      }
      if !readable {
        return Fail(EFAULT), stages;
      }
      var length := Align(|data|, bandwidth);
      if !bufAllocated {
        return Fail(ENOMEM), stages;
      }
      AlignMeaning(|data|, bandwidth);
      if !copied {
        return Fail(EFAULT), stages;
      }
      if !managerFree {
        return Fail(ENODEV), stages;
      }
      status, stages := Load(data + Zeros(length - |data|), me, portId);
    }

    /** Loads whole pushes with the port held in reset. */
    method Load(buf: seq<byte>, me: nat, portId: nat) returns (status: Status, ghost stages: seq<Status>)
      requires Valid() && Whole(|buf|, bandwidth)
      modifies this`port, this`holders, this`credit, this`polls, this`timeouts, this`delivered, this`regionId, this`prReset
      modifies this`exposed, this`astray, this`pulses, this`reports
      modifies this`startRequest, this`pushComplete, this`prError, this`state, this`passed
      ensures Valid() && holders[me] == old(holders[me])
      ensures exposed == old(exposed) && astray == old(astray)
      ensures Staged(stages, status, state)
      ensures status == Ok ==> regionId == portId && pulses == old(pulses) + 1
      ensures status == Ok ==> delivered == old(delivered) + buf
      ensures EngineAnswer(status) && (status == Fail(EIO) <==> prError != 0)
    {
      prError := 0;
      PortDisable(me);
      status, stages := BufLoad(buf, me, portId, true, true);
      PortEnable(me);
    }
  }
}
