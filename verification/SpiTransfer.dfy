/** The polled transfer of the XSPI flasher: it fills the transmit FIFO while the
    transmitter is inhibited, lets it run empty, drains the receive FIFO, and
    repeats until every byte has gone out and every reply has come back. */
module SpiTransfer {
  import opened NorFlash
  import opened SpiWire
  import opened SpiController

  /** Fills the transmit FIFO until it is full or all n bytes have been queued.  A refill does
      not look at the error bit before its first byte. */
  method Fill(spi: Controller, send: array<byte>, start: nat, n: nat, first: bool) returns (ok: bool, sent: nat)
    requires spi.Valid() && spi.inhibited && spi.rx == [] && spi.tx == []
    requires start <= n <= send.Length && spi.queued == send[..start]
    modifies spi`tx, spi`queued, spi`faults
    ensures spi.Valid() && start <= sent <= n && spi.queued == send[..sent]
    ensures ok ==> sent == n || sent == start + spi.depth
    ensures sent <= start + spi.depth && (!ok ==> spi.fault.Anything?)
    ensures spi.faults >= old(spi.faults) && (!ok ==> spi.faults > old(spi.faults))
    ensures ok ==> spi.faults <= old(spi.faults) + (if first then 0 else 1)
  {
    ok, sent := true, start;
    var status := spi.ReadStatus();
    if status.error && first {
      return false, sent;
    }
    while !status.txFull && sent < n
      invariant spi.Valid() && start <= sent <= n && spi.queued == send[..sent]
      invariant |spi.tx| == sent - start && old(spi.faults) <= spi.faults <= old(spi.faults) + (if first then 0 else 1)
      invariant status.txFull == (|spi.tx| == spi.depth)
      decreases n - sent
    {
      ok := spi.WriteData(send[sent]);
      if !ok {
        return;
      }
      assert send[..sent] + [send[sent]] == send[..sent + 1];
      sent := sent + 1;
      status := spi.ReadStatus();
      if status.error {
        return false, sent;
      }
    }
  }

  /** Polls until the transmit FIFO has run empty. */
  method RunEmpty(spi: Controller)
    requires spi.Valid() && spi.selection.Slave? && !spi.inhibited
    modifies spi`tx, spi`rx, spi`shifted, spi`overflowed, spi`stalls, spi`faults
    ensures spi.Valid() && spi.tx == [] && |spi.rx| == old(|spi.rx| + |spi.tx|)
    ensures spi.faults >= old(spi.faults)
  {
    var status := spi.PollStatus();
    while !status.txEmpty
      invariant spi.Valid() && |spi.rx| + |spi.tx| == old(|spi.rx| + |spi.tx|)
      invariant status.txEmpty == (spi.tx == []) && spi.faults >= old(spi.faults)
      decreases |spi.tx| + spi.stalls
    {
      status := spi.PollStatus();
    }
  }

  /** Reads one reply, storing it if there is a buffer, and the status after it. */
  method ReadReply(spi: Controller, recv: array?<byte>, got: nat) returns (ok: bool, empty: bool)
    requires spi.Valid() && spi.selection.Slave? && spi.inhibited && spi.rx != [] && |spi.received| == got
    requires recv != null ==> got < recv.Length && recv[..got] == spi.received
    modifies spi`rx, spi`received, spi`faults, spi`fault, recv
    ensures spi.Valid()
    ensures ok ==> spi.rx == old(spi.rx)[1..] && spi.received == old(spi.received) + [old(spi.rx)[0]] && empty == (spi.rx == [])
    ensures ok && recv != null ==> recv[..got + 1] == spi.received
    ensures recv != null ==> forall k :: got < k < recv.Length ==> recv[k] == old(recv[k])
    ensures spi.faults >= old(spi.faults) && (!ok ==> spi.faults > old(spi.faults))
    ensures FaultAfter(old(spi.fault), spi.fault, spi.chips[spi.selection.index], spi.shifted, true, ok)
  {
    empty := false;
    var b;
    ok, b := spi.ReadData();
    if !ok {
      return;
    }
    if recv != null {
      recv[got] := b;
      assert recv[..got + 1] == recv[..got] + [b];
    }
    var status := spi.ReadStatus();
    ok, empty := !status.error, status.rxEmpty;
  }

  /** Reads out the receive FIFO, storing the bytes if there is a buffer for them. */
  method Drain(spi: Controller, recv: array?<byte>, start: nat) returns (ok: bool, got: nat)
    requires spi.Valid() && spi.selection.Slave? && spi.inhibited && spi.tx == []
    requires |spi.received| == start
    requires recv != null ==> start + |spi.rx| <= recv.Length && recv[..start] == spi.received
    modifies spi`rx, spi`received, spi`faults, spi`fault, recv
    ensures spi.Valid()
    ensures ok ==> spi.rx == [] && spi.received == old(spi.received + spi.rx) && got == |spi.received|
    ensures ok && recv != null ==> got <= recv.Length && recv[..got] == spi.received
    ensures recv != null ==> forall k :: start + |old(spi.rx)| <= k < recv.Length ==> recv[k] == old(recv[k])
    ensures spi.faults >= old(spi.faults) && (!ok ==> spi.faults > old(spi.faults))
    ensures FaultAfter(old(spi.fault), spi.fault, spi.chips[spi.selection.index], spi.shifted, old(spi.rx) != [], ok)
  {
    ok, got := true, start;
    var status := spi.ReadStatus();
    var empty := status.rxEmpty;
    while !empty
      invariant spi.Valid() && spi.received + spi.rx == old(spi.received + spi.rx)
      invariant start <= got == |spi.received| && spi.faults >= old(spi.faults) && spi.fault == old(spi.fault)
      invariant start < got ==> !Strikes(spi.fault, spi.chips[spi.selection.index], spi.shifted)
      invariant recv != null ==> got + |spi.rx| <= recv.Length && recv[..got] == spi.received
      invariant recv != null ==> forall k :: got <= k < recv.Length ==> recv[k] == old(recv[k])
      invariant empty == (spi.rx == [])
      decreases |spi.rx|
    {
      assert spi.rx == [spi.rx[0]] + spi.rx[1..];
      ok, empty := ReadReply(spi, recv, got);
      if !ok {
        return;
      }
      got := got + 1;
    }
  }

  /** What was queued goes out and its replies come in. */
  method Flush(spi: Controller, recv: array?<byte>, start: nat, queued: nat) returns (ok: bool, got: nat)
    requires spi.Valid() && spi.selection.Slave? && spi.rx == [] && !spi.inhibited
    requires start < queued == |spi.queued| && |spi.received| == start
    requires recv != null ==> queued <= recv.Length && recv[..start] == spi.received
    modifies spi`tx, spi`rx, spi`shifted, spi`overflowed, spi`stalls, spi`faults, spi`fault, spi`received, spi`inhibited, recv
    ensures spi.Valid() && spi.inhibited && spi.tx == [] && spi.shifted == spi.pending + spi.queued
    ensures ok ==> spi.rx == [] && got == queued == |spi.received|
    ensures ok && recv != null ==> recv[..got] == spi.received
    ensures recv != null ==> forall k :: queued <= k < recv.Length ==> recv[k] == old(recv[k])
    ensures spi.faults >= old(spi.faults) && (!ok ==> spi.faults > old(spi.faults))
    ensures FaultAfter(old(spi.fault), spi.fault, spi.chips[spi.selection.index], spi.shifted, true, ok)
  {
    SendOut(spi, start, queued);
    ok, got := Drain(spi, recv, start);
  }

  /** Everything queued goes out, and the transmitter is stopped. */
  method SendOut(spi: Controller, start: nat, queued: nat)
    requires spi.Valid() && spi.selection.Slave? && spi.rx == [] && !spi.inhibited
    requires start < queued == |spi.queued| && |spi.received| == start
    modifies spi`tx, spi`rx, spi`shifted, spi`overflowed, spi`stalls, spi`faults, spi`inhibited
    ensures spi.Valid() && spi.inhibited && spi.tx == [] && |spi.rx| == queued - start
    ensures spi.shifted == spi.pending + spi.queued && spi.faults >= old(spi.faults)
  {
    QueuedSplit(spi.Now());
    RunEmpty(spi);
    assert spi.shifted + spi.tx == spi.shifted;
    spi.Inhibit(true);
  }

  /** Of what was queued, as many bytes wait as replies are still to come. */
  lemma {:induction false} QueuedSplit(w: Wire)
    requires Consistent(w) && w.selection.Slave?
    ensures |w.received| + |w.rx| + |w.tx| == |w.queued|
  {
    assert |w.shifted + w.tx| == |w.pending + w.queued|;
  }

  /** One round of the polling loop: what was queued goes out, its replies come in, more is queued. */
  method Round(spi: Controller, send: array<byte>, recv: array?<byte>, n: nat, start: nat, queued: nat)
      returns (ok: bool, got: nat, sent: nat)
    requires spi.Valid() && spi.selection.Slave? && spi.rx == [] && !spi.inhibited
    requires start < queued <= n <= send.Length && spi.queued == send[..queued] && |spi.received| == start
    requires recv != null ==> recv != send && n <= recv.Length && recv[..start] == spi.received
    modifies spi`tx, spi`rx, spi`shifted, spi`overflowed, spi`stalls, spi`faults, spi`fault
    modifies spi`received, spi`queued, spi`inhibited, recv
    ensures spi.Valid() && sent <= n && spi.queued == send[..sent]
    ensures ok ==> spi.rx == [] && got == queued == |spi.received|
    ensures ok ==> (queued == n && spi.tx == [] && sent == n) || (!spi.inhibited && queued < sent)
    ensures ok ==> sent == n || sent == queued + spi.depth
    ensures sent <= queued + spi.depth && spi.shifted == spi.pending + send[..queued]
    ensures ok && recv != null ==> recv[..got] == spi.received
    ensures recv != null ==> forall k :: n <= k < recv.Length ==> recv[k] == old(recv[k])
    ensures spi.faults >= old(spi.faults) && (!ok ==> spi.faults > old(spi.faults))
    ensures FaultAfter(old(spi.fault), spi.fault, spi.chips[spi.selection.index], spi.shifted, true, ok)
  {
    sent := queued;
    ok, got := Flush(spi, recv, start, queued);
    if ok && sent < n {
      ok, sent := Refill(spi, send, sent, n);
    }
  }

  /** Queues more and lets the transmitter go again. */
  method Refill(spi: Controller, send: array<byte>, start: nat, n: nat) returns (ok: bool, sent: nat)
    requires spi.Valid() && spi.inhibited && spi.rx == [] && spi.tx == []
    requires start < n <= send.Length && spi.queued == send[..start]
    modifies spi`tx, spi`queued, spi`faults, spi`inhibited
    ensures spi.Valid() && start <= sent <= n && spi.queued == send[..sent] && sent <= start + spi.depth
    ensures ok ==> !spi.inhibited && start < sent && (sent == n || sent == start + spi.depth)
    ensures spi.faults >= old(spi.faults) && (!ok ==> spi.faults > old(spi.faults) && spi.fault.Anything?)
  {
    ok, sent := Fill(spi, send, start, n, false);
    if ok {
      spi.Inhibit(false);
    }
  }

  /** The polling loop: everything goes out and every reply comes in. */
  method Exchange(spi: Controller, send: array<byte>, recv: array?<byte>, n: nat, queued: nat) returns (ok: bool)
    requires spi.Valid() && spi.selection.Slave? && spi.rx == [] && !spi.inhibited && spi.received == []
    requires queued <= n <= send.Length && spi.queued == send[..queued] && (n > 0 ==> queued > 0)
    requires queued == n || queued == spi.depth
    requires recv != null ==> recv != send && n <= recv.Length
    modifies spi`tx, spi`rx, spi`shifted, spi`overflowed, spi`stalls, spi`faults, spi`fault
    modifies spi`received, spi`queued, spi`inhibited, recv
    ensures spi.Valid()
    ensures ok ==> spi.tx == [] && spi.rx == [] && spi.shifted == spi.pending + send[..n] && |spi.received| == n
    ensures ok && recv != null ==> recv[..n] == spi.received
    ensures recv != null ==> forall k :: n <= k < recv.Length ==> recv[k] == old(recv[k])
    ensures !ok ==> CutAt(spi.shifted, spi.pending, send[..n], spi.depth)
    ensures spi.faults >= old(spi.faults) && (!ok ==> spi.faults > old(spi.faults))
    ensures n > 0 ==> AsForecast(old(spi.fault), spi.fault, spi.chips[spi.selection.index], spi.pending, send[..n], |spi.shifted|, spi.depth, ok)
  {
    ok := true;
    var got, sent := 0, queued;
    ghost var was, base, all := spi.fault, spi.pending, send[..n];
    assert Multiple(spi.depth, spi.depth);
    while got < n
      invariant Underway(spi, send, n, got, sent, was, base, all) && spi.faults >= old(spi.faults)
      invariant recv != null ==> recv[..got] == spi.received
      invariant recv != null ==> forall k :: n <= k < recv.Length ==> recv[k] == old(recv[k])
      decreases n - got
    {
      ok, got, sent := Step(spi, send, recv, n, got, sent, was, base, all);
      if !ok {
        return;
      }
    }
    assert spi.shifted + spi.tx == spi.shifted;
    if n > 0 {
      assert all[..n] == all;
      Unstruck(was, spi.chips[spi.selection.index], base, all, |spi.shifted|, spi.depth);
    }
  }

  /** Between two rounds: `got` replies are in and `sent` bytes are queued. */
  ghost predicate Underway(
      spi: Controller, send: array<byte>, n: nat, got: nat, sent: nat, was: Fault, base: seq<byte>, all: seq<byte>)
    reads spi, send
  {
    && spi.Valid() && spi.selection.Slave? && spi.rx == [] && spi.fault == was && spi.pending == base
    && got <= sent <= n <= send.Length && send[..n] == all && spi.queued == send[..sent]
    && |spi.received| == got && (if got == n then spi.tx == [] else !spi.inhibited && got < sent)
    && AtBoundary(sent, n, spi.depth) && sent <= got + spi.depth
    && (got > 0 && !was.Anything? ==> !Strikes(was, spi.chips[spi.selection.index], base + all[..got]))
  }

  /** A round, and where it leaves the transfer. */
  method Step(spi: Controller, send: array<byte>, recv: array?<byte>, n: nat, start: nat, queued: nat,
      ghost was: Fault, ghost base: seq<byte>, ghost all: seq<byte>) returns (ok: bool, got: nat, sent: nat)
    requires Underway(spi, send, n, start, queued, was, base, all) && start < n
    requires recv != null ==> recv != send && n <= recv.Length && recv[..start] == spi.received
    modifies spi`tx, spi`rx, spi`shifted, spi`overflowed, spi`stalls, spi`faults, spi`fault
    modifies spi`received, spi`queued, spi`inhibited, recv
    ensures spi.Valid() && spi.faults >= old(spi.faults) && (!ok ==> spi.faults > old(spi.faults))
    ensures ok ==> start < got && Underway(spi, send, n, got, sent, was, base, all)
    ensures ok && recv != null ==> recv[..got] == spi.received
    ensures recv != null ==> forall k :: n <= k < recv.Length ==> recv[k] == old(recv[k])
    ensures !ok ==> CutAt(spi.shifted, base, all, spi.depth)
    ensures !ok ==> AsForecast(was, spi.fault, spi.chips[spi.selection.index], base, all, |spi.shifted|, spi.depth, false)
  {
    ok, got, sent := Round(spi, send, recv, n, start, queued);
    assert send[..queued] == all[..queued];
    if !ok {
      CutThere(base, all, queued, spi.depth);
      Struck(was, spi.fault, spi.chips[spi.selection.index], base, all, start, queued, spi.depth);
    } else {
      NextBoundary(queued, sent, n, spi.depth);
    }
  }

  lemma {:induction false} NextBoundary(m: nat, next: nat, n: nat, depth: nat)
    requires depth > 0 && m <= n && AtBoundary(m, n, depth) && (next == n || next == m + depth) && (m == n ==> next == n)
    ensures AtBoundary(next, n, depth)
  {
  }

  /** How a transfer of `sent` to a part can leave the controller when it fails: before the
      part was selected, or in the middle of its command. */
  ghost predicate BrokenOff(spi: Controller, chips: seq<Chip>, selection: Selection, shifted: seq<byte>,
      slave: nat, seen: Chip, sent: seq<byte>)
    requires |chips| == 2 && chips[0].Valid() && chips[1].Valid() && slave < 2
    reads spi
  {
    || (spi.chips == chips && spi.selection == selection && spi.shifted == shifted)
    || (&& spi.chips == Released(chips, selection, shifted, slave)[slave := seen] && spi.selection == Slave(slave)
        && CutAt(spi.shifted, Carried(selection, shifted, slave), sent, spi.depth))
  }

  /** Queues the first bytes, selects the part and lets the transmitter go. */
  method Launch(spi: Controller, slave: nat, send: array<byte>, n: nat) returns (ok: bool, sent: nat, ghost seen: Chip)
    requires spi.Quiet() && slave < 2 && n <= send.Length
    modifies spi
    ensures spi.Valid()
    ensures seen == old(spi.chips[slave]).(busy := seen.busy) && (seen.busy ==> old(spi.chips[slave].busy))
    ensures ok ==> spi.chips == Released(old(spi.chips), old(spi.selection), old(spi.shifted), slave)[slave := seen]
    ensures ok ==> spi.pending == Carried(old(spi.selection), old(spi.shifted), slave)
    ensures ok ==> spi.selection == Slave(slave) && spi.rx == [] && !spi.inhibited && spi.received == []
    ensures ok ==> sent <= n && spi.queued == send[..sent] && (n > 0 ==> sent > 0) && (sent == n || sent == spi.depth)
    ensures !ok ==> BrokenOff(spi, old(spi.chips), old(spi.selection), old(spi.shifted), slave, seen, send[..n])
    ensures spi.fault == old(spi.fault) && (!ok ==> spi.fault.Anything?)
    ensures seen.busy ==> spi.fault.Anything? || old(spi.selection) == Slave(slave)
    ensures spi.faults >= old(spi.faults) && (ok <==> spi.faults == old(spi.faults))
  {
    seen := spi.chips[slave];
    ok, sent := Fill(spi, send, 0, n, true);
    if !ok {
      return;
    }
    assert [] <= send[..n];
    ok, seen := Address(spi, slave);
  }

  /** Selects the part and lets the transmitter go. */
  method Address(spi: Controller, slave: nat) returns (ok: bool, ghost seen: Chip)
    requires spi.Valid() && spi.inhibited && spi.rx == [] && spi.received == [] && spi.shifted == spi.pending && slave < 2
    modifies spi`selection, spi`chips, spi`shifted, spi`pending, spi`faults, spi`inhibited
    ensures spi.Valid() && spi.selection == Slave(slave) && spi.inhibited == !ok
    ensures spi.shifted == spi.pending == Carried(old(spi.selection), old(spi.shifted), slave)
    ensures seen == old(spi.chips[slave]).(busy := seen.busy) && (seen.busy ==> old(spi.chips[slave].busy))
    ensures spi.chips == Released(old(spi.chips), old(spi.selection), old(spi.shifted), slave)[slave := seen]
    ensures seen.busy ==> spi.fault.Anything? || old(spi.selection) == Slave(slave)
    ensures spi.faults >= old(spi.faults) && (ok <==> spi.faults == old(spi.faults)) && (!ok ==> spi.fault.Anything?)
  {
    seen := spi.Select(slave);
    var status := spi.ReadStatus();
    ok := !status.error;
    if ok {
      spi.Inhibit(false);
    }
  }

  /** Sends n bytes to a part and stores the n bytes it answers with.

      Without a fault it succeeds: the part has seen exactly these bytes, after any it had
      been sent and not released from before, as one command, and both FIFOs are empty
      again.  On failure the part has been sent nothing, all of them or a multiple of the FIFO
      depth, and has not acted on them.
   */
  method Transfer(spi: Controller, slave: nat, send: array<byte>, recv: array?<byte>, n: nat)
      returns (ok: bool, ghost seen: Chip)
    requires spi.Quiet() && slave < 2 && n <= send.Length
    requires recv != null ==> recv != send && n <= recv.Length
    modifies spi, recv
    ensures spi.Valid()
    ensures seen == old(spi.chips[slave]).(busy := seen.busy) && (seen.busy ==> old(spi.chips[slave].busy))
    ensures var before := Carried(old(spi.selection), old(spi.shifted), slave);
      var prior := Released(old(spi.chips), old(spi.selection), old(spi.shifted), slave);
      ok ==>
        && spi.Idle() && spi.chips == prior[slave := Execute(seen, before + send[..n])]
        && (recv != null ==> recv[..n] == Replies(seen, before + send[..n])[|before|..])
    ensures recv != null ==> forall k :: n <= k < recv.Length ==> recv[k] == old(recv[k])
    ensures !ok ==> BrokenOff(spi, old(spi.chips), old(spi.selection), old(spi.shifted), slave, seen, send[..n])
    ensures spi.faults >= old(spi.faults) && (!ok ==> spi.faults > old(spi.faults))
    ensures n > 0 ==>
      AsForecast(old(spi.fault), spi.fault, seen, Carried(old(spi.selection), old(spi.shifted), slave), send[..n], |spi.shifted|, spi.depth, ok)
    ensures seen.busy ==> old(spi.fault).Anything? || old(spi.selection) == Slave(slave)
    ensures !ok && !old(spi.fault).Anything? ==> spi.selection == Slave(slave)
  {
    ghost var before := Carried(spi.selection, spi.shifted, slave);
    ghost var prior := Released(spi.chips, spi.selection, spi.shifted, slave);
    var sent;
    ok, sent, seen := Launch(spi, slave, send, n);
    if ok {
      ok := Complete(spi, slave, send, recv, n, sent);
      assert ok ==> spi.chips == prior[slave := Execute(seen, before + send[..n])];
    }
  }

  /** The rest of a transfer that is under way: exchange everything, stop the transmitter,
      release the part. */
  method Complete(spi: Controller, slave: nat, send: array<byte>, recv: array?<byte>, n: nat, queued: nat) returns (ok: bool)
    requires spi.Valid() && spi.selection == Slave(slave) && spi.rx == [] && !spi.inhibited && spi.received == []
    requires queued <= n <= send.Length && spi.queued == send[..queued] && (n > 0 ==> queued > 0)
    requires queued == n || queued == spi.depth
    requires recv != null ==> recv != send && n <= recv.Length
    modifies spi, recv
    ensures spi.Valid() && spi.faults >= old(spi.faults)
    ensures ok ==> spi.Idle()
    ensures ok ==> spi.chips == old(spi.chips)[slave := Execute(old(spi.chips[slave]), old(spi.pending) + send[..n])]
    ensures ok && recv != null ==>
      recv[..n] == Replies(old(spi.chips[slave]), old(spi.pending) + send[..n])[|old(spi.pending)|..]
    ensures recv != null ==> forall k :: n <= k < recv.Length ==> recv[k] == old(recv[k])
    ensures !ok ==> spi.chips == old(spi.chips) && spi.selection == Slave(slave) && CutAt(spi.shifted, old(spi.pending), send[..n], spi.depth)
    ensures !ok ==> spi.faults > old(spi.faults)
    ensures n > 0 ==> AsForecast(old(spi.fault), spi.fault, old(spi.chips[slave]), old(spi.pending), send[..n], |spi.shifted|, spi.depth, ok)
  {
    ok := Exchange(spi, send, recv, n, queued);
    if ok {
      assert spi.received + spi.rx == spi.received;
      Finish(spi, slave);
    }
  }

  /** Stops the transmitter and releases the part. */
  method Finish(spi: Controller, slave: nat)
    requires spi.Valid() && spi.selection == Slave(slave) && spi.tx == [] && spi.rx == []
    modifies spi`inhibited, spi`selection, spi`chips, spi`shifted, spi`pending, spi`queued, spi`received
    ensures spi.Idle() && spi.chips == old(spi.chips)[slave := Execute(old(spi.chips[slave]), old(spi.shifted))]
  {
    spi.Inhibit(true);
    spi.Deselect();
  }

  /** A transfer from an idle controller: the part sees exactly the n bytes. */
  method FinalTransfer(spi: Controller, slave: nat, send: array<byte>, recv: array?<byte>, n: nat)
      returns (ok: bool, ghost seen: Chip)
    requires spi.Idle() && slave < 2 && n <= send.Length
    requires recv != null ==> recv != send && n <= recv.Length
    modifies spi, recv
    ensures spi.Valid()
    ensures seen == old(spi.chips[slave]).(busy := seen.busy) && (seen.busy ==> old(spi.chips[slave].busy))
    ensures ok ==> spi.Idle() && spi.chips == old(spi.chips)[slave := Execute(seen, send[..n])]
    ensures ok && recv != null ==> recv[..n] == Replies(seen, send[..n])
    ensures recv != null ==> forall k :: n <= k < recv.Length ==> recv[k] == old(recv[k])
    ensures !ok ==> spi.chips == old(spi.chips)[slave := seen]
    ensures !ok ==> spi.shifted == [] || CutAt(spi.shifted, [], send[..n], spi.depth)
    ensures spi.faults >= old(spi.faults) && (!ok ==> spi.faults > old(spi.faults))
    ensures n > 0 ==> AsForecast(old(spi.fault), spi.fault, seen, [], send[..n], |spi.shifted|, spi.depth, ok)
    ensures seen.busy ==> old(spi.fault).Anything?
    ensures !ok && !old(spi.fault).Anything? ==> spi.selection == Slave(slave)
  {
    ok, seen := Transfer(spi, slave, send, recv, n);
    assert [] + send[..n] == send[..n];
    assert Replies(seen, send[..n])[0..] == Replies(seen, send[..n]);
    if !ok && spi.chips == old(spi.chips) {
      seen := spi.chips[slave];
      assert spi.chips == old(spi.chips)[slave := seen];
    }
  }
}
