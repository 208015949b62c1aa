/** The XSPI flasher's command layer: status polling, the cached sector register,
    subsector erase, page program and the bitstream guard. */
module XspiFlasher {
  import opened NorFlash
  import opened SpiWire
  import opened SpiController
  import opened SpiTransfer
  import opened FlashCommands

  const WRITE_DATA_SIZE := 128
  const POLL_LIMIT := 30_000_000_000
  const POLL_STEP := 5000
  const NO_SECTOR := -1

  class Flasher {
    const spi: Controller
    const writeBuffer: array<byte>
    const readBuffer: array<byte>
    var slave: nat
    var maxSectors: nat
    var selectedSector: int
    var vendor: int
    /** Faults that had been counted when the current run began. */
    ghost var since: nat
    /** What the environment would let happen when the current run began. */
    ghost var forecast: Fault

    ghost predicate Valid()
      reads this, spi
    {
      && writeBuffer.Length == PAGE_SIZE + EXTRA_BYTES
      && readBuffer.Length == PAGE_SIZE + EXTRA_BYTES + 4
      && writeBuffer != readBuffer
      && slave < 2
      && spi.Valid()
    }

    /** No transfer under way. */
    ghost predicate Ready()
      reads this, spi
    {
      Valid() && spi.Idle()
    }

    /** The vendor read from the part picks the program command it takes. */
    ghost predicate VendorKnown()
      reads this, spi
    {
      Valid() && spi.chips[slave].Programs(if vendor == MACRONIX then CMD_PAGE_PROGRAM else CMD_QUAD_WRITE)
    }

    /** The cached sector, once known, is what the selected part's register holds. */
    ghost predicate Coherent()
      reads this, spi
    {
      && Valid() && VendorKnown()
      && maxSectors == spi.chips[slave].segments
      && (selectedSector == NO_SECTOR || selectedSector == spi.chips[slave].ear)
    }

    /** After a failed step: nothing has changed since `prior` but, at most, the
        busy flag, the write latch and the sector register of the selected part. */
    ghost predicate Unchanged(prior: seq<Chip>)
      reads this, spi
    {
      && Valid()
      && |prior| == 2
      && spi.chips == prior[slave := spi.chips[slave]]
      && spi.chips[slave].mem == prior[slave].mem
      && spi.chips[slave].history == prior[slave].history
      && spi.chips[slave].segments == prior[slave].segments
    }

    ghost predicate Halted(prior: seq<Chip>)
      reads this, spi
    {
      Unchanged(prior) && Harmless(spi.shifted)
    }

    /** Failed with the command for `op` possibly on the wire. */
    ghost predicate HaltedIn(prior: seq<Chip>, op: FlashOp)
      reads this, spi
    {
      Unchanged(prior) && Confined(spi.chips[slave], spi.shifted, op, spi.depth)
    }

    constructor (spi: Controller)
      requires spi.Idle()
      ensures Ready() && this.spi == spi && fresh(writeBuffer) && fresh(readBuffer)
    {
      this.spi := spi;
      writeBuffer := new byte[PAGE_SIZE + EXTRA_BYTES](_ => 0);
      readBuffer := new byte[PAGE_SIZE + EXTRA_BYTES + 4](_ => 0);
      slave, maxSectors, selectedSector, vendor := 0, 0, NO_SECTOR, -1;
      since, forecast := 0, spi.fault;
    }

    /** Command set-up never disturbs the payload bytes. */
    twostate predicate KeepsPayload()
      reads writeBuffer
    {
      forall k :: EXTRA_BYTES <= k < writeBuffer.Length ==> writeBuffer[k] == old(writeBuffer[k])
    }

    /** Polls until the transmit FIFO is empty; right after a transfer it already is. */
    method WaitTxEmpty() returns (ok: bool)
      requires spi.Valid()
      modifies spi`tx, spi`rx, spi`shifted, spi`overflowed, spi`stalls, spi`faults
      ensures spi.Valid() && (ok ==> spi.tx == []) && (old(spi.Idle()) ==> ok && spi.Idle())
      ensures spi.faults >= old(spi.faults)
    {
      var delay := 0;
      while delay < POLL_LIMIT
        invariant spi.Valid() && (old(spi.Idle()) ==> delay == 0 && spi.Idle()) && spi.faults >= old(spi.faults)
        decreases POLL_LIMIT - delay
      {
        var status := spi.PollStatus();
        if status.txEmpty {
          return true;
        }
        delay := delay + POLL_STEP;
      }
      ok := false;
    }

    /** One read of the part's status register.  If the part was still selected, the two bytes
        end the command it had begun. */
    method PollOnce() returns (ok: bool, busy: bool, ghost seen: Chip)
      requires Valid() && spi.Quiet()
      modifies spi, readBuffer, writeBuffer
      ensures Valid() && KeepsPayload() && writeBuffer[1] == old(writeBuffer[1])
      ensures seen == old(spi.chips[slave]).(busy := seen.busy) && (seen.busy ==> old(spi.chips[slave].busy))
      ensures var before := Carried(old(spi.selection), old(spi.shifted), slave);
        var prior := Released(old(spi.chips), old(spi.selection), old(spi.shifted), slave);
        ok ==>
          && Ready() && spi.chips == prior[slave := Execute(seen, before + Probe(old(writeBuffer[1])))]
          && (before == [] ==> busy == seen.busy)
      ensures !ok ==>
        BrokenOff(spi, old(spi.chips), old(spi.selection), old(spi.shifted), slave, seen, Probe(old(writeBuffer[1])))
      ensures spi.faults >= old(spi.faults) && (!ok ==> spi.faults > old(spi.faults))
      ensures !old(spi.fault).CutErase? || Carried(old(spi.selection), old(spi.shifted), slave) == [] ==>
        Smooth(old(spi.fault), spi.fault, ok)
      ensures ok ==> spi.fault == old(spi.fault)
      ensures seen.busy ==> old(spi.fault).Anything? || old(spi.selection) == Slave(slave)
    {
      writeBuffer[0] := CMD_STATUS_READ;
      assert writeBuffer[..2] == Probe(writeBuffer[1]);
      busy := true;
      ok, seen := Transfer(spi, slave, writeBuffer, readBuffer, 2);
      if ok {
        assert readBuffer[1] == readBuffer[..2][1];
        busy := readBuffer[1] % 2 != 0;
        StatusReplies(seen, writeBuffer[1]);
        assert [] + Probe(writeBuffer[1]) == Probe(writeBuffer[1]);
      }
    }

    /** Polls the part's status register until it shows that the part is no longer busy.  From
        an idle controller this is what it says; otherwise the first poll ends the command a
        part had begun. */
    method PollReady() returns (ok: bool, ghost first: Chip, ghost settled: seq<Chip>, ghost begun: bool)
      requires Valid() && spi.Quiet()
      modifies spi, readBuffer, writeBuffer
      ensures Valid() && KeepsPayload() && writeBuffer[1] == old(writeBuffer[1])
      ensures FirstPoll(old(spi.chips), old(spi.selection), old(spi.shifted), slave, first, settled, old(writeBuffer[1]))
      ensures ok ==> Ready() && spi.chips == settled[slave := settled[slave].(busy := spi.chips[slave].busy)]
      ensures ok && Carried(old(spi.selection), old(spi.shifted), slave) == [] ==> !spi.chips[slave].busy
      ensures ok ==> begun
      ensures !ok && begun ==> Halted(settled)
      ensures !begun ==>
        BrokenOff(spi, old(spi.chips), old(spi.selection), old(spi.shifted), slave, first, Probe(old(writeBuffer[1])))
      ensures spi.faults >= old(spi.faults) && (!ok ==> spi.faults > old(spi.faults))
      ensures begun ==> Smooth(old(spi.fault), spi.fault, ok)
      ensures !begun ==> MayFail(old(spi.fault), spi.fault, Carried(old(spi.selection), old(spi.shifted), slave))
    {
      ghost var x, chips, selection, shifted := writeBuffer[1], spi.chips, spi.selection, spi.shifted;
      assert chips[0].Valid() && chips[1].Valid();
      var busy;
      ok, busy, first := PollOnce();
      settled, begun := Settle(chips, selection, shifted, slave, first, x), ok;
      if !ok {
        return;
      }
      if Carried(selection, shifted, slave) == [] {
      }
      assert spi.chips == settled[slave := settled[slave].(busy := settled[slave].busy)];
      if busy {
        ok := PollIdle(settled);
      }
    }

    /** One read of the status register from an idle controller. */
    method PollOnceIdle() returns (ok: bool, busy: bool)
      requires Ready()
      modifies spi, readBuffer, writeBuffer
      ensures Valid() && KeepsPayload() && writeBuffer[1] == old(writeBuffer[1])
      ensures ok ==> Ready() && spi.chips == old(spi.chips)[slave := old(spi.chips[slave]).(busy := busy)]
      ensures !ok ==> Halted(old(spi.chips))
      ensures spi.faults >= old(spi.faults) && (!ok ==> spi.faults > old(spi.faults))
      ensures Smooth(old(spi.fault), spi.fault, ok)
      ensures ok && !spi.fault.Anything? ==> !busy
    {
      ghost var seen;
      ghost var x := writeBuffer[1];
      ok, busy, seen := PollOnce();
      assert [] + Probe(x) == Probe(x);
      StatusReplies(seen, x);
    }

    /** Nothing changed since `prior` if nothing changed since `before`, which differs from it
        in the busy flag only. */
    lemma {:induction false} HaltedSince(prior: seq<Chip>, before: seq<Chip>)
      requires Halted(before) && |prior| == 2 && before == prior[slave := prior[slave].(busy := before[slave].busy)]
      ensures Halted(prior)
    {
    }

    /** The polls after the first. */
    method PollIdle(ghost prior: seq<Chip>) returns (ok: bool)
      requires Ready() && spi.chips == prior
      modifies spi, readBuffer, writeBuffer
      ensures Valid() && KeepsPayload() && writeBuffer[1] == old(writeBuffer[1])
      ensures ok ==> Ready() && spi.chips == prior[slave := prior[slave].(busy := false)]
      ensures !ok ==> Halted(prior)
      ensures spi.faults >= old(spi.faults) && (!ok ==> spi.faults > old(spi.faults))
      ensures Smooth(old(spi.fault), spi.fault, ok)
    {
      var delay := POLL_STEP;
      while delay < POLL_LIMIT
        invariant Ready() && KeepsPayload() && writeBuffer[1] == old(writeBuffer[1]) && spi.faults >= old(spi.faults)
        invariant spi.fault == old(spi.fault) && (delay == POLL_STEP || spi.fault.Anything?)
        invariant spi.chips == prior[slave := prior[slave].(busy := spi.chips[slave].busy)]
        decreases POLL_LIMIT - delay
      {
        ghost var before := spi.chips;
        var busy;
        ok, busy := PollOnceIdle();
        if !ok {
          HaltedSince(prior, before);
          return;
        }
        OneChip(prior, slave, before[slave], spi.chips[slave]);
        if !busy {
          return true;
        }
        delay := delay + POLL_STEP;
      }
      ok := false;
      spi.faults := spi.faults + 1;
    }

    /** Polls an idle controller's part until it is no longer busy. */
    method IsFlashReady() returns (ok: bool)
      requires Ready()
      modifies spi, readBuffer, writeBuffer
      ensures Valid() && KeepsPayload()
      ensures ok ==> Ready() && spi.chips == old(spi.chips)[slave := old(spi.chips[slave]).(busy := false)]
      ensures !ok ==> Halted(old(spi.chips))
      ensures spi.faults >= old(spi.faults) && (!ok ==> spi.faults > old(spi.faults))
      ensures Smooth(old(spi.fault), spi.fault, ok)
    {
      ghost var first, settled, begun;
      ghost var x := writeBuffer[1];
      ok, first, settled, begun := PollReady();
      assert [] + Probe(x) == Probe(x);
      StatusReplies(first, x);
    }

    /** Sends the one-byte write enable command. */
    method WriteEnable() returns (ok: bool)
      requires Ready() && !spi.chips[slave].busy
      modifies spi, writeBuffer
      ensures Valid() && KeepsPayload()
      ensures ok ==> Ready() && spi.chips == old(spi.chips)[slave := old(spi.chips[slave]).(writeEnabled := true)]
      ensures !ok ==> Halted(old(spi.chips))
      ensures spi.faults >= old(spi.faults) && (!ok ==> spi.faults > old(spi.faults))
      ensures Smooth(old(spi.fault), spi.fault, ok)
    {
      var status := spi.ReadStatus();
      if status.txFull {
        return false;
      }
      spi.Restart();
      writeBuffer[0] := CMD_WRITE_ENABLE;
      ghost var seen;
      ok, seen := FinalTransfer(spi, slave, writeBuffer, null, 1);
      assert writeBuffer[..1] == [CMD_WRITE_ENABLE];
      if ok {
        ok := WaitTxEmpty();
      }
    }

    method SetRegisterBytes(cmd: byte, value: nat, extraBytes: nat)
      requires Valid() && extraBytes <= 2
      modifies writeBuffer
      ensures KeepsPayload()
      ensures writeBuffer[..extraBytes + 1] == RegisterWrite(cmd, value, extraBytes)
    {
      writeBuffer[0] := cmd;
      if extraBytes == 1 {
        writeBuffer[1] := value % 0x100;
      } else if extraBytes == 2 {
        writeBuffer[1] := value / 0x100 % 0x100;
        writeBuffer[2] := value % 0x100;
      }
    }

    /** Writes a part register of up to two bytes, most significant byte first. */
    method WriteRegister(cmd: byte, value: nat, extraBytes: nat) returns (ok: bool)
      requires Ready() && extraBytes <= 2
      modifies spi, readBuffer, writeBuffer
      ensures Valid() && KeepsPayload()
      ensures ok ==> Ready() && spi.chips == old(spi.chips)[slave :=
          Execute(old(spi.chips[slave]).(busy := false, writeEnabled := true), RegisterWrite(cmd, value, extraBytes))]
      ensures !ok ==> Unchanged(old(spi.chips)) && (Harmless(spi.shifted) || spi.shifted <= RegisterWrite(cmd, value, extraBytes))
      ensures spi.faults >= old(spi.faults) && (!ok ==> spi.faults > old(spi.faults))
      ensures cmd != CMD_SUBSECTOR_ERASE ==> Smooth(old(spi.fault), spi.fault, ok)
    {
      ok := IsFlashReady();
      if !ok {
        return;
      }
      ok := WriteEnable();
      if !ok {
        return;
      }
      ok := SendRegister(cmd, value, extraBytes);
    }

    method SendRegister(cmd: byte, value: nat, extraBytes: nat) returns (ok: bool)
      requires Ready() && extraBytes <= 2 && !spi.chips[slave].busy
      modifies spi, readBuffer, writeBuffer
      ensures Valid() && KeepsPayload()
      ensures ok ==> Ready()
      ensures ok ==> spi.chips == old(spi.chips)[slave := Execute(old(spi.chips[slave]), RegisterWrite(cmd, value, extraBytes))]
      ensures !ok ==> spi.chips == old(spi.chips) && spi.shifted <= RegisterWrite(cmd, value, extraBytes)
      ensures spi.faults >= old(spi.faults) && (!ok ==> spi.faults > old(spi.faults))
      ensures cmd != CMD_SUBSECTOR_ERASE ==> Smooth(old(spi.fault), spi.fault, ok)
    {
      spi.Restart();
      SetRegisterBytes(cmd, value, extraBytes);
      ok := Issue(extraBytes + 1, false);
    }

    /** Brings the part's extended address register to the address's segment,
        writing it only when the cached value differs. */
    method SetSector(address: nat) returns (ok: bool)
      requires Ready() && Coherent() && !spi.chips[slave].busy
      modifies spi, readBuffer, writeBuffer, this`selectedSector
      ensures Valid() && KeepsPayload()
      ensures ok ==> Ready() && Coherent() && GetSector(address) == spi.chips[slave].ear < maxSectors
      ensures ok ==> spi.chips == old(spi.chips)[slave :=
          old(spi.chips[slave]).(ear := GetSector(address), writeEnabled := spi.chips[slave].writeEnabled)]
      ensures !ok ==> Halted(old(spi.chips))
      ensures spi.faults >= old(spi.faults) && (!ok ==> spi.faults > old(spi.faults) || GetSector(address) >= maxSectors)
      ensures Smooth(old(spi.fault), spi.fault, ok || GetSector(address) >= maxSectors)
    {
      var sector := GetSector(address);
      if sector >= maxSectors {
        return false;
      } else if sector == selectedSector {
        return true;
      }
      ok := WriteRegister(CMD_EXT_ADDRESS_WRITE, sector, 1);
      if ok {
        assert RegisterWrite(CMD_EXT_ADDRESS_WRITE, sector, 1) == [CMD_EXT_ADDRESS_WRITE, sector];
        selectedSector := sector;
      }
    }

    /** The steps every array command shares: the part is idle, the sector register
        matches, writes are enabled and the FIFOs are clear. */
    method Arm(address: nat) returns (ok: bool)
      requires Ready() && Coherent()
      modifies spi, readBuffer, writeBuffer, this`selectedSector
      ensures Valid() && KeepsPayload()
      ensures ok ==> Ready() && Coherent() && GetSector(address) < maxSectors
      ensures ok ==> spi.chips == old(spi.chips)[slave :=
          old(spi.chips[slave]).(busy := false, ear := GetSector(address), writeEnabled := true)]
      ensures !ok ==> Halted(old(spi.chips))
      ensures spi.faults >= old(spi.faults) && (!ok ==> spi.faults > old(spi.faults) || GetSector(address) >= maxSectors)
      ensures Smooth(old(spi.fault), spi.fault, ok || GetSector(address) >= maxSectors)
    {
      ok := IsFlashReady();
      if !ok {
        return;
      }
      ok := ArmIdle(address, old(spi.chips));
    }

    /** The rest of it, once the part is idle. */
    method ArmIdle(address: nat, ghost before: seq<Chip>) returns (ok: bool)
      requires Ready() && Coherent() && |before| == 2 && spi.chips == before[slave := before[slave].(busy := false)]
      modifies spi, readBuffer, writeBuffer, this`selectedSector
      ensures Valid() && KeepsPayload()
      ensures ok ==> Ready() && Coherent() && GetSector(address) < maxSectors
      ensures ok ==> spi.chips == before[slave :=
          before[slave].(busy := false, ear := GetSector(address), writeEnabled := true)]
      ensures !ok ==> Halted(before)
      ensures spi.faults >= old(spi.faults) && (!ok ==> spi.faults > old(spi.faults) || GetSector(address) >= maxSectors)
      ensures Smooth(old(spi.fault), spi.fault, ok || GetSector(address) >= maxSectors)
    {
      ghost var idle := spi.chips;
      ok := SetSector(address);
      if !ok {
        HaltedThen(before, idle);
        return;
      }
      ghost var pointed := spi.chips;
      OneChip(before, slave, idle[slave], pointed[slave]);
      ok := WriteEnable();
      if ok {
        OneChip(before, slave, pointed[slave], spi.chips[slave]);
        spi.Restart();
      } else {
        HaltedThen(before, pointed);
      }
    }

    /** Halted since `later` is halted since `prior` if in between only the busy flag, the sector
        register and the write latch changed. */
    lemma {:induction false} HaltedThen(prior: seq<Chip>, later: seq<Chip>)
      requires Halted(later) && |prior| == |later| == 2 && later == prior[slave := later[slave]]
      requires later[slave] == prior[slave].(busy := later[slave].busy, ear := later[slave].ear, writeEnabled := later[slave].writeEnabled)
      ensures Halted(prior)
    {
    }

    /** Puts a command byte and the low address bytes in front of the payload. */
    method SetHeader(cmd: byte, address: nat)
      requires Valid()
      modifies writeBuffer
      ensures writeBuffer[..EXTRA_BYTES] == Header(cmd, address)
      ensures KeepsPayload()
    {
      writeBuffer[0] := cmd;
      writeBuffer[1] := address / 0x10000 % 0x100;
      writeBuffer[2] := address / 0x100 % 0x100;
      writeBuffer[3] := address % 0x100;
    }

    /** Sends the first n bytes of the write buffer to an idle part. */
    method Issue(n: nat, keepReply: bool) returns (ok: bool)
      requires Ready() && !spi.chips[slave].busy && n <= writeBuffer.Length
      modifies spi, readBuffer
      ensures Valid()
      ensures ok ==> Ready() && spi.chips == old(spi.chips)[slave := Execute(old(spi.chips[slave]), writeBuffer[..n])]
      ensures !ok ==> spi.chips == old(spi.chips) && (spi.shifted == [] || CutAt(spi.shifted, [], writeBuffer[..n], spi.depth))
      ensures spi.faults >= old(spi.faults) && (!ok ==> spi.faults > old(spi.faults))
      ensures n > 0 ==> AsForecast(old(spi.fault), spi.fault, old(spi.chips[slave]), [], writeBuffer[..n], |spi.shifted|, spi.depth, ok)
      ensures !ok && !old(spi.fault).Anything? ==> spi.selection == Slave(slave)
    {
      ghost var seen;
      ok, seen := FinalTransfer(spi, slave, writeBuffer, if keepReply then readBuffer else null, n);
      assert seen == old(spi.chips[slave]);
      if ok {
        ok := WaitTxEmpty();
      }
    }

    /** Erases the 4 KB subsector that holds the 28-bit address. */
    method SectorErase(address: nat) returns (ok: bool)
      requires Ready() && Coherent()
      modifies spi, readBuffer, writeBuffer, this`selectedSector
      ensures Valid() && KeepsPayload()
      ensures ok ==> Ready() && Coherent() && spi.chips == old(spi.chips)[slave :=
          Changed(old(spi.chips[slave]), Erase(address % ADDRESS_SPACE))]
      ensures ok ==> address % ADDRESS_SPACE < |spi.chips[slave].mem|
      ensures !ok ==> HaltedIn(old(spi.chips), Erase(address % ADDRESS_SPACE))
      ensures spi.faults >= old(spi.faults) && (!ok ==> spi.faults > old(spi.faults) || GetSector(address) >= maxSectors)
      ensures ok || old(spi.fault).Anything? ==> spi.fault == old(spi.fault)
      ensures !old(spi.fault).Anything? && GetSector(address) < maxSectors ==>
        ok == !Due(old(spi.fault), |old(spi.chips[slave].history)|)
      ensures !ok && !old(spi.fault).Anything? && GetSector(address) < maxSectors ==>
        spi.fault == Calm && EraseCut(old(spi.fault), spi.selection, spi.chips[slave], slave, spi.shifted, address, spi.depth)
    {
      ok := Arm(address);
      if !ok {
        return;
      }
      SetHeader(CMD_SUBSECTOR_ERASE, address);
      EraseDecodes(spi.chips[slave], address);
      ok := Issue(EXTRA_BYTES, false);
      SameHeader(CMD_SUBSECTOR_ERASE, address);
    }

    /** Programs the 128 payload bytes at the 28-bit address. */
    method WritePage(address: nat) returns (ok: bool)
      requires Ready() && Coherent()
      modifies spi, readBuffer, writeBuffer, this`selectedSector
      ensures Valid() && KeepsPayload()
      ensures ok ==> Ready() && Coherent() && spi.chips == old(spi.chips)[slave :=
          Changed(old(spi.chips[slave]), Program(address % ADDRESS_SPACE, old(Payload())))]
      ensures ok ==> address % ADDRESS_SPACE < |spi.chips[slave].mem|
      ensures !ok ==> HaltedIn(old(spi.chips), Program(address % ADDRESS_SPACE, old(Payload())))
      ensures spi.faults >= old(spi.faults) && (!ok ==> spi.faults > old(spi.faults) || GetSector(address) >= maxSectors)
      ensures Smooth(old(spi.fault), spi.fault, ok || GetSector(address) >= maxSectors)
    {
      ok := Arm(address);
      if !ok {
        return;
      }
      assert Payload() == old(Payload());
      ghost var before, armed, op := old(spi.chips), spi.chips[slave], Program(address % ADDRESS_SPACE, Payload());
      ok := SendPage(address);
      SameHeader(CMD_PAGE_PROGRAM, address);
      OneChip(before, slave, armed, Changed(before[slave], op));
    }

    /** The program command to an armed part. */
    method SendPage(address: nat) returns (ok: bool)
      requires Ready() && VendorKnown() && !spi.chips[slave].busy && spi.chips[slave].writeEnabled
      requires spi.chips[slave].ear == GetSector(address) < spi.chips[slave].segments
      modifies spi, readBuffer, writeBuffer
      ensures Valid() && KeepsPayload()
      ensures ok ==> Ready() && address % ADDRESS_SPACE < |spi.chips[slave].mem|
      ensures ok ==> spi.chips == old(spi.chips)[slave :=
          Changed(old(spi.chips[slave]), Program(address % ADDRESS_SPACE, old(Payload())))]
      ensures !ok ==> spi.chips == old(spi.chips)
      ensures !ok ==> Confined(spi.chips[slave], spi.shifted, Program(address % ADDRESS_SPACE, old(Payload())), spi.depth)
      ensures spi.faults >= old(spi.faults) && (!ok ==> spi.faults > old(spi.faults))
      ensures Smooth(old(spi.fault), spi.fault, ok)
    {
      var cmd := if vendor == MACRONIX then CMD_PAGE_PROGRAM else CMD_QUAD_WRITE;
      ghost var payload := Payload();
      SetHeader(cmd, address);
      assert writeBuffer[..EXTRA_BYTES + WRITE_DATA_SIZE] == Header(cmd, address) + payload;
      ProgramDecodes(spi.chips[slave], cmd, address, payload);
      ok := Issue(EXTRA_BYTES + WRITE_DATA_SIZE, true);
      SameHeader(cmd, address);
    }

    /** Reads the identification bytes and learns the vendor and the number of segments. */
    method ReadFlashId() returns (ok: bool)
      requires Ready()
      modifies spi, readBuffer, writeBuffer, this`vendor, this`maxSectors
      ensures Valid() && KeepsPayload()
      ensures ok ==> Ready() && VendorKnown() && maxSectors == spi.chips[slave].segments
      ensures ok ==> spi.chips == old(spi.chips)[slave := old(spi.chips[slave]).(busy := spi.chips[slave].busy)]
      ensures !ok ==> Halted(old(spi.chips))
      ensures spi.faults >= old(spi.faults) && (!ok ==> spi.faults > old(spi.faults))
      ensures Smooth(old(spi.fault), spi.fault, ok)
    {
      ghost var c := spi.chips[slave];
      writeBuffer[0] := CMD_IDCODE_READ;
      ghost var seen;
      ok, seen := FinalTransfer(spi, slave, writeBuffer, readBuffer, 5);
      if !ok {
        return;
      }
      IdReplies(seen, writeBuffer[..5]);
      assert readBuffer[3] == readBuffer[..5][3];
      if readBuffer[1] == MICRON || readBuffer[1] == MACRONIX {
        vendor := readBuffer[1];
      }
      var segments := SegmentsOf(readBuffer[3]);
      if segments == 0 {
        return false;
      }
      maxSectors := segments;
      for i := 0 to 5
        modifies readBuffer
      {
        readBuffer[i] := 0;
      }
    }

    /** Opens a session from any state of the controller; nothing is known about the sector
        register.  A part that was still selected first ends the command it had begun, with
        the two bytes of the first status poll: `settled` is what that leaves. */
    method Prepare() returns (ok: bool, ghost first: Chip, ghost settled: seq<Chip>, ghost begun: bool)
      requires Valid()
      modifies spi, readBuffer, writeBuffer, this`vendor, this`maxSectors, this`selectedSector
      ensures Valid() && KeepsPayload()
      ensures FirstPoll(old(spi.chips), old(spi.selection), old(spi.shifted), slave, first, settled, old(writeBuffer[1]))
      ensures ok ==> begun && Ready() && Coherent()
      ensures ok ==> spi.chips == settled[slave := settled[slave].(busy := spi.chips[slave].busy)]
      ensures !ok && begun ==> Halted(settled)
      ensures !begun ==>
        BrokenOff(spi, old(spi.chips), old(spi.selection), old(spi.shifted), slave, first, Probe(old(writeBuffer[1])))
      ensures spi.faults >= old(spi.faults) && (!ok ==> spi.faults > old(spi.faults))
      ensures begun ==> Smooth(old(spi.fault), spi.fault, ok)
      ensures !begun ==> MayFail(old(spi.fault), spi.fault, Carried(old(spi.selection), old(spi.shifted), slave))
    {
      selectedSector := NO_SECTOR;
      spi.Restart();
      ok, first, settled, begun := GetFlashId();
    }

    /** Waits for the part and reads its identification. */
    method GetFlashId() returns (ok: bool, ghost first: Chip, ghost settled: seq<Chip>, ghost begun: bool)
      requires Valid() && spi.Quiet()
      modifies spi, readBuffer, writeBuffer, this`vendor, this`maxSectors
      ensures Valid() && KeepsPayload()
      ensures FirstPoll(old(spi.chips), old(spi.selection), old(spi.shifted), slave, first, settled, old(writeBuffer[1]))
      ensures ok ==> begun && Ready() && VendorKnown() && maxSectors == spi.chips[slave].segments
      ensures ok ==> spi.chips == settled[slave := settled[slave].(busy := spi.chips[slave].busy)]
      ensures !ok && begun ==> Halted(settled)
      ensures !begun ==>
        BrokenOff(spi, old(spi.chips), old(spi.selection), old(spi.shifted), slave, first, Probe(old(writeBuffer[1])))
      ensures spi.faults >= old(spi.faults) && (!ok ==> spi.faults > old(spi.faults))
      ensures begun ==> Smooth(old(spi.fault), spi.fault, ok)
      ensures !begun ==> MayFail(old(spi.fault), spi.fault, Carried(old(spi.selection), old(spi.shifted), slave))
    {
      ok, first, settled, begun := PollReady();
      if ok {
        ghost var before := spi.chips;
        ok := ReadFlashId();
        if ok {
          OneChip(settled, slave, before[slave], spi.chips[slave]);
        } else {
          HaltedSince(settled, before);
        }
      }
    }

    /** The data part of the write buffer, as WritePage sends it. */
    ghost function Payload(): (r: seq<byte>)
      reads this, spi, writeBuffer
      requires Valid()
      ensures |r| == WRITE_DATA_SIZE
    {
      writeBuffer[EXTRA_BYTES..EXTRA_BYTES + WRITE_DATA_SIZE]
    }
  }

  /** Of two changes to one part the second stands. */
  lemma {:induction false} OneChip(chips: seq<Chip>, i: nat, a: Chip, b: Chip)
    requires i < |chips|
    ensures chips[i := a][i := b] == chips[i := b]
  {
  }
}
