/** The AXI quad-SPI controller with two flash parts behind it.

    While the transmitter is not inhibited and a part is selected, the controller
    moves bytes from the transmit FIFO to the part at a pace of its own; each byte
    sent puts one reply byte into the receive FIFO.  `shifted` holds the bytes a
    part has taken since it was selected; the part acts on them when it is
    deselected.  A data register access may fail, and the status may show an
    error, at any time, unless the environment is a calmer one (`Fault`).
 */
module SpiController {
  import opened NorFlash
  import opened SpiWire

  datatype Status = Status(txEmpty: bool, txFull: bool, rxEmpty: bool, error: bool)

  class Controller {
    const depth: nat
    var tx: seq<byte>
    var rx: seq<byte>
    var inhibited: bool
    var selection: Selection
    var shifted: seq<byte>
    var chips: seq<Chip>
    /** How many more status polls may see no progress: finite, otherwise arbitrary. */
    var stalls: nat
    var fault: Fault

    /** Whether a byte was ever lost to a full FIFO. */
    ghost var overflowed: bool
    /** What the selected part had taken before this transfer: nothing, unless an earlier
        transfer broke off and left it selected. */
    ghost var pending: seq<byte>
    /** All bytes written to the transmit FIFO, and read from the receive FIFO, in this transfer. */
    ghost var queued: seq<byte>
    ghost var received: seq<byte>
    /** Failed register accesses, error bits seen and waits that ran out. */
    ghost var faults: nat

    constructor (depth: nat, first: Chip, second: Chip, stalls: nat, fault: Fault)
      requires depth >= 1 && first.Valid() && second.Valid()
      ensures Idle() && this.depth == depth && chips == [first, second] && this.fault == fault
    {
      this.depth, this.stalls, this.fault := depth, stalls, fault;
      tx, rx, shifted := [], [], [];
      inhibited, selection, chips := true, NoSlave, [first, second];
      overflowed, pending, queued, received, faults := false, [], [], [], 0;
    }

    ghost function Now(): Wire
      reads this
    {
      Wire(chips, selection, pending, shifted, tx, rx, queued, received)
    }

    ghost predicate Valid()
      reads this
    {
      depth >= 1 && |tx| + |rx| <= depth && Consistent(Now()) && !overflowed
    }

    /** Between two transfers. */
    ghost predicate Idle()
      reads this
    {
      Valid() && tx == [] && inhibited && selection == NoSlave
    }

    /** Ready for a transfer, though a part may still be selected with a command begun. */
    ghost predicate Quiet()
      reads this
    {
      Valid() && tx == [] && rx == [] && queued == [] && received == [] && inhibited
    }

    /** One byte goes out and its reply comes in. */
    method ShiftByte()
      requires Valid() && selection.Slave? && tx != []
      modifies this`tx, this`rx, this`shifted, this`overflowed
      ensures Valid()
      ensures |tx| == |old(tx)| - 1 && |rx| == |old(rx)| + 1
    {
      var c := chips[selection.index];
      var reply := ReplyByte(c, shifted);
      ShiftKeeps(Now(), reply);
      overflowed := overflowed || |rx| >= depth;
      rx := if |rx| < depth then rx + [reply] else rx;
      shifted := shifted + [tx[0]];
      tx := tx[1..];
    }

    /** The hardware moves some bytes, or spends a stall. */
    method Advance()
      requires Valid() && selection.Slave?
      modifies this`tx, this`rx, this`shifted, this`overflowed, this`stalls
      ensures Valid() && |rx| + |tx| == old(|rx| + |tx|) && |tx| <= |old(tx)| && stalls <= old(stalls)
      ensures tx == [] || |tx| < |old(tx)| || stalls < old(stalls)
    {
      var more: bool := *;
      if !more {
        if stalls == 0 {
          more := true;
        } else {
          stalls := stalls - 1;
        }
      }
      while more && tx != []
        invariant Valid()
        invariant |rx| + |tx| == old(|rx| + |tx|) && |tx| <= |old(tx)| && stalls <= old(stalls)
        invariant more || tx == [] || |tx| < |old(tx)| || stalls < old(stalls)
        decreases |tx|
      {
        ShiftByte();
        more := *;
      }
    }

    /** Reads the status register while no byte can move. */
    method ReadStatus() returns (status: Status)
      requires Valid() && (inhibited || selection == NoSlave)
      modifies this`faults
      ensures Valid() && faults == old(faults) + (if status.error then 1 else 0)
      ensures status.error ==> fault.Anything?
      ensures status.txEmpty == (tx == []) && status.txFull == (|tx| == depth) && status.rxEmpty == (rx == [])
    {
      var error: bool := *;
      error := error && fault.Anything?;
      faults := faults + (if error then 1 else 0);
      status := Status(tx == [], |tx| == depth, rx == [], error);
    }

    /** Reads the status register; unless the transmitter is inhibited the hardware may have
        moved bytes meanwhile. */
    method PollStatus() returns (status: Status)
      requires Valid()
      modifies this`tx, this`rx, this`shifted, this`overflowed, this`stalls, this`faults
      ensures Valid() && faults == old(faults) + (if status.error then 1 else 0)
      ensures |rx| + |tx| == old(|rx| + |tx|)
      ensures inhibited || selection == NoSlave ==> tx == old(tx) && rx == old(rx) && shifted == old(shifted)
      ensures selection.Slave? && !inhibited ==> tx == [] || |tx| < |old(tx)| || stalls < old(stalls)
      ensures |tx| <= |old(tx)| && stalls <= old(stalls)
      ensures status.error ==> fault.Anything?
      ensures status.txEmpty == (tx == []) && status.txFull == (|tx| == depth) && status.rxEmpty == (rx == [])
    {
      if selection.Slave? && !inhibited {
        Advance();
      }
      var error: bool := *;
      error := error && fault.Anything?;
      faults := faults + (if error then 1 else 0);
      status := Status(tx == [], |tx| == depth, rx == [], error);
    }

    /** Writes the data transmit register.  Only a full FIFO would lose the byte. */
    method WriteData(b: byte) returns (ok: bool)
      requires Valid() && inhibited && |tx| + |rx| < depth
      modifies this`tx, this`queued, this`faults
      ensures Valid() && faults == old(faults) + (if ok then 0 else 1)
      ensures ok ==> tx == old(tx) + [b] && queued == old(queued) + [b]
      ensures !ok ==> tx == old(tx) && queued == old(queued) && fault.Anything?
    {
      ok := *;
      ok := ok || !fault.Anything?;
      faults := faults + (if ok then 0 else 1);
      if ok {
        QueueKeeps(Now(), b);
        tx := tx + [b];
        queued := queued + [b];
      }
    }

    /** Reads the data receive register. */
    method ReadData() returns (ok: bool, b: byte)
      requires Valid() && selection.Slave? && rx != []
      modifies this`rx, this`received, this`faults, this`fault
      ensures Valid() && faults == old(faults) + (if ok then 0 else 1)
      ensures ok ==> b == old(rx)[0] && rx == old(rx)[1..] && received == old(received) + [b]
      ensures !ok ==> rx == old(rx) && received == old(received)
      ensures if old(fault).Anything? then fault == old(fault)
              else ok == !Strikes(old(fault), chips[selection.index], shifted) && fault == if ok then old(fault) else Calm
    {
      ok, b := *, 0;
      if !fault.Anything? {
        ok := !Strikes(fault, chips[selection.index], shifted);
        fault := if ok then fault else Calm;
      }
      faults := faults + (if ok then 0 else 1);
      if ok {
        ReadKeeps(Now());
        b := rx[0];
        rx := rx[1..];
        received := received + [b];
      }
    }

    /** Writes the inhibit bit of the control register. */
    method Inhibit(on: bool)
      requires Valid()
      modifies this`inhibited
      ensures Valid() && inhibited == on
    {
      inhibited := on;
    }

    /** Writes the start state to the control register: inhibited, both FIFOs reset. */
    method Restart()
      requires Valid()
      modifies this`inhibited, this`tx, this`rx, this`pending, this`queued, this`received
      ensures Quiet() && pending == shifted
    {
      ResetKeeps(Now());
      inhibited := true;
      tx, rx, pending, queued, received := [], [], shifted, [], [];
    }

    /** Selects a part.  A busy part may have finished its work by then.  Another part that was
        still selected is released and acts on what it was sent; the same part stays selected
        and goes on with its command. */
    method Select(index: nat) returns (ghost seen: Chip)
      requires Valid() && inhibited && rx == [] && received == [] && shifted == pending && index < 2
      modifies this`selection, this`chips, this`shifted, this`pending
      ensures Valid() && selection == Slave(index)
      ensures shifted == pending == Carried(old(selection), old(shifted), index)
      ensures var prior := Released(old(chips), old(selection), old(shifted), index);
        && seen == prior[index].(busy := seen.busy) && (seen.busy ==> prior[index].busy)
        && chips == prior[index := seen]
      ensures seen.busy ==> fault.Anything? || old(selection) == Slave(index)
    {
      ghost var before := Now();
      if selection == Slave(index) {
        seen := chips[index];
      } else {
        if selection.Slave? {
          var other := selection.index;
          chips := chips[other := Execute(chips[other], shifted)];
        }
        shifted, pending := [], [];
        var done: bool := *;
        var c := chips[index];
        c := c.(busy := c.busy && !done && fault.Anything?);
        chips := chips[index := c];
        selection := Slave(index);
        seen := c;
      }
      SelectKeeps(before, index, seen);
      assert chips == Released(before.chips, before.selection, before.shifted, index)[index := seen];
    }

    /** Releases the chip select: the part acts on the bytes it was sent. */
    method Deselect()
      requires Valid() && selection.Slave? && tx == [] && rx == []
      modifies this`selection, this`chips, this`shifted, this`pending, this`queued, this`received
      ensures Valid() && selection == NoSlave
      ensures chips == old(chips)[old(selection).index := Execute(old(chips[selection.index]), old(shifted))]
      ensures queued == []
    {
      var s := selection.index;
      chips := chips[s := Execute(chips[s], shifted)];
      selection, shifted, pending, queued, received := NoSlave, [], [], [], [];
    }
  }
}
