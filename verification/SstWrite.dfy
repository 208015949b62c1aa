/** Writing to SST flash: pairs of bytes at even addresses, single bytes at the ends. */
module SstWrite {
  import opened Bits

  const BYTE_PROGRAM: byte := 0x02
  const WORD_PROGRAM: byte := 0xAD  // auto address increment

  /** One program command that reached the part.  `again` says that it goes on with a word
      program under way, whose address the part counts itself. */
  datatype ProgramOp = ProgramOp(opcode: byte, addr: nat, data: seq<byte>, again: bool)

  /** One byte that reached the part. */
  datatype Cell = Cell(addr: nat, value: byte)

  /** The bytes of a command, in the order they are stored. */
  function CellsOf(addr: nat, data: seq<byte>): (r: seq<Cell>)
    ensures |r| == |data| && forall j :: 0 <= j < |r| ==> r[j] == Cell(addr + j, data[j])
  {
    seq(|data|, j requires 0 <= j < |data| => Cell(addr + j, data[j]))
  }

  predicate IsPair(op: ProgramOp) {
    op.opcode == 0xAD && |op.data| == 2 && op.addr % 2 == 0
  }

  predicate IsSingle(op: ProgramOp) {
    op.opcode == 0x02 && |op.data| == 1 && !op.again
  }

  /** Word programs at even addresses, each after the first of them going on with the one
      before, and a byte program at most first, at an odd address. */
  ghost predicate Pairs(ops: seq<ProgramOp>, to: nat) {
    forall i :: 0 <= i < |ops| ==>
      if i == 0 && to % 2 == 1 then IsSingle(ops[i]) else IsPair(ops[i]) && ops[i].again == (i > to % 2)
  }

  /** The same, except that the last operation may be a byte program. */
  ghost predicate Shaped(ops: seq<ProgramOp>, to: nat) {
    Pairs(ops, to) || (ops != [] && IsSingle(ops[|ops| - 1]) && Pairs(ops[..|ops| - 1], to))
  }

  /** Undefined stands for reading past the end of the buffer. */
  datatype Status = Ok | IoError | Undefined

  class Chip {
    ghost var log: seq<ProgramOp>
    ghost var cells: seq<Cell>
    /** Whether some write reported fewer bytes than it was given; the driver only warns. */
    ghost var short: bool
    /** Writes refused and waits that ran out. */
    ghost var faults: nat
    /** Commands sent to a part still at work, or without the write latch set. */
    ghost var lost: nat
    ghost var busy: bool
    ghost var latch: bool
    // What the driver hands the controller beside the data.
    var opcode: byte
    var second: bool

    constructor ()
      ensures log == [] && cells == [] && !short && faults == 0 && lost == 0 && !busy
    {
      log, cells, short, faults, lost, busy, latch := [], [], false, 0, 0, false, false;
      opcode, second := 0, false;
    }

    method SetLatch(on: bool)
      modifies this`latch
      ensures latch == on
    {
      latch := on;
    }

    /** The bytes stored so far are the first n of buf, each once, in order from `to`
        on, unless a write came up short. */
    ghost predicate Stored(to: nat, buf: seq<byte>, n: nat)
      reads this
    {
      n <= |buf| && (short || cells == CellsOf(to, buf[..n]))
    }

    /** The controller's write operation: an error, or the number of bytes programmed. */
    method Write(to: nat, data: seq<byte>) returns (ret: int)
      modifies this
      ensures ret < 0 ==> log == old(log) && cells == old(cells) && short == old(short)
      ensures 0 <= ret ==> short == (old(short) || ret != |data|)
      ensures 0 <= ret ==> log == old(log) + [ProgramOp(opcode, to, data, second)] && busy
      ensures 0 <= ret <= |data| ==> cells == old(cells) + CellsOf(to, data[..ret])
      ensures faults == old(faults) + (if 0 <= ret then 0 else 1)
      ensures lost == old(lost) + (if 0 <= ret && (old(busy) || !latch) then 1 else 0)
      ensures opcode == old(opcode) && second == old(second) && latch == old(latch)
    {
      ret := *;
      if ret < 0 {
        faults := faults + 1;
      }
      if 0 <= ret {
        lost := lost + (if busy || !latch then 1 else 0);
        busy := true;
        short := short || ret != |data|;
        log := log + [ProgramOp(opcode, to, data, second)];
        cells := cells + CellsOf(to, if ret <= |data| then data[..ret] else data);
      }
    }

    method WaitTillReady() returns (ok: bool)
      modifies this`faults, this`busy
      ensures faults == old(faults) + (if ok then 0 else 1) && busy == (old(busy) && !ok)
    {
      ok := *;
      if !ok {
        faults := faults + 1;
      }
      busy := busy && !ok;
    }

    /** Programs the n bytes of buf that follow the stored ones. */
    method WriteNext(start: nat, buf: seq<byte>, actual: nat, n: nat) returns (ok: bool)
      requires actual + n <= |buf| && Stored(start, buf, actual)
      modifies this
      ensures ok ==> Stored(start, buf, actual + n)
      ensures ok ==> log == old(log) + [ProgramOp(opcode, start + actual, buf[actual..actual + n], second)]
      ensures !ok ==> Stored(start, buf, actual) && log == old(log)
      ensures faults == old(faults) + (if ok then 0 else 1)
      ensures !old(busy) && latch ==> lost == old(lost)
      ensures opcode == old(opcode) && second == old(second) && latch == old(latch)
    {
      assert buf[actual..actual + n][..n] == buf[actual..actual + n];
      var ret := Write(start + actual, buf[actual..actual + n]);
      ok := 0 <= ret;
    }

    /** Writes a buffer.  Success stores it exactly, and a failure has stored a prefix, unless
        a write came up short.  retlen counts more than was sent exactly when the first
        program, at an odd address, failed.  Of an empty buffer the first program, or the
        wrapped bound of the pair loop, makes the code read bytes that are not there. */
    method SstWrite(start: nat, buf: seq<byte>) returns (status: Status, retlen: nat, ghost stored: nat)
      requires log == [] && cells == []
      modifies this
      ensures status.Ok? ==> retlen == stored == |buf|
      ensures status.Undefined? <==> buf == []
      ensures buf != [] ==> (status.Ok? <==> faults == old(faults))
      ensures Stored(start, buf, stored) && Shaped(log, start)
      ensures buf != [] ==> (retlen > stored <==> start % 2 == 1 && stored == 0)
      ensures retlen <= stored + 1
      ensures !old(busy) ==> lost == old(lost)
      ensures status.Ok? ==> !busy && !latch
    {
      SetLatch(true);
      second := false;
      var actual := start % 2;
      stored := 0;
      if buf == [] {
        return Undefined, 0, 0;
      }
      if actual == 1 {
        opcode := BYTE_PROGRAM;
        var ok := WriteNext(start, buf, 0, 1);
        if !ok {
          return IoError, actual, 0;
        }
        stored := 1;
        var ready := WaitTillReady();
        if !ready {
          return IoError, actual, stored;
        }
      }
      var ok;
      ok, actual, stored := WritePairs(start, buf, actual);
      if !ok {
        return IoError, actual, stored;
      }
      second := false;
      SetLatch(false);
      var ready := WaitTillReady();
      if !ready {
        return IoError, actual, stored;
      }
      if actual != |buf| {
        ok, stored := WriteTrailing(start, buf, actual);
        if !ok {
          return IoError, actual, stored;
        }
        actual := actual + 1;
      }
      return Ok, actual, stored;
    }

    /** The trailing byte. */
    method WriteTrailing(start: nat, buf: seq<byte>, actual: nat) returns (ok: bool, ghost stored: nat)
      requires actual + 1 == |buf| && Stored(start, buf, actual) && Pairs(log, start) && !second
      modifies this
      ensures actual <= stored <= |buf| && Stored(start, buf, stored) && Shaped(log, start) && (ok ==> stored == |buf|)
      ensures faults >= old(faults) && (ok <==> faults == old(faults))
      ensures !old(busy) ==> lost == old(lost)
      ensures ok ==> !busy && !latch
    {
      SetLatch(true);
      ghost var before := log;
      opcode, stored := BYTE_PROGRAM, actual;
      ok := WriteNext(start, buf, actual, 1);
      if !ok {
        return;
      }
      stored := |buf|;
      ok := WaitTillReady();
      if ok {
        SetLatch(false);
      }
    }

    /** The loop over pairs, from an even address on. */
    method WritePairs(start: nat, buf: seq<byte>, from: nat) returns (ok: bool, actual: nat, ghost stored: nat)
      requires (start + from) % 2 == 0 && Stored(start, buf, from) && Pairs(log, start)
      requires from == start % 2 == |log| && latch && !second
      modifies this
      ensures from <= actual <= stored && Stored(start, buf, stored) && Pairs(log, start)
      ensures ok ==> actual == stored && |buf| - 1 <= actual
      ensures ok <==> faults == old(faults)
      ensures faults >= old(faults)
      ensures !old(busy) ==> lost == old(lost) && (ok ==> !busy)
    {
      actual, stored := from, from;
      while actual < |buf| - 1
        invariant from <= actual == stored && (start + actual) % 2 == 0 && Stored(start, buf, actual) && Pairs(log, start)
        invariant faults == old(faults) && latch && second == (|log| > from) && |log| >= from
        invariant !old(busy) ==> lost == old(lost) && !busy
        decreases |buf| - actual
      {
        opcode := WORD_PROGRAM;
        ok := WriteNext(start, buf, actual, 2);
        if !ok {
          return false, actual, stored;
        }
        stored := actual + 2;
        var ready := WaitTillReady();
        if !ready {
          return false, actual, stored;
        }
        actual := actual + 2;
        second := true;
      }
      ok := true;
    }
  }

}
