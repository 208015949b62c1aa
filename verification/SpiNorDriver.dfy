/** The write path of SPI NOR flash through the ASMI parallel 2 controller. */
module SpiNorDriver {
  import opened Bits
  import opened Common
  import opened SpiNorWrite

  const FIFO_DEPTH := 0x200

  datatype Status = Ok | IoError

  /** How many data bytes fit in the FIFO behind the command and address bytes. */
  function Clamp(n: nat, addrWidth: nat): nat
    requires addrWidth <= 4
  {
    Min(n, Room(addrWidth))
  }

  function Room(addrWidth: nat): nat
    requires addrWidth <= 4
  {
    FIFO_DEPTH - (addrWidth + 1)
  }

  class AsmIp2 {
    const layout: Layout
    const addrWidth: nat
    const programOpcode: byte
    /** The commands the part takes for a page program. */
    const programCommands: set<byte>
    var fifo: seq<byte>
    var mem: nat -> byte
    ghost var faults: nat  // commands and waits that ran out of time
    ghost var busy: bool   // the part is at work on a command
    ghost var rushed: nat  // commands sent to a part at work

    constructor (layout: Layout, addrWidth: nat, programOpcode: byte, programCommands: set<byte>, mem: nat -> byte)
      requires 3 <= addrWidth <= 4 && programOpcode in programCommands
      ensures Configured() && fifo == [] && !busy && this.mem == mem && this.layout == layout && this.addrWidth == addrWidth
    {
      this.layout, this.addrWidth, this.programOpcode := layout, addrWidth, programOpcode;
      this.programCommands, fifo, this.mem := programCommands, [], mem;
      busy := false;
    }

    /** The driver has found out the part's address width and program command. */
    predicate Configured() {
      3 <= addrWidth <= 4 && programOpcode in programCommands
    }

    /** Pushes a byte; only a full FIFO would lose it. */
    method WriteByte(b: byte)
      requires |fifo| < FIFO_DEPTH
      modifies this`fifo
      ensures fifo == old(fifo) + [b]
    {
      fifo := fifo + [b];
    }

    /** Pushes an address, most significant byte first. */
    method PushOffset(offset: nat)
      requires |fifo| + addrWidth <= FIFO_DEPTH
      modifies this`fifo
      ensures fifo == old(fifo) + BigEndian(offset, addrWidth)
    {
      var i := addrWidth;
      while i > 0
        invariant 0 <= i <= addrWidth
        invariant |fifo| == |old(fifo)| + addrWidth - i
        invariant fifo == old(fifo) + BigEndian(offset, addrWidth)[..addrWidth - i]
      {
        i := i - 1;
        BigEndianDigit(offset, addrWidth, i);
        WriteByte(ShiftRight(offset, i) % 256);
      }
    }

    method WriteBytes(data: seq<byte>)
      requires |fifo| + |data| <= FIFO_DEPTH
      modifies this`fifo
      ensures fifo == old(fifo) + data
    {
      for i := 0 to |data|
        invariant fifo == old(fifo) + data[..i]
      {
        WriteByte(data[i]);
      }
    }

    /** Starts the command in the FIFO and polls for the FIFO to run empty.  If it
        does not in time, the part may or may not have taken the command; a command it does
        not know does nothing. */
    method Run() returns (ok: bool, ghost took: bool)
      requires |fifo| > 1 + addrWidth
      modifies this
      ensures var addr, data := FromBigEndian(old(fifo)[1..1 + addrWidth]), old(fifo)[1 + addrWidth..];
        took && old(fifo)[0] in programCommands ==>
          forall x {:trigger mem(x)} :: mem(x) == ProgramCell(layout, addr, data, x, old(mem)(x))
      ensures old(fifo)[0] !in programCommands ==> mem == old(mem)
      ensures !took ==> !ok && mem == old(mem)
      ensures ok ==> fifo == []
      ensures faults == old(faults) + (if ok then 0 else 1)
      ensures rushed == old(rushed) + (if old(busy) then 1 else 0) && (took ==> busy)
    {
      rushed := rushed + (if busy then 1 else 0);
      ok := *;
      if !ok {
        faults := faults + 1;
      }
      var taken: bool := *;
      took := ok || taken;
      busy := busy || took;
      if (ok || taken) && fifo[0] in programCommands {
        var g, addr, data, was := layout, FromBigEndian(fifo[1..1 + addrWidth]), fifo[1 + addrWidth..], mem;
        mem := x => ProgramCell(g, addr, data, x, was(x));
      }
      if ok {
        fifo := [];
      }
    }

    /** Programs as many bytes as fit in the FIFO behind the command; 0 means it timed out. */
    method Write(to: nat, data: seq<byte>) returns (written: nat, ghost took: bool)
      requires fifo == [] && data != [] && Configured() && to < Pow256(addrWidth)
      modifies this
      ensures var n := Clamp(|data|, addrWidth);
        took ==> forall x {:trigger mem(x)} :: mem(x) == ProgramCell(layout, to, data[..n], x, old(mem)(x))
      ensures !took ==> written == 0 && mem == old(mem)
      ensures written == 0 || (written == Clamp(|data|, addrWidth) == Min(|data|, 512 - 1 - addrWidth) && fifo == [])
      ensures faults == old(faults) + (if written == 0 then 1 else 0)
      ensures rushed == old(rushed) + (if old(busy) then 1 else 0)
    {
      var n := Clamp(|data|, addrWidth);
      WriteByte(programOpcode);
      PushOffset(to);
      WriteBytes(data[..n]);
      BigEndianRoundTrip(to, addrWidth);
      assert fifo[1..1 + addrWidth] == BigEndian(to, addrWidth) && fifo[1 + addrWidth..] == data[..n];
      var ok;
      ok, took := Run();
      written := if ok then n else 0;
    }

    /** The part works on the command; it may fail to become ready in time. */
    method WaitTillReady() returns (ok: bool)
      modifies this`faults, this`busy
      ensures faults == old(faults) + (if ok then 0 else 1) && busy == (old(busy) && !ok)
    {
      ok := *;
      if !ok {
        faults := faults + 1;
      }
      busy := busy && !ok;
    }

    /** Writes a buffer chunk by chunk, each within one page.  On any error retlen
        counts a prefix that has been programmed.  With no fault the write succeeds
        exactly when no page gets more bytes than fit in the FIFO. */
    method SpiNorWrite(to: nat, buf: seq<byte>) returns (status: Status, retlen: nat, ghost chunks: seq<Chunk>)
      requires fifo == [] && Configured() && !busy
      requires forall k :: to <= k < to + |buf| ==> Convert(layout, k) < Pow256(addrWidth)
      modifies this
      ensures retlen <= |buf| && (status.Ok? ==> retlen == |buf|)
      ensures status.Ok? ==> Exactly(layout, old(mem), mem, to, buf, |buf|)
      ensures Written(layout, old(mem), mem, to, buf, retlen)
      ensures Tiles(layout, chunks, to, to + retlen)
      ensures status.Ok? ==> faults == old(faults) && !busy
      ensures rushed == old(rushed)
      ensures faults == old(faults) ==> (status.Ok? <==> !LongChunk(layout, to, |buf|, Room(addrWidth)))
    {
      var i := 0;
      chunks := [];
      ghost var before := mem;
      while i < |buf|
        invariant i <= |buf| && fifo == [] && Exactly(layout, before, mem, to, buf, i)
        invariant Tiles(layout, chunks, to, to + i)
        invariant !busy && rushed == old(rushed)
        invariant faults == old(faults) && !LongChunk(layout, to, i, Room(addrWidth))
        invariant i == 0 || i == |buf| || PageStart(layout, to + i)
      {
        var addr := to + i;
        var remain := ChunkLength(layout, addr, |buf| - i);
        var written, ready := WriteChunk(addr, buf[i..i + remain], before, to, buf, i);
        if !ready {
          return IoError, i, chunks;
        }
        ChunkRoom(layout, to, i, remain, |buf|, Room(addrWidth));
        if written > 0 {
          InPageLess(layout, addr, remain, written);
          chunks := chunks + [Chunk(addr, written)];
        }
        i := i + written;
        if written != remain {
          if written > 0 {
            ExactIsWritten(layout, before, mem, to, buf, i, i);
          }
          return IoError, i, chunks;
        }
      }
      ExactIsWritten(layout, before, mem, to, buf, i, i);
      return Ok, i, chunks;
    }

    /** One chunk: convert the address, program, wait. */
    method WriteChunk(addr: nat, data: seq<byte>, ghost before: nat -> byte, ghost to: nat, ghost buf: seq<byte>, ghost i: nat)
        returns (written: nat, ready: bool)
      requires fifo == [] && Configured() && !busy && data != [] && InPage(layout, addr, |data|)
      requires Convert(layout, addr) < Pow256(addrWidth)
      requires addr == to + i && i + |data| <= |buf| && data == buf[i..i + |data|]
      requires Exactly(layout, before, mem, to, buf, i)
      modifies this
      ensures written <= |data| && rushed == old(rushed) && (ready ==> !busy)
      ensures ready && written == |data| ==> fifo == []
      ensures ready && written > 0 ==> Exactly(layout, before, mem, to, buf, i + written)
      ensures ready && written == 0 ==> Written(layout, before, mem, to, buf, i)
      ensures !ready ==> Written(layout, before, mem, to, buf, i)
      ensures if ready && written > 0 then faults == old(faults) && written == Clamp(|data|, addrWidth) else faults > old(faults)
    {
      var n := Clamp(|data|, addrWidth);
      ghost var was := mem;
      var part := Convert(layout, addr);
      ghost var took;
      written, took := Write(part, data);
      if !took {
        ExactIsWritten(layout, before, mem, to, buf, i, i);
      } else {
        assert data[..n] == buf[i..i + n];
        ChunkExact(layout, before, was, mem, to, buf, i, n);
        ExactIsWritten(layout, before, mem, to, buf, i + n, i);
      }
      ready := WaitTillReady();
    }
  }
}
