/** Starting an upgrade again after one that failed: whether the guard that the failed one
    left in the flash outlives the new start. */
module UpgradeRetry {
  import opened NorFlash
  import opened SpiWire
  import opened FlashCommands
  import opened XspiFlasher
  import opened FlashSession
  import opened FlashSchedule
  import opened McsFile
  import opened UpgradePlan
  import opened UpgradeSafety

  const BLOCK_SIZE := 0x1_0000  // what the first address byte of a command selects

  function BlockStart(a: nat): nat {
    a / BLOCK_SIZE * BLOCK_SIZE
  }

  // --- A broken-off command, ended by the two bytes of a status poll ---

  lemma {:induction false} CutEraseAddress(c: Chip, a: nat, x: byte)
    requires c.Valid() && a < ADDRESS_SPACE && c.ear == GetSector(a) < c.segments
    ensures var bytes := [CMD_SUBSECTOR_ERASE, a / BLOCK_SIZE % 0x100, CMD_STATUS_READ, x];
      c.Locate(Address24(bytes)) == BlockStart(a) + 0x500 + x
  {
    var q := a / BLOCK_SIZE;
    assert a / SEGMENT_SIZE == q / 0x100 < 16;
    assert q % 0x100 * BLOCK_SIZE + q / 0x100 * SEGMENT_SIZE == q * BLOCK_SIZE;
    assert q % 0x100 * BLOCK_SIZE + 0x500 + x < SEGMENT_SIZE;
  }

  /** Cut after its first address byte, an erase turns into the erase of the first subsector of
      its 64 KB block; cut anywhere else it does nothing. */
  lemma {:induction false} EndedErase(c: Chip, pending: seq<byte>, a: nat, x: byte)
    requires c.Valid() && a < ADDRESS_SPACE && c.ear == GetSector(a) < c.segments
    requires pending <= Header(CMD_SUBSECTOR_ERASE, a) && pending != []
    ensures Decode(c, pending + Probe(x)) ==
      if |pending| == 2 && c.writeEnabled && !c.busy then Change(Erase(BlockStart(a) + 0x500 + x)) else Ignored
  {
    var bytes := pending + Probe(x);
    assert bytes[0] == CMD_SUBSECTOR_ERASE && |bytes| == |pending| + 2;
    if |pending| == 2 {
      assert bytes == [CMD_SUBSECTOR_ERASE, a / BLOCK_SIZE % 0x100, CMD_STATUS_READ, x];
      CutEraseAddress(c, a, x);
    }
  }

  lemma {:induction false} CutProgramAddress(c: Chip, cmd: byte, a: nat, bytes: seq<byte>)
    requires c.Valid() && a < ADDRESS_SPACE && c.ear == GetSector(a) < c.segments
    requires |bytes| >= 4 && bytes[..3] == Header(cmd, a)[..3]
    ensures c.Locate(Address24(bytes)) / PAGE_SIZE == a / PAGE_SIZE
  {
    var q, b: int := a / PAGE_SIZE, bytes[3];
    assert bytes[1] == bytes[..3][1] == q / 0x100 % 0x100 && bytes[2] == bytes[..3][2] == q % 0x100;
    assert a / SEGMENT_SIZE == q / 0x1_0000 < 16;
    assert q / 0x100 % 0x100 * 0x1_0000 + q % 0x100 * 0x100 + q / 0x1_0000 * SEGMENT_SIZE == q * PAGE_SIZE;
    assert (q * PAGE_SIZE + b) / PAGE_SIZE == q;
  }

  /** Wherever it is cut, a program stays in its page. */
  lemma {:induction false} EndedProgram(c: Chip, pending: seq<byte>, cmd: byte, a: nat, data: seq<byte>, x: byte)
    requires c.Valid() && a < ADDRESS_SPACE && c.ear == GetSector(a) < c.segments
    requires cmd == CMD_PAGE_PROGRAM || cmd == CMD_QUAD_WRITE
    requires pending <= Header(cmd, a) + data && pending != []
    ensures var command := Decode(c, pending + Probe(x));
      command.Change? ==> command.op.Program? && command.op.addr / PAGE_SIZE == a / PAGE_SIZE
  {
    var bytes := pending + Probe(x);
    assert bytes[0] == cmd && |bytes| == |pending| + 2;
    if |pending| >= 3 {
      assert bytes[..3] == pending[..3] == (Header(cmd, a) + data)[..3] == Header(cmd, a)[..3];
      CutProgramAddress(c, cmd, a, bytes);
    }
  }

  // --- The guard ---

  /** An erase command cut after two bytes, on a part that will carry out what it turns into. */
  predicate TornErase(c: Chip, pending: seq<byte>) {
    |pending| == 2 && pending[0] == CMD_SUBSECTOR_ERASE && c.writeEnabled && !c.busy
  }

  /** An erased guard is no guard: its fifth byte is 0. */
  lemma {:induction false} LostIfErased(mem: seq<byte>, a: nat, start: nat)
    requires start + GUARD_SIZE <= |mem| && start % SUBSECTOR_SIZE == 0 && a / SUBSECTOR_SIZE == start / SUBSECTOR_SIZE
    ensures !Guarded(Apply(mem, Erase(a)), start, GuardPage())
  {
    var x := start + CHUNK + 4;
    assert GuardPage()[4] == 0;
    assert Touches(Erase(a), x);
    assert Apply(mem, Erase(a))[x] == ERASED;
    assert GuardCell(GuardPage(), x - start) == 0;
  }

  lemma {:induction false} SamePageApart(a: nat, op: FlashOp, start: nat, x: nat)
    requires op.Program? && op.addr / PAGE_SIZE == a / PAGE_SIZE && start % SUBSECTOR_SIZE == 0
    requires !(start <= a < start + GUARD_SIZE) && start <= x < start + GUARD_SIZE
    ensures !Touches(op, x)
  {
    SameSubsector(start, x);
    assert a / SUBSECTOR_SIZE != start / SUBSECTOR_SIZE;
    if Touches(op, x) {
      PageInSubsector(a, x);
    }
  }

  lemma {:induction false} PageInSubsector(a: nat, b: nat)
    requires a / PAGE_SIZE == b / PAGE_SIZE
    ensures a / SUBSECTOR_SIZE == b / SUBSECTOR_SIZE
  {
    assert a / SUBSECTOR_SIZE == a / PAGE_SIZE / 16 && b / SUBSECTOR_SIZE == b / PAGE_SIZE / 16;
  }

  lemma {:induction false} BlockErased(a: nat, start: nat, x: byte)
    requires start % SUBSECTOR_SIZE == 0
    ensures (BlockStart(a) + 0x500 + x) / SUBSECTOR_SIZE == start / SUBSECTOR_SIZE <==> BlockStart(a) == start
  {
  }

  /** The first status poll of a new session keeps the guard exactly when it does not end an
      erase, cut after two bytes, in the 64 KB block that the guard begins. */
  lemma {:induction false} PollKeepsGuardIff(c: Chip, pending: seq<byte>, op: FlashOp, depth: nat, start: nat, x: byte)
    requires c.Valid() && Confined(c, pending, op, depth) && start % SUBSECTOR_SIZE == 0
    requires Guarded(c.mem, start, GuardPage()) && (op.Program? ==> !(start <= op.addr < start + GUARD_SIZE))
    ensures Guarded(Execute(c, pending + Probe(x)).mem, start, GuardPage()) <==>
      !(TornErase(c, pending) && BlockStart(op.addr) == start)
  {
    if Harmless(pending) {
      HarmlessMeaning(c, pending, Probe(x));
    } else if op.Erase? {
      EndedErase(c, pending, op.addr, x);
      EraseEffect(c, pending, op.addr, start, x);
    } else {
      ProgramEffect(c, pending, op, start, x);
    }
  }

  lemma {:induction false} EraseEffect(c: Chip, pending: seq<byte>, a: nat, start: nat, x: byte)
    requires c.Valid() && start % SUBSECTOR_SIZE == 0 && Guarded(c.mem, start, GuardPage())
    requires |pending| == 2 && c.writeEnabled && !c.busy ==>
      Decode(c, pending + Probe(x)) == Change(Erase(BlockStart(a) + 0x500 + x))
    requires !(|pending| == 2 && c.writeEnabled && !c.busy) ==> Decode(c, pending + Probe(x)) == Ignored
    ensures Guarded(Execute(c, pending + Probe(x)).mem, start, GuardPage()) <==>
      !(|pending| == 2 && c.writeEnabled && !c.busy && BlockStart(a) == start)
  {
    if |pending| == 2 && c.writeEnabled && !c.busy {
      var e := BlockStart(a) + 0x500 + x;
      BlockErased(a, start, x);
      if BlockStart(a) == start {
        LostIfErased(c.mem, e, start);
      } else {
        forall y: nat | start <= y < start + GUARD_SIZE ensures !Touches(Erase(e), y) {
          SameSubsector(start, y);
        }
      }
    }
  }

  lemma {:induction false} SameSubsector(start: nat, y: nat)
    requires start % SUBSECTOR_SIZE == 0 && start <= y < start + SUBSECTOR_SIZE
    ensures y / SUBSECTOR_SIZE == start / SUBSECTOR_SIZE
  {
  }

  lemma {:induction false} ProgramEffect(c: Chip, pending: seq<byte>, op: FlashOp, start: nat, x: byte)
    requires c.Valid() && op.Program? && PartOf(pending, op) && pending != []
    requires op.addr < ADDRESS_SPACE && c.ear == GetSector(op.addr) < c.segments
    requires start % SUBSECTOR_SIZE == 0 && Guarded(c.mem, start, GuardPage()) && !(start <= op.addr < start + GUARD_SIZE)
    ensures Guarded(Execute(c, pending + Probe(x)).mem, start, GuardPage()) && !TornErase(c, pending)
  {
    var cmd := pending[0];
    assert cmd == CMD_PAGE_PROGRAM || cmd == CMD_QUAD_WRITE;
    EndedProgram(c, pending, cmd, op.addr, op.data, x);
    var command := Decode(c, pending + Probe(x));
    if command.Change? {
      forall y: nat | start <= y < start + GUARD_SIZE ensures !Touches(command.op, y) {
        SamePageApart(op.addr, command.op, start, y);
      }
    }
  }

  // --- After a failed run ---

  /** The FIFO never runs empty two bytes into an erase if it holds three or more. */
  lemma {:induction false} DeepFifo(m: nat, n: nat, depth: nat)
    requires depth >= 3 && 0 < m < 3 && n >= 3
    ensures !AtBoundary(m, n, depth)
  {
  }

  /** A run failed while its guard was up, and a new one polls the part.  The guard is still
      there exactly when the failed run was not cut two bytes into the erase of a subsector
      in the 64 KB block that starts with the guard. */
  lemma {:induction false} RetryKeepsGuardIff(
      f: Flasher, prior: seq<Chip>, lines: seq<Line>, recs: seq<Record>, start: nat, k: nat, first: Chip, x: byte)
    requires Located(lines, recs) && Guardable(recs, start)
    requires StoppedAt(f, prior, RunPlan(lines, recs, start), k)
    requires 2 <= k < |RunPlan(lines, recs, start)|
    requires k <= 2 + |Body(PlanFrom(lines, 0, recs, GUARD_SIZE).blocks)|
    requires first == f.spi.chips[f.slave].(busy := first.busy)
    ensures var pending := Carried(f.spi.selection, f.spi.shifted, f.slave);
      Guarded(Settle(f.spi.chips, f.spi.selection, f.spi.shifted, f.slave, first, x)[f.slave].mem, start, GuardPage()) <==>
      !(TornErase(first, pending) && BlockStart(RunPlan(lines, recs, start)[k].addr) == start)
  {
    var op := RunPlan(lines, recs, start)[k];
    var pending := Carried(f.spi.selection, f.spi.shifted, f.slave);
    StoppedInPart(f, prior, lines, recs, start, k);
    FailedRunIsGuarded(f, prior, lines, recs, start, k);
    NextOpApart(lines, recs, start, k);
    assert Confined(first, pending, op, f.spi.depth);
    PollKeepsGuardIff(first, pending, op, f.spi.depth, start, x);
  }

  /** With a FIFO of three bytes or more, or a guard not at the start of a 64 KB block, every
      failed run leaves a guard that outlives the first poll of the next. */
  lemma {:induction false} RetryKeepsGuard(
      f: Flasher, prior: seq<Chip>, lines: seq<Line>, recs: seq<Record>, start: nat, k: nat, first: Chip, x: byte)
    requires Located(lines, recs) && Guardable(recs, start)
    requires StoppedAt(f, prior, RunPlan(lines, recs, start), k)
    requires 2 <= k < |RunPlan(lines, recs, start)|
    requires k <= 2 + |Body(PlanFrom(lines, 0, recs, GUARD_SIZE).blocks)|
    requires first == f.spi.chips[f.slave].(busy := first.busy)
    requires f.spi.depth >= 3 || start % BLOCK_SIZE != 0
    ensures Guarded(Settle(f.spi.chips, f.spi.selection, f.spi.shifted, f.slave, first, x)[f.slave].mem, start, GuardPage())
  {
    var op := RunPlan(lines, recs, start)[k];
    var pending := Carried(f.spi.selection, f.spi.shifted, f.slave);
    RetryKeepsGuardIff(f, prior, lines, recs, start, k, first, x);
    NotTorn(first, pending, op, f.spi.depth, start);
  }

  lemma {:induction false} NotTorn(c: Chip, pending: seq<byte>, op: FlashOp, depth: nat, start: nat)
    requires Confined(c, pending, op, depth) && (depth >= 3 || start % BLOCK_SIZE != 0)
    ensures !(TornErase(c, pending) && BlockStart(op.addr) == start)
  {
    if TornErase(c, pending) && depth >= 3 {
      DeepFifo(2, CommandLength(op), depth);
    }
  }

  /** The next operation of a guarded run is an erase or programs above the guard. */
  lemma {:induction false} NextOpApart(lines: seq<Line>, recs: seq<Record>, start: nat, k: nat)
    requires Located(lines, recs) && Guardable(recs, start) && 2 <= k < |RunPlan(lines, recs, start)|
    requires k <= 2 + |Body(PlanFrom(lines, 0, recs, GUARD_SIZE).blocks)|
    ensures var op := RunPlan(lines, recs, start)[k]; op.Program? ==> !(start <= op.addr < start + GUARD_SIZE)
  {
    var body := Body(PlanFrom(lines, 0, recs, GUARD_SIZE).blocks);
    var op := RunPlan(lines, recs, start)[k];
    if op.Program? {
      assert op == body[k - 2];
      PlanIsHigh(lines, 0, recs, GUARD_SIZE, start + GUARD_SIZE);
      BodyIsHigh(PlanFrom(lines, 0, recs, GUARD_SIZE).blocks, start + GUARD_SIZE);
    }
  }

  /** A new run over a guarded part is unguarded after its first operation, and only then: it
      erases the guard before it writes it again. */
  lemma {:induction false} UnguardedOnlyAfterFirst(mem: seq<byte>, lines: seq<Line>, recs: seq<Record>, start: nat, k: nat)
    requires Located(lines, recs) && Guardable(recs, start) && Guarded(mem, start, GuardPage())
    requires k <= 2 + |Body(PlanFrom(lines, 0, recs, GUARD_SIZE).blocks)|
    ensures k <= |RunPlan(lines, recs, start)|
    ensures Guarded(ApplyAll(mem, RunPlan(lines, recs, start)[..k]), start, GuardPage()) <==> k != 1
  {
    var plan := RunPlan(lines, recs, start);
    if k == 0 {
      assert plan[..0] == [];
    } else if k == 1 {
      assert plan[..1] == [Erase(start)] && [Erase(start)][..0] == [];
      LostIfErased(mem, start, start);
    } else {
      InterruptedRunIsGuarded(mem, lines, recs, start, k, ApplyAll(mem, plan[..k]));
    }
  }
}
