/** Any number of attempts after a failed upgrade: the guard it left is there until an attempt
    gets as far as erasing it to write it again. */
module RepeatedAttempts {
  import opened NorFlash
  import opened SpiWire
  import opened FlashCommands
  import opened XspiFlasher
  import opened FlashSession
  import opened FlashSchedule
  import opened McsFile
  import opened UpgradePlan
  import opened UpgradeSafety
  import opened UpgradeRetry

  /** The parts and the one still selected, with what it has been sent. */
  datatype Bus = Bus(chips: seq<Chip>, selection: Selection, shifted: seq<byte>)

  ghost predicate ValidBus(b: Bus) {
    |b.chips| == 2 && b.chips[0].Valid() && b.chips[1].Valid()
  }

  // --- Commands that stay away from the guard ---

  /** The page a command names with its first two address bytes. */
  function PageNamed(c: Chip, bytes: seq<byte>): nat
    requires c.Valid() && |bytes| >= 3
  {
    var high: int, middle: int := bytes[1], bytes[2];
    c.Locate(high * BLOCK_SIZE + middle * PAGE_SIZE)
  }

  /** However status polls may go on with these bytes, what they end as spares the guard. */
  predicate Tame(c: Chip, pending: seq<byte>, start: nat)
    requires c.Valid()
  {
    || Harmless(pending)
    || (&& c.ear < c.segments
        && if |pending| < 3 then start % BLOCK_SIZE != 0
           else PageNamed(c, pending) / SUBSECTOR_SIZE != start / SUBSECTOR_SIZE)
  }

  lemma {:induction false} InSegment(c: Chip, a: nat)
    requires c.Valid() && c.ear < c.segments && a < SEGMENT_SIZE
    ensures c.Locate(a) == a + c.ear * SEGMENT_SIZE
  {
  }

  lemma {:induction false} SegmentInBlocks(a: nat, ear: nat)
    ensures (a + ear * SEGMENT_SIZE) % BLOCK_SIZE == a % BLOCK_SIZE
  {
    var q, r := a / BLOCK_SIZE, a % BLOCK_SIZE;
    assert a + ear * SEGMENT_SIZE == (ear * 0x100 + q) * BLOCK_SIZE + r;
    Offset(ear * 0x100 + q, r);
  }

  lemma {:induction false} Offset(block: nat, r: nat)
    requires r < BLOCK_SIZE
    ensures (block * BLOCK_SIZE + r) % BLOCK_SIZE == r
  {
  }

  /** The first subsector of a block is not one that starts elsewhere. */
  lemma {:induction false} OffBlock(a: nat, start: nat)
    requires a % BLOCK_SIZE < SUBSECTOR_SIZE && start % SUBSECTOR_SIZE == 0 && start % BLOCK_SIZE != 0
    ensures a / SUBSECTOR_SIZE != start / SUBSECTOR_SIZE
  {
    var q := a / BLOCK_SIZE;
    assert a / SUBSECTOR_SIZE == q * 16;
    assert start == start / SUBSECTOR_SIZE * SUBSECTOR_SIZE;
  }

  /** More bytes of a status poll keep a command tame. */
  lemma {:induction false} TameGrows(c: Chip, pending: seq<byte>, start: nat, more: seq<byte>)
    requires c.Valid() && Tame(c, pending, start) && start % SUBSECTOR_SIZE == 0 && more <= Probe(0)
    ensures Tame(c, pending + more, start)
  {
    var bytes := pending + more;
    if Harmless(pending) || |bytes| < 3 || |pending| >= 3 {
    } else {
      assert more[0] == CMD_STATUS_READ && (|more| == 2 ==> more[1] == 0);
      var high: int, middle: int := bytes[1], bytes[2];
      assert middle == 0 || middle == CMD_STATUS_READ;
      var a := high * BLOCK_SIZE + middle * PAGE_SIZE;
      InSegment(c, a);
      SegmentInBlocks(a, c.ear);
      OffBlock(PageNamed(c, bytes), start);
    }
  }

  lemma {:induction false} NamedPage(c: Chip, bytes: seq<byte>)
    requires c.Valid() && c.ear < c.segments && |bytes| >= 4
    ensures c.Locate(Address24(bytes)) / PAGE_SIZE == PageNamed(c, bytes) / PAGE_SIZE
  {
    var high: int, middle: int, low: int, ear: int := bytes[1], bytes[2], bytes[3], c.ear;
    InSegment(c, high * BLOCK_SIZE + middle * PAGE_SIZE);
    InSegment(c, Address24(bytes));
    var page := ear * 0x1_0000 + high * 0x100 + middle;
    assert PageNamed(c, bytes) == page * PAGE_SIZE && c.Locate(Address24(bytes)) == page * PAGE_SIZE + low;
  }

  /** What a tame command does when it ends spares the guard. */
  lemma {:induction false} TameSpares(c: Chip, pending: seq<byte>, start: nat)
    requires c.Valid() && Tame(c, pending, start) && start % SUBSECTOR_SIZE == 0 && Guarded(c.mem, start, GuardPage())
    ensures Guarded(Execute(c, pending).mem, start, GuardPage())
  {
    var command := Decode(c, pending);
    if command.Change? {
      NamedPage(c, pending);
      PageInSubsector(command.op.addr, PageNamed(c, pending));
      ApartSpares(c.mem, command.op, start);
    }
  }

  lemma {:induction false} ApartSpares(mem: seq<byte>, op: FlashOp, start: nat)
    requires Guarded(mem, start, GuardPage()) && start % SUBSECTOR_SIZE == 0
    requires op.addr / SUBSECTOR_SIZE != start / SUBSECTOR_SIZE
    ensures Guarded(Apply(mem, op), start, GuardPage())
  {
    forall y: nat | start <= y < start + GUARD_SIZE ensures !Touches(op, y) {
      SameSubsector(start, y);
      if op.Program? && Touches(op, y) {
        PageInSubsector(op.addr, y);
      }
    }
  }

  /** The command for an operation above the guard, cut where the FIFO had run empty. */
  lemma {:induction false} ConfinedIsTame(c: Chip, pending: seq<byte>, op: FlashOp, depth: nat, start: nat)
    requires c.Valid() && Confined(c, pending, op, depth) && start % SUBSECTOR_SIZE == 0 && start + GUARD_SIZE <= op.addr
    requires depth >= 3 || start % BLOCK_SIZE != 0
    ensures Tame(c, pending, start)
  {
    if Harmless(pending) {
    } else if |pending| >= 3 {
      NamesItsPage(c, pending, op);
      PageInSubsector(PageNamed(c, pending), op.addr);
    } else if depth >= 3 {
      DeepFifo(|pending|, CommandLength(op), depth);
    }
  }

  lemma {:induction false} NamesItsPage(c: Chip, pending: seq<byte>, op: FlashOp)
    requires c.Valid() && PartOf(pending, op) && |pending| >= 3
    requires op.addr < ADDRESS_SPACE && c.ear == GetSector(op.addr) < c.segments
    ensures PageNamed(c, pending) / PAGE_SIZE == op.addr / PAGE_SIZE
  {
    var page := op.addr / PAGE_SIZE;
    assert pending[1] == page / 0x100 % 0x100 && pending[2] == page % 0x100 by {
      assert pending[..3] == Header(pending[0], op.addr)[..3];
      assert pending[1] == pending[..3][1] && pending[2] == pending[..3][2];
    }
    InSegment(c, page / 0x100 % 0x100 * BLOCK_SIZE + page % 0x100 * PAGE_SIZE);
    ThreeDigits(page);
    assert op.addr / SEGMENT_SIZE == page / 0x1_0000 < 16;
  }

  lemma {:induction false} ThreeDigits(page: nat)
    ensures page / 0x100 % 0x100 * BLOCK_SIZE + page % 0x100 * PAGE_SIZE + page / 0x1_0000 * SEGMENT_SIZE == page * PAGE_SIZE
  {
    var q := page / 0x100;
    assert page / 0x1_0000 == q / 0x100;
  }

  // --- Attempts ---

  /** The part has its guard, and no command begun on it can cost it the guard. */
  ghost predicate Held(b: Bus, part: nat, start: nat) {
    && ValidBus(b) && part < 2 && Guarded(b.chips[part].mem, start, GuardPage())
    && (b.selection == Slave(part) ==> Tame(b.chips[part], b.shifted, start))
  }

  /** What the first status poll of an attempt on either part leaves when it fails. */
  ghost predicate FailedPoll(before: Bus, after: Bus, slave: nat, first: Chip, depth: nat) {
    && ValidBus(before) && slave < 2 && first == before.chips[slave].(busy := first.busy)
    && (|| after == before
        || (&& after.chips == Released(before.chips, before.selection, before.shifted, slave)[slave := first]
            && after.selection == Slave(slave)
            && CutAt(after.shifted, Carried(before.selection, before.shifted, slave), Probe(0), depth)))
  }

  lemma {:induction false} FailedPollHolds(before: Bus, after: Bus, slave: nat, first: Chip, depth: nat, part: nat, start: nat)
    requires FailedPoll(before, after, slave, first, depth) && Held(before, part, start) && start % SUBSECTOR_SIZE == 0
    ensures Held(after, part, start)
  {
    if after == before {
    } else if slave == part {
      var base := Carried(before.selection, before.shifted, slave);
      var more := after.shifted[|base|..];
      assert after.shifted == base + more && more <= Probe(0) by {
        assert (base + Probe(0))[|base|..] == Probe(0);
      }
      TameGrows(first, base, start, more);
    } else if before.selection == Slave(part) {
      TameSpares(before.chips[part], before.shifted, start);
    }
  }

  /** An upgrade whose first poll failed is such an attempt. */
  lemma {:induction false} NotBegunIsFailedPoll(f: Flasher, before: Bus, first: Chip, settled: seq<Chip>)
    requires FirstPoll(before.chips, before.selection, before.shifted, f.slave, first, settled, 0)
    requires NotBegun(f, before.chips, before.selection, before.shifted, first, 0)
    ensures FailedPoll(before, BusOf(f), f.slave, first, f.spi.depth)
  {
  }

  ghost function BusOf(f: Flasher): Bus
    reads f, f.spi
  {
    Bus(f.spi.chips, f.spi.selection, f.spi.shifted)
  }

  datatype Attempt = Attempt(slave: nat, first: Chip, after: Bus)

  /** Attempts in a row, each failing at its first poll. */
  ghost predicate FailedPolls(b: Bus, attempts: seq<Attempt>, depth: nat)
    decreases |attempts|
  {
    attempts == [] ||
    (&& FailedPoll(b, attempts[0].after, attempts[0].slave, attempts[0].first, depth)
     && FailedPolls(attempts[0].after, attempts[1..], depth))
  }

  function Last(b: Bus, attempts: seq<Attempt>): Bus {
    if attempts == [] then b else attempts[|attempts| - 1].after
  }

  lemma {:induction false} FailedPollsHold(b: Bus, attempts: seq<Attempt>, depth: nat, part: nat, start: nat)
    requires FailedPolls(b, attempts, depth) && Held(b, part, start) && start % SUBSECTOR_SIZE == 0
    ensures Held(Last(b, attempts), part, start)
    decreases |attempts|
  {
    if attempts == [] {
    } else {
      var a := attempts[0];
      FailedPollHolds(b, a.after, a.slave, a.first, depth, part, start);
      FailedPollsHold(a.after, attempts[1..], depth, part, start);
      assert Last(a.after, attempts[1..]) == Last(b, attempts);
    }
  }

  /** A poll that goes through leaves the guard. */
  lemma {:induction false} PollHolds(b: Bus, slave: nat, first: Chip, settled: seq<Chip>, part: nat, start: nat)
    requires FirstPoll(b.chips, b.selection, b.shifted, slave, first, settled, 0)
    requires Held(b, part, start) && start % SUBSECTOR_SIZE == 0
    ensures Guarded(settled[part].mem, start, GuardPage())
  {
    if slave == part {
      var base := Carried(b.selection, b.shifted, slave);
      TameGrows(first, base, start, Probe(0));
      TameSpares(first, base + Probe(0), start);
    } else if b.selection == Slave(part) {
      TameSpares(b.chips[part], b.shifted, start);
    }
  }

  /** A run that failed while its guard was up holds it. */
  lemma {:induction false} FailedRunHolds(f: Flasher, prior: seq<Chip>, lines: seq<Line>, recs: seq<Record>, start: nat, k: nat)
    requires Located(lines, recs) && Guardable(recs, start)
    requires StoppedAt(f, prior, RunPlan(lines, recs, start), k)
    requires 2 <= k < 2 + |Body(PlanFrom(lines, 0, recs, GUARD_SIZE).blocks)|
    requires f.spi.depth >= 3 || start % BLOCK_SIZE != 0
    ensures Held(BusOf(f), f.slave, start)
  {
    StoppedInPart(f, prior, lines, recs, start, k);
    FailedRunIsGuarded(f, prior, lines, recs, start, k);
    var op := NextOpHigh(lines, recs, start, k);
    ConfinedIsTame(f.spi.chips[f.slave], f.spi.shifted, op, f.spi.depth, start);
  }

  lemma {:induction false} NextOpHigh(lines: seq<Line>, recs: seq<Record>, start: nat, k: nat) returns (op: FlashOp)
    requires Located(lines, recs) && Guardable(recs, start)
    requires 2 <= k < 2 + |Body(PlanFrom(lines, 0, recs, GUARD_SIZE).blocks)|
    ensures k < |RunPlan(lines, recs, start)| && op == RunPlan(lines, recs, start)[k] && start + GUARD_SIZE <= op.addr
  {
    var body := Body(PlanFrom(lines, 0, recs, GUARD_SIZE).blocks);
    op := body[k - 2];
    PlanIsHigh(lines, 0, recs, GUARD_SIZE, start + GUARD_SIZE);
    BodyIsHigh(PlanFrom(lines, 0, recs, GUARD_SIZE).blocks, start + GUARD_SIZE);
  }

  /** The guard of a failed run outlives any number of attempts, on either part, that fail at
      their first poll, and the first poll that goes through. */
  lemma {:induction false} GuardOutlivesAttempts(
      f: Flasher, prior: seq<Chip>, lines: seq<Line>, recs: seq<Record>, start: nat, k: nat,
      attempts: seq<Attempt>, slave: nat, first: Chip, settled: seq<Chip>)
    requires Located(lines, recs) && Guardable(recs, start)
    requires StoppedAt(f, prior, RunPlan(lines, recs, start), k)
    requires 2 <= k < 2 + |Body(PlanFrom(lines, 0, recs, GUARD_SIZE).blocks)|
    requires f.spi.depth >= 3 || start % BLOCK_SIZE != 0
    requires FailedPolls(BusOf(f), attempts, f.spi.depth)
    requires var b := Last(BusOf(f), attempts); FirstPoll(b.chips, b.selection, b.shifted, slave, first, settled, 0)
    ensures Guarded(Last(BusOf(f), attempts).chips[f.slave].mem, start, GuardPage())
    ensures Guarded(settled[f.slave].mem, start, GuardPage())
  {
    FailedRunHolds(f, prior, lines, recs, start, k);
    FailedPollsHold(BusOf(f), attempts, f.spi.depth, f.slave, start);
    PollHolds(Last(BusOf(f), attempts), slave, first, settled, f.slave, start);
  }
}
