/** The case in which a second attempt costs the guard: a FIFO of one or two bytes, and a guard
    at the start of a 64 KB block. */
module GuardLoss {
  import opened NorFlash
  import opened SpiWire
  import opened FlashCommands
  import opened XspiFlasher
  import opened FlashSession
  import opened FlashSchedule
  import opened McsFile
  import opened UpgradePlan
  import opened XspiUpgrade
  import opened UpgradeSafety
  import opened UpgradeRetry
  import opened FirmwareUpgrade

  /** A well-formed file whose records are well placed, start at a 64 KB block other than the
      first, and begin with one that is not empty. */
  ghost predicate Exposed(lines: seq<Line>) {
    && RecordsOf(lines) != [] && WellFormed(lines) && WellPlaced(lines)
    && StartOf(lines) != 0 && StartOf(lines) % BLOCK_SIZE == 0 && RecordsOf(lines)[0].end > StartOf(lines)
  }

  /** The third operation of the run erases the subsector after the guard. */
  lemma {:induction false} FirstErase(lines: seq<Line>, recs: seq<Record>, start: nat)
    requires Located(lines, recs) && recs != [] && start != 0 && recs[0].start == start < recs[0].end
    ensures |Body(PlanFrom(lines, 0, recs, GUARD_SIZE).blocks)| > 0
    ensures |RunPlan(lines, recs, start)| > 2 && RunPlan(lines, recs, start)[2] == Erase(start + GUARD_SIZE)
  {
    PlanErases(lines, 0, recs, GUARD_SIZE);
    var body := Body(PlanFrom(lines, 0, recs, GUARD_SIZE).blocks);
    assert body[0] == Erase(start + GUARD_SIZE);
  }

  /** The first attempt, on an idle controller, is cut two bytes into that erase.  Its guard is
      up. */
  ghost predicate CutShort(chips: seq<Chip>, selection: Selection, shifted: seq<byte>, slave: nat, depth: nat, start: nat) {
    && |chips| == 2 && slave < 2 && selection == Slave(slave)
    && Guarded(chips[slave].mem, start, GuardPage()) && TornErase(chips[slave], shifted)
    && Confined(chips[slave], shifted, Erase(start + GUARD_SIZE), depth)
  }

  lemma {:induction false} TwoBytes(m: nat, depth: nat)
    requires 1 <= depth <= 2 && 2 <= m < 2 + depth && AtBoundary(m, EXTRA_BYTES, depth)
    ensures m == 2
  {
    assert !Multiple(1, 2);
  }

  lemma {:induction false} CutIsTorn(f: Flasher, before: nat, op: FlashOp)
    requires CutAsForeseen(f, before, op) && Confined(f.spi.chips[f.slave], f.spi.shifted, op, f.spi.depth)
    requires 1 <= f.spi.depth <= 2 && f.forecast.bytes == 2
    ensures TornErase(f.spi.chips[f.slave], f.spi.shifted) && f.spi.selection == Slave(f.slave)
  {
    assert f.spi.shifted[0] == CMD_SUBSECTOR_ERASE;
    TwoBytes(|f.spi.shifted|, f.spi.depth);
  }

  /** Two operations done, the run is at the erase foreseen to be cut. */
  lemma {:induction false} StopsAtThird(
      f: Flasher, plan: seq<FlashOp>, start: nat, outcome: Outcome, k: nat, settled: seq<Chip>)
    requires |settled| == 2 && f.slave < 2 && |plan| > 2 && plan[..3] == GuardOps(start, GuardPage()) + [Erase(start + GUARD_SIZE)]
    requires start + 2 * GUARD_SIZE <= |settled[f.slave].mem| && !outcome.Crashed?
    requires outcome.Success? ==> Session(f, settled, plan)
    requires outcome.Failed? ==> FailedAt(f, settled, plan, k)
    requires f.forecast == CutErase(|settled[f.slave].history| + 2, 2)
    ensures outcome.Failed? && k == 2 && CutAsForeseen(f, |settled[f.slave].history| + 2, plan[2])
  {
    assert Due(f.forecast, |settled[f.slave].history| + 2);
    assert plan[2] == plan[..3][2] && plan[1] == plan[..3][1] && plan[0] == plan[..3][0];
    if outcome.Failed? && k > 2 {
    }
  }

  lemma {:induction false} CutTwoBytesIn(f: Flasher, lines: seq<Line>, outcome: Outcome, k: nat, settled: seq<Chip>)
    requires Addressable(lines) && Exposed(lines) && |settled| == 2 && f.slave < 2
    requires RunResult(f, lines, outcome, k, settled, true)
    requires StartOf(lines) + 2 * GUARD_SIZE <= |settled[f.slave].mem|
    requires 1 <= f.spi.depth <= 2 && f.forecast == CutErase(|settled[f.slave].history| + 2, 2)
    ensures outcome.Failed? && k == 2 && f.spi.fault == Calm
    ensures CutShort(f.spi.chips, f.spi.selection, f.spi.shifted, f.slave, f.spi.depth, StartOf(lines))
  {
    var recs, start := RecordsOf(lines), StartOf(lines);
    var plan := RunPlan(lines, recs, start);
    PlanIsComplete(lines, recs);
    FirstErase(lines, recs, start);
    AddressablePlan(lines, recs, start);
    assert plan[..3] == GuardOps(start, GuardPage()) + [Erase(start + GUARD_SIZE)];
    StopsAtThird(f, plan, start, outcome, k, settled);
    CutIsTorn(f, |settled[f.slave].history| + 2, plan[2]);
  }

  /** The first poll of the next attempt erases the guard. */
  lemma {:induction false} PollErasesGuard(chips: seq<Chip>, selection: Selection, shifted: seq<byte>, slave: nat, depth: nat,
      start: nat, first: Chip, settled: seq<Chip>)
    requires CutShort(chips, selection, shifted, slave, depth, start) && start % BLOCK_SIZE == 0
    requires FirstPoll(chips, selection, shifted, slave, first, settled, 0)
    ensures !Guarded(settled[slave].mem, start, GuardPage())
  {
    assert BlockStart(start + GUARD_SIZE) == start;
    assert start % SUBSECTOR_SIZE == 0;
    PollKeepsGuardIff(first, shifted, Erase(start + GUARD_SIZE), depth, start, 0);
  }

  /** The first attempt on an idle controller of depth 1 or 2 where one data read fails, with
      two bytes of the third operation sent. */
  method CutAttempt(f: Flasher, text: seq<string>, index: nat) returns (outcome: Outcome)
    requires f.Ready() && index < 2 && 1 <= f.spi.depth <= 2
    requires Addressable(ScanAll(text)) && Exposed(ScanAll(text))
    requires StartOf(ScanAll(text)) + 2 * GUARD_SIZE <= |f.spi.chips[index].mem|
    requires f.spi.fault == CutErase(|f.spi.chips[index].history| + 2, 2)
    modifies f, f.spi, f.readBuffer, f.writeBuffer
    ensures outcome.Failed? && f.Valid() && f.spi.fault == Calm
    ensures CutShort(f.spi.chips, f.spi.selection, f.spi.shifted, index, f.spi.depth, StartOf(ScanAll(text)))
  {
    ghost var chips, selection, shifted, lines := f.spi.chips, f.spi.selection, f.spi.shifted, ScanAll(text);
    ghost var k, first, settled, begun;
    AddressableSized(lines);
    outcome, k, first, settled, begun := Upgrade(f, text, index);
    IdleSettles(chips, selection, shifted, index, first, settled);
    if !begun {
    }
    CutTwoBytesIn(f, lines, outcome, k, settled);
  }

  lemma {:induction false} IdleSettles(chips: seq<Chip>, selection: Selection, shifted: seq<byte>, slave: nat, first: Chip, settled: seq<Chip>)
    requires FirstPoll(chips, selection, shifted, slave, first, settled, 0) && selection == NoSlave
    ensures |settled| == 2 && settled[slave].history == chips[slave].history && settled[slave].mem == chips[slave].mem
  {
  }

  /** The next attempt gets past its first poll, and the guard is gone by then. */
  method NextAttempt(f: Flasher, text: seq<string>, index: nat) returns (outcome: Outcome, ghost settled: seq<Chip>, ghost begun: bool)
    requires f.Valid() && index < 2 && f.spi.fault == Calm && Addressable(ScanAll(text)) && Exposed(ScanAll(text))
    requires CutShort(f.spi.chips, f.spi.selection, f.spi.shifted, index, f.spi.depth, StartOf(ScanAll(text)))
    modifies f, f.spi, f.readBuffer, f.writeBuffer
    ensures begun && |settled| == 2 && !Guarded(settled[index].mem, StartOf(ScanAll(text)), GuardPage())
  {
    ghost var chips, selection, shifted, depth := f.spi.chips, f.spi.selection, f.spi.shifted, f.spi.depth;
    ghost var k, first;
    AddressableSized(ScanAll(text));
    outcome, k, first, settled, begun := Upgrade(f, text, index);
    PollErasesGuard(chips, selection, shifted, index, depth, StartOf(ScanAll(text)), first, settled);
  }

  /** Two attempts.  After the first, which fails, the guard is up; the first status poll of
      the second, whose result `settled` is, has erased it. */
  method LoseGuard(f: Flasher, text: seq<string>, index: nat)
      returns (outcome: Outcome, failed: seq<Chip>, ghost settled: seq<Chip>, ghost begun: bool)
    requires f.Ready() && index < 2 && 1 <= f.spi.depth <= 2
    requires Addressable(ScanAll(text)) && Exposed(ScanAll(text))
    requires StartOf(ScanAll(text)) + 2 * GUARD_SIZE <= |f.spi.chips[index].mem|
    requires f.spi.fault == CutErase(|f.spi.chips[index].history| + 2, 2)
    modifies f, f.spi, f.readBuffer, f.writeBuffer
    ensures outcome.Failed? && |failed| == |settled| == 2 && begun
    ensures Guarded(failed[index].mem, StartOf(ScanAll(text)), GuardPage())
    ensures !Guarded(settled[index].mem, StartOf(ScanAll(text)), GuardPage())
  {
    outcome := CutAttempt(f, text, index);
    failed := f.spi.chips;
    var again;
    again, settled, begun := NextAttempt(f, text, index);
  }
}
