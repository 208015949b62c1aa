/** Progress of an upgrade through a plan of array operations: a session under way, and the
    ways it can stop. */
module FlashSession {
  import opened NorFlash
  import opened SpiWire
  import opened FlashCommands
  import opened XspiFlasher

  /** The part has carried out exactly these operations since `prior`. */
  ghost predicate Advanced(prior: Chip, c: Chip, ops: seq<FlashOp>) {
    && c.mem == ApplyAll(prior.mem, ops) && c.history == prior.history + ops && c.segments == prior.segments
    && forall i :: 0 <= i < |ops| ==> ops[i].addr < |prior.mem|
  }

  /** No erase among these operations was the one foreseen to be cut. */
  ghost predicate NotYet(forecast: Fault, before: nat, ops: seq<FlashOp>) {
    forall i :: 0 <= i < |ops| && ops[i].Erase? ==> !Due(forecast, before + i)
  }

  ghost predicate Session(f: Flasher, prior: seq<Chip>, ops: seq<FlashOp>)
    reads f, f.spi
  {
    && f.Ready() && f.Coherent() && f.since <= f.spi.faults && f.spi.fault == f.forecast
    && |prior| == 2 && f.spi.chips == prior[f.slave := f.spi.chips[f.slave]]
    && NotYet(f.forecast, |prior[f.slave].history|, ops)
    && Advanced(prior[f.slave], f.spi.chips[f.slave], ops)
  }

  /** Stopped after the first k operations of the plan: they are done, nothing else
      is, and a command left on the wire could only do part of the next one. */
  ghost predicate StoppedAt(f: Flasher, prior: seq<Chip>, plan: seq<FlashOp>, k: nat)
    reads f, f.spi
  {
    && f.Valid() && f.since <= f.spi.faults
    && |prior| == 2 && f.spi.chips == prior[f.slave := f.spi.chips[f.slave]]
    && k <= |plan|
    && Advanced(prior[f.slave], f.spi.chips[f.slave], plan[..k])
    && NotYet(f.forecast, |prior[f.slave].history|, plan[..k])
    && if k < |plan| then Confined(f.spi.chips[f.slave], f.spi.shifted, plan[k], f.spi.depth) else Harmless(f.spi.shifted)
  }

  /** The next operation is the erase foreseen to be cut, and it was. */
  ghost predicate CutAsForeseen(f: Flasher, before: nat, op: FlashOp)
    reads f, f.spi
  {
    && f.Valid() && op.Erase? && Due(f.forecast, before) && f.spi.fault == Calm
    && EraseCut(f.forecast, f.spi.selection, f.spi.chips[f.slave], f.slave, f.spi.shifted, op.addr, f.spi.depth)
  }

  /** Stopped for a reason: a fault since the run began, the foreseen one if there was one, or
      a next operation past the part. */
  ghost predicate FailedAt(f: Flasher, prior: seq<Chip>, plan: seq<FlashOp>, k: nat)
    reads f, f.spi
  {
    && StoppedAt(f, prior, plan, k)
    && ((k < |plan| && plan[k].addr >= |f.spi.chips[f.slave].mem|)
        || (&& f.since < f.spi.faults
            && (f.forecast.Anything? || (k < |plan| && CutAsForeseen(f, |prior[f.slave].history| + k, plan[k])))))
  }

  // --- In terms of the addresses the program works with ---

  ghost predicate Running(f: Flasher, prior: seq<Chip>, ops: seq<FlashOp>)
    reads f, f.spi
  {
    Session(f, prior, AllReduced(ops))
  }

  ghost predicate StoppedIn(f: Flasher, prior: seq<Chip>, plan: seq<FlashOp>, k: nat)
    reads f, f.spi
  {
    StoppedAt(f, prior, AllReduced(plan), k)
  }

  ghost predicate FailedIn(f: Flasher, prior: seq<Chip>, plan: seq<FlashOp>, k: nat)
    reads f, f.spi
  {
    FailedAt(f, prior, AllReduced(plan), k)
  }

  lemma {:induction false} StoppedExtends(f: Flasher, prior: seq<Chip>, small: seq<FlashOp>, plan: seq<FlashOp>, k: nat)
    requires StoppedIn(f, prior, small, k) && small <= plan
    ensures StoppedIn(f, prior, plan, k)
  {
    assert AllReduced(small)[..k] == AllReduced(plan)[..k];
  }

  lemma {:induction false} FailedExtends(f: Flasher, prior: seq<Chip>, small: seq<FlashOp>, plan: seq<FlashOp>, k: nat)
    requires FailedIn(f, prior, small, k) && small <= plan
    ensures FailedIn(f, prior, plan, k)
  {
    StoppedExtends(f, prior, small, plan, k);
  }

  lemma {:induction false} SessionStops(f: Flasher, prior: seq<Chip>, ops: seq<FlashOp>, plan: seq<FlashOp>)
    requires Running(f, prior, ops) && ops <= plan
    ensures StoppedIn(f, prior, plan, |ops|)
  {
    assert AllReduced(plan)[..|ops|] == AllReduced(ops);
  }

  /** The selected part has carried out `ops` since `prior`, as `before` shows it. */
  ghost predicate Since(f: Flasher, prior: seq<Chip>, before: seq<Chip>, ops: seq<FlashOp>)
    reads f
  {
    && |prior| == 2 && f.slave < 2 && |before| == 2 && before == prior[f.slave := before[f.slave]]
    && Advanced(prior[f.slave], before[f.slave], AllReduced(ops))
    && NotYet(f.forecast, |prior[f.slave].history|, AllReduced(ops))
  }

  lemma {:induction false} SessionAdvances(
      f: Flasher, prior: seq<Chip>, before: seq<Chip>, ops: seq<FlashOp>, op: FlashOp)
    requires Since(f, prior, before, ops) && f.Ready() && f.Coherent() && Reduced(op).addr < |prior[f.slave].mem|
    requires f.spi.chips == before[f.slave := Changed(before[f.slave], Reduced(op))] && f.since <= f.spi.faults
    requires f.spi.fault == f.forecast && (op.Erase? ==> !Due(f.forecast, |before[f.slave].history|))
    ensures Running(f, prior, ops + [op])
  {
    ReducedMore(ops, op);
  }

  lemma {:induction false} HaltedStops(f: Flasher, prior: seq<Chip>, before: seq<Chip>, ops: seq<FlashOp>, op: FlashOp)
    requires Since(f, prior, before, ops) && f.HaltedIn(before, Reduced(op)) && f.since <= f.spi.faults
    requires Reduced(op).addr >= |f.spi.chips[f.slave].mem| || (f.since < f.spi.faults
      && (f.forecast.Anything? || CutAsForeseen(f, |before[f.slave].history|, Reduced(op))))
    ensures FailedIn(f, prior, ops + [op], |ops|)
  {
    ReducedMore(ops, op);
    assert (AllReduced(ops) + [Reduced(op)])[..|ops|] == AllReduced(ops);
  }

  lemma {:induction false} HaltedHarmless(f: Flasher, prior: seq<Chip>, before: seq<Chip>, ops: seq<FlashOp>, plan: seq<FlashOp>)
    requires Since(f, prior, before, ops) && f.Halted(before) && ops <= plan && f.since < f.spi.faults
    requires f.forecast.Anything?
    ensures FailedIn(f, prior, plan, |ops|)
  {
    assert AllReduced(plan)[..|ops|] == AllReduced(ops);
  }

}
