/** What an upgrade does to the flash, as a plan of array operations: the pages the second
    pass reads, the operations of each record, and the whole run with its guard. */
module UpgradePlan {
  import opened Common
  import opened NorFlash
  import opened FlashCommands
  import opened FlashSchedule
  import opened McsFile

  // --- Reading one record ---

  /** What the second pass reads for a record. */
  function PagesOf(lines: seq<Line>, r: Record): (p: Pages)
    requires r.dataPos <= |lines|
    ensures FullPages(p.pages)
  {
    Collect(lines, r.dataPos, r.count, [], false)
  }

  /** The page loop has read up to line i and buffered part of a page. */
  ghost predicate Reading(lines: seq<Line>, all: Pages, page: nat, i: nat, index: nat, buffer: seq<byte>, addressed: bool) {
    && i <= |lines| && |buffer| < CHUNK && page <= |all.pages|
    && var rest := Collect(lines, i, index, buffer, addressed);
       all.pages[page..] == rest.pages && all.pos == rest.pos && all.complete == rest.complete
  }

  lemma {:induction false} ReadingEnds(lines: seq<Line>, all: Pages, page: nat, i: nat, buffer: seq<byte>, addressed: bool)
    requires Reading(lines, all, page, i, 0, buffer, addressed)
    ensures all.pos == i
    ensures if buffer == [] then all.complete && all.pages[..page] == all.pages
      else if addressed then all.complete && |all.pages| == page + 1 && all.pages[page] == Pad(buffer)
        && all.pages[..page + 1] == all.pages
      else page == |all.pages| && !all.complete
  {
    if buffer == [] || !addressed {
      assert all.pages[page..] == [];
    } else {
      assert all.pages[page] == all.pages[page..][0];
    }
  }

  // --- Operations of one record ---

  /** The operations done once `page` pages of a record are in. */
  ghost predicate AtPage(done: seq<FlashOp>, ops: seq<FlashOp>, start: nat, pages: seq<seq<byte>>, page: nat) {
    page <= |pages| && done == ops + PageOps(start, pages[..page])
  }

  // --- All records ---

  /** The blocks a run works through, and whether the second pass reads all of them. */
  datatype Plan = Plan(blocks: seq<Block>, complete: bool)

  function BlockFor(r: Record, shift: nat, pages: seq<seq<byte>>): Block {
    Block(r.start + shift, r.end + shift, pages)
  }

  function Bare(recs: seq<Record>, shift: nat): seq<Block> {
    if recs == [] then [] else [BlockFor(recs[0], shift, [])] + Bare(recs[1..], shift)
  }

  /** The second pass over the records from line `pos` on; it goes no further than
      the first record that cannot be read to its end. */
  function PlanFrom(lines: seq<Line>, pos: nat, recs: seq<Record>, shift: nat): Plan
    requires Located(lines, recs)
    decreases |recs|
  {
    if recs == [] then Plan([], true)
    else if pos >= recs[0].dataPos then Plan(Bare(recs, shift), false)
    else
      var read := PagesOf(lines, recs[0]);
      var block := BlockFor(recs[0], shift, read.pages);
      if !read.complete then Plan([block] + Bare(recs[1..], shift), false)
      else
        var rest := PlanFrom(lines, read.pos, recs[1..], shift);
        Plan([block] + rest.blocks, rest.complete)
  }

  ghost predicate Located(lines: seq<Line>, recs: seq<Record>) {
    forall i :: 0 <= i < |recs| ==> recs[i].dataPos <= |lines|
  }

  /** Every address a record's erases and programs use is below 2^28. */
  ghost predicate Fits(lines: seq<Line>, r: Record, shift: nat) {
    && r.dataPos <= |lines|
    && r.end + shift <= ADDRESS_SPACE
    && r.start + shift + |PagesOf(lines, r).pages| * CHUNK <= ADDRESS_SPACE
  }

  /** The 32-bit sums of the erase loop do not overflow. */
  ghost predicate In32Bits(recs: seq<Record>, shift: nat) {
    forall i :: 0 <= i < |recs| ==>
      && recs[i].start + shift < UINT32 && recs[i].end + shift + SUBSECTOR_SIZE <= UINT32
  }

  ghost predicate InSpace(lines: seq<Line>, recs: seq<Record>, shift: nat) {
    && Located(lines, recs)
    && forall i {:trigger Fits(lines, recs[i], shift)} :: 0 <= i < |recs| ==> Fits(lines, recs[i], shift)
  }

  lemma {:induction false} InSpaceTail(lines: seq<Line>, recs: seq<Record>, shift: nat)
    requires InSpace(lines, recs, shift) && recs != []
    ensures Fits(lines, recs[0], shift) && InSpace(lines, recs[1..], shift)
  {
    var rest := recs[1..];
    forall i | 0 <= i < |rest|
      ensures Fits(lines, rest[i], shift)
    {
      assert Fits(lines, recs[i + 1], shift);
    }
  }

  /** What is erased does not depend on what can be read. */
  lemma {:induction false} PlanErases(lines: seq<Line>, pos: nat, recs: seq<Record>, shift: nat)
    requires Located(lines, recs)
    ensures AllErases(PlanFrom(lines, pos, recs, shift).blocks) == AllErases(Bare(recs, shift))
    decreases |recs|
  {
    if recs == [] || pos >= recs[0].dataPos {
    } else {
      var read, rest := PagesOf(lines, recs[0]), recs[1..];
      var block := BlockFor(recs[0], shift, read.pages);
      if read.complete {
        PlanErases(lines, read.pos, rest, shift);
      } else {
      }
    }
  }

  /** With `done` behind them, the erases of the records from `rest` on complete the plan. */
  ghost predicate Erasing(rest: seq<Record>, shift: nat, done: seq<FlashOp>, plan: seq<FlashOp>) {
    && done + AllErases(Bare(rest, shift)) == plan
    && In32Bits(rest, shift)
  }

  lemma {:induction false} ErasingMoves(rest: seq<Record>, shift: nat, done: seq<FlashOp>, step: seq<FlashOp>, plan: seq<FlashOp>)
    requires Erasing(rest, shift, done, plan) && rest != [] && step == done + EraseOps(rest[0].start + shift, rest[0].end + shift)
    ensures step <= plan && Erasing(rest[1..], shift, step, plan)
  {
  }

  lemma {:induction false} ErasingEnds(shift: nat, done: seq<FlashOp>, plan: seq<FlashOp>)
    requires Erasing([], shift, done, plan)
    ensures done == plan
  {
    assert AllErases(Bare([], shift)) == [];
  }

  lemma {:induction false} NextPages(done: seq<FlashOp>, lines: seq<Line>, pos: nat, recs: seq<Record>, shift: nat)
    requires recs != [] && Located(lines, recs)
    requires pos < recs[0].dataPos
    ensures var read, p := PagesOf(lines, recs[0]), PlanFrom(lines, pos, recs, shift);
      var step := done + PageOps(recs[0].start + shift, read.pages);
      && step <= done + AllPages(p.blocks)
      && (read.complete ==>
           var rest := PlanFrom(lines, read.pos, recs[1..], shift);
           step + AllPages(rest.blocks) == done + AllPages(p.blocks) && p.complete == rest.complete)
  {
    var read, p := PagesOf(lines, recs[0]), PlanFrom(lines, pos, recs, shift);
    if read.complete {
      assert p.blocks[1..] == PlanFrom(lines, read.pos, recs[1..], shift).blocks;
    } else {
      assert p.blocks[1..] == Bare(recs[1..], shift);
    }
  }

  /** With `done` behind them, the records from `rest` on complete the plan. */
  ghost predicate Programming(
      lines: seq<Line>, pos: nat, rest: seq<Record>, shift: nat, done: seq<FlashOp>, plan: seq<FlashOp>, complete: bool)
  {
    && Located(lines, rest)
    && done + AllPages(PlanFrom(lines, pos, rest, shift).blocks) == plan
    && PlanFrom(lines, pos, rest, shift).complete == complete
  }

  lemma {:induction false} ProgrammingMoves(
      lines: seq<Line>, pos: nat, rest: seq<Record>, shift: nat, done: seq<FlashOp>, plan: seq<FlashOp>, complete: bool)
    requires Programming(lines, pos, rest, shift, done, plan, complete) && rest != []
    ensures var read := PagesOf(lines, rest[0]);
      var step := done + PageOps(rest[0].start + shift, read.pages);
      && done <= plan
      && (pos < rest[0].dataPos ==> step <= plan)
      && (pos < rest[0].dataPos && read.complete ==> Programming(lines, read.pos, rest[1..], shift, step, plan, complete))
      && (pos >= rest[0].dataPos || !read.complete ==> !complete)
  {
    if pos < rest[0].dataPos {
      NextPages(done, lines, pos, rest, shift);
    }
  }

  lemma {:induction false} ProgrammingEnds(
      lines: seq<Line>, pos: nat, shift: nat, done: seq<FlashOp>, plan: seq<FlashOp>, complete: bool)
    requires Programming(lines, pos, [], shift, done, plan, complete)
    ensures done == plan && complete
  {
  }

  // --- The run ---

  /** Records are moved up by one subsector to make room for the guard, unless they start at 0. */
  function Shift(start: nat): nat {
    if start == 0 then 0 else GUARD_SIZE
  }

  function GuardFor(start: nat): seq<FlashOp> {
    if start == 0 then [] else GuardOps(start, GuardPage())
  }

  /** The array operations of a run, in order.  The guard is removed only if every
      record can be read to its end. */
  function RunPlan(lines: seq<Line>, recs: seq<Record>, start: nat): seq<FlashOp>
    requires Located(lines, recs)
  {
    var p := PlanFrom(lines, 0, recs, Shift(start));
    GuardFor(start) + Body(p.blocks) + (if start != 0 && p.complete then [Erase(start)] else [])
  }

  /** The stages of a run: each ends where the next begins. */
  lemma {:induction false} RunPlanStages(lines: seq<Line>, recs: seq<Record>, start: nat)
      returns (erased: seq<FlashOp>, programmed: seq<FlashOp>, complete: bool)
    requires Located(lines, recs)
    ensures erased == GuardFor(start) + AllErases(Bare(recs, Shift(start)))
    ensures GuardFor(start) <= erased <= programmed <= RunPlan(lines, recs, start)
    ensures Programming(lines, 0, recs, Shift(start), erased, programmed, complete)
    ensures programmed == GuardFor(start) + Body(PlanFrom(lines, 0, recs, Shift(start)).blocks)
    ensures complete == PlanFrom(lines, 0, recs, Shift(start)).complete
    ensures complete ==> RunPlan(lines, recs, start) == if start == 0 then programmed else programmed + [Erase(start)]
  {
    PlanErases(lines, 0, recs, Shift(start));
    var p := PlanFrom(lines, 0, recs, Shift(start));
    erased, complete := GuardFor(start) + AllErases(Bare(recs, Shift(start))), p.complete;
    programmed := erased + AllPages(p.blocks);
    assert GuardFor(start) + Body(p.blocks) == GuardFor(start) + AllErases(p.blocks) + AllPages(p.blocks);
  }
}
