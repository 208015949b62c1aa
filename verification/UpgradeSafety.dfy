/** What an upgrade guarantees: the guard holds through every interruption, and a
    successful run leaves the file's contents in the flash. */
module UpgradeSafety {
  import opened Common
  import opened NorFlash
  import opened SpiWire
  import opened SpiTransfer
  import opened FlashCommands
  import opened XspiFlasher
  import opened FlashSession
  import opened FlashSchedule
  import opened McsFile
  import opened McsCorrect
  import opened McsAccept
  import opened UpgradePlan
  import opened XspiUpgrade

  // --- Crash safety ---

  /** Operations at or above an aligned bound never reach below it. */
  lemma {:induction false} HighOpsAvoid(ops: seq<FlashOp>, bound: nat, x: nat)
    requires bound % SUBSECTOR_SIZE == 0 && x < bound
    requires forall i :: 0 <= i < |ops| ==> ops[i].addr >= bound
    ensures Avoids(ops, x)
  {
    forall i | 0 <= i < |ops|
      ensures !Touches(ops[i], x)
    {
    }
  }

  lemma {:induction false} BodyIsHigh(bs: seq<Block>, bound: nat)
    requires forall i :: 0 <= i < |bs| ==> bs[i].start >= bound
    ensures forall i :: 0 <= i < |AllErases(bs)| ==> AllErases(bs)[i].addr >= bound
    ensures forall i :: 0 <= i < |AllPages(bs)| ==> AllPages(bs)[i].addr >= bound
  {
    if bs == [] {
    } else {
      BodyIsHigh(bs[1..], bound);
      forall i | 0 <= i < |EraseOps(bs[0].start, bs[0].end)|
        ensures EraseOps(bs[0].start, bs[0].end)[i].addr >= bound
      {
        EraseOpsAt(bs[0].start, bs[0].end, i);
      }
    }
  }

  lemma {:induction false} PlanIsHigh(lines: seq<Line>, pos: nat, recs: seq<Record>, shift: nat, bound: nat)
    requires Located(lines, recs) && forall i :: 0 <= i < |recs| ==> recs[i].start + shift >= bound
    ensures forall b :: b in PlanFrom(lines, pos, recs, shift).blocks ==> b.start >= bound
    decreases |recs|
  {
    if recs == [] {
    } else {
      BareIsHigh(recs, shift, bound);
      BareIsHigh(recs[1..], shift, bound);
      if pos < recs[0].dataPos && PagesOf(lines, recs[0]).complete {
        PlanIsHigh(lines, PagesOf(lines, recs[0]).pos, recs[1..], shift, bound);
      }
    }
  }

  lemma {:induction false} BareIsHigh(recs: seq<Record>, shift: nat, bound: nat)
    requires forall i :: 0 <= i < |recs| ==> recs[i].start + shift >= bound
    ensures forall b :: b in Bare(recs, shift) ==> b.start >= bound
  {
    if recs == [] {
    } else {
      BareIsHigh(recs[1..], shift, bound);
    }
  }

  /** A run whose guard goes to an aligned nonzero start, with no record below it. */
  ghost predicate Guardable(recs: seq<Record>, start: nat) {
    && start != 0 && start % SUBSECTOR_SIZE == 0
    && forall i :: 0 <= i < |recs| ==> recs[i].start >= start
  }

  lemma {:induction false} BodyLeavesGuard(lines: seq<Line>, recs: seq<Record>, start: nat)
    requires Located(lines, recs) && Guardable(recs, start)
    ensures AvoidsGuard(Body(PlanFrom(lines, 0, recs, GUARD_SIZE).blocks), start)
  {
    var bs := PlanFrom(lines, 0, recs, GUARD_SIZE).blocks;
    PlanIsHigh(lines, 0, recs, GUARD_SIZE, start + GUARD_SIZE);
    BodyIsHigh(bs, start + GUARD_SIZE);
    forall x: nat | start <= x < start + GUARD_SIZE
      ensures Avoids(Body(bs), x)
    {
      HighOpsAvoid(AllErases(bs), start + GUARD_SIZE, x);
      HighOpsAvoid(AllPages(bs), start + GUARD_SIZE, x);
      AvoidsConcat(AllErases(bs), AllPages(bs), x);
    }
  }

  /** Whatever the file holds: stop the run after any k of its operations from the
      guard write to its removal, with the next operation half done, and the guard
      is there. */
  lemma {:induction false} InterruptedRunIsGuarded(
      mem: seq<byte>, lines: seq<Line>, recs: seq<Record>, start: nat, k: nat, torn: seq<byte>)
    requires Located(lines, recs) && Guardable(recs, start) && start + GUARD_SIZE <= |mem|
    requires 2 <= k <= |RunPlan(lines, recs, start)| && |torn| == |mem|
    requires k <= 2 + |Body(PlanFrom(lines, 0, recs, GUARD_SIZE).blocks)|
    requires forall x :: 0 <= x < |mem| && torn[x] != ApplyAll(mem, RunPlan(lines, recs, start)[..k])[x] ==>
               k < 2 + |Body(PlanFrom(lines, 0, recs, GUARD_SIZE).blocks)| && Touches(RunPlan(lines, recs, start)[k], x)
    ensures Guarded(torn, start, GuardPage())
  {
    var body := Body(PlanFrom(lines, 0, recs, GUARD_SIZE).blocks);
    var run, plan := GuardedRun(start, GuardPage(), body), RunPlan(lines, recs, start);
    BodyLeavesGuard(lines, recs, start);
    assert plan[..k] == run[..k];
    assert k < |body| + 2 ==> run[k] == plan[k];
    GuardSurvivesInterruption(mem, start, GuardPage(), body, k, torn);
  }

  /** At every failing exit past the guard write the guard is in the flash, and still
      would be if the part were deselected with a command half sent. */
  lemma {:induction false} FailedRunIsGuarded(
      f: Flasher, prior: seq<Chip>, lines: seq<Line>, recs: seq<Record>, start: nat, k: nat)
    requires Located(lines, recs) && Guardable(recs, start)
    requires StoppedAt(f, prior, RunPlan(lines, recs, start), k)
    requires 2 <= k <= 2 + |Body(PlanFrom(lines, 0, recs, GUARD_SIZE).blocks)|
    requires start + GUARD_SIZE <= |f.spi.chips[f.slave].mem|
    ensures Guarded(f.spi.chips[f.slave].mem, start, GuardPage())
    ensures k < 2 + |Body(PlanFrom(lines, 0, recs, GUARD_SIZE).blocks)| ==>
      Guarded(Execute(f.spi.chips[f.slave], f.spi.shifted).mem, start, GuardPage())
  {
    var c, mem := f.spi.chips[f.slave], prior[f.slave].mem;
    InterruptedRunIsGuarded(mem, lines, recs, start, k, c.mem);
    if k < 2 + |Body(PlanFrom(lines, 0, recs, GUARD_SIZE).blocks)| {
      ConfinedMeaning(c, f.spi.shifted, RunPlan(lines, recs, start)[k], f.spi.depth);
      InterruptedRunIsGuarded(mem, lines, recs, start, k, Execute(c, f.spi.shifted).mem);
    }
  }

  // --- The image ends up in the flash ---

  /** 4 KB aligned records in ascending order without overlap. */
  ghost predicate Arranged(recs: seq<Record>) {
    && (forall i :: 0 <= i < |recs| ==> recs[i].start % SUBSECTOR_SIZE == 0)
    && Ascending(recs)
  }

  function ImageFor(lines: seq<Line>, r: Record, shift: nat): Image {
    Image(r.start + shift, RecordData(lines, r.dataPos))
  }

  function ImagesFor(lines: seq<Line>, recs: seq<Record>, shift: nat): (r: seq<Image>)
    ensures |r| == |recs| && forall i :: 0 <= i < |r| ==> r[i] == ImageFor(lines, recs[i], shift)
  {
    seq(|recs|, i requires 0 <= i < |recs| => ImageFor(lines, recs[i], shift))
  }

  /** No data line of a record runs over the end of a page. */
  ghost predicate Unbroken(lines: seq<Line>, recs: seq<Record>) {
    forall j :: 0 <= j < |recs| ==> NoStraddle(lines, recs[j].dataPos, 0)
  }

  /** Records that follow each other in the file, each holding its data lines. */
  ghost predicate Chained(lines: seq<Line>, recs: seq<Record>) {
    && Located(lines, recs)
    && (forall j {:trigger Sound(lines, recs[j])} :: 0 <= j < |recs| ==> Sound(lines, recs[j]))
    && Unbroken(lines, recs)
    && (forall j :: 0 <= j < |recs| - 1 ==> recs[j + 1].dataPos == DataEnd(lines, recs[j].dataPos) + 1)
  }

  /** The 32-bit end addresses have not wrapped. */
  ghost predicate EndsInOrder(recs: seq<Record>) {
    forall i :: 0 <= i < |recs| ==> recs[i].start + recs[i].count < UINT32
  }

  lemma {:induction false} InSpaceEnds(lines: seq<Line>, recs: seq<Record>, shift: nat)
    requires Chained(lines, recs) && InSpace(lines, recs, shift)
    ensures EndsInOrder(recs)
  {
    forall i | 0 <= i < |recs|
      ensures recs[i].start + recs[i].count < UINT32
    {
      assert Sound(lines, recs[i]) && Fits(lines, recs[i], shift);
      RecordRead(lines, recs[i]);
    }
  }

  lemma {:induction false} RecordRead(lines: seq<Line>, r: Record)
    requires Sound(lines, r) && NoStraddle(lines, r.dataPos, 0)
    ensures PagesOf(lines, r).complete && PagesOf(lines, r).pos <= DataEnd(lines, r.dataPos)
    ensures PagesOf(lines, r).pages == Paginate(RecordData(lines, r.dataPos)) && r.count <= |PagesOf(lines, r).pages| * CHUNK
  {
    CollectRecord(lines, r.dataPos, [], false);
    KeepsEveryByteIff(lines, r.dataPos, 0);
    assert [] + RecordData(lines, r.dataPos) == RecordData(lines, r.dataPos);
  }

  /** The second pass reads a well-formed record in full. */
  lemma {:induction false} RecordIsImage(lines: seq<Line>, r: Record, shift: nat)
    requires Sound(lines, r) && NoStraddle(lines, r.dataPos, 0) && r.start + r.count < UINT32
    ensures PagesOf(lines, r).complete && PagesOf(lines, r).pos <= DataEnd(lines, r.dataPos)
    ensures BlockFor(r, shift, PagesOf(lines, r).pages) == BlockOf(ImageFor(lines, r, shift))
  {
    RecordRead(lines, r);
    SmallModulus(r.start + r.count);
  }

  /** The second pass over a well-formed file reads every record in full. */
  lemma {:induction false} PlanIsImage(lines: seq<Line>, pos: nat, recs: seq<Record>, shift: nat)
    requires Chained(lines, recs) && (recs != [] ==> pos < recs[0].dataPos) && EndsInOrder(recs)
    ensures PlanFrom(lines, pos, recs, shift) == Plan(BlocksOf(ImagesFor(lines, recs, shift)), true)
    decreases |recs|
  {
    if recs == [] {
    } else {
      var r, rest := recs[0], recs[1..];
      ChainedTail(lines, recs);
      RecordIsImage(lines, r, shift);
      PlanIsImage(lines, PagesOf(lines, r).pos, rest, shift);
      BlocksOfImages(lines, recs, shift);
    }
  }

  lemma {:induction false} ChainedTail(lines: seq<Line>, recs: seq<Record>)
    requires Chained(lines, recs) && recs != []
    ensures Sound(lines, recs[0]) && NoStraddle(lines, recs[0].dataPos, 0) && Chained(lines, recs[1..])
    ensures |recs| > 1 ==> recs[1..][0].dataPos == DataEnd(lines, recs[0].dataPos) + 1
  {
    var rest := recs[1..];
    assert Sound(lines, recs[0]);
    forall j | 0 <= j < |rest|
      ensures Sound(lines, rest[j]) && NoStraddle(lines, rest[j].dataPos, 0)
    {
      assert Sound(lines, recs[j + 1]) && NoStraddle(lines, recs[j + 1].dataPos, 0);
    }
    forall j | 0 <= j < |rest| - 1
      ensures rest[j + 1].dataPos == DataEnd(lines, rest[j].dataPos) + 1
    {
      assert rest[j + 1] == recs[j + 2];
    }
  }

  lemma {:induction false} BlocksOfImages(lines: seq<Line>, recs: seq<Record>, shift: nat)
    requires recs != []
    ensures BlocksOf(ImagesFor(lines, recs, shift)) ==
      [BlockOf(ImageFor(lines, recs[0], shift))] + BlocksOf(ImagesFor(lines, recs[1..], shift))
  {
  }

  lemma {:induction false} ImagesLaidOut(lines: seq<Line>, recs: seq<Record>, shift: nat)
    requires Chained(lines, recs) && Arranged(recs) && shift % SUBSECTOR_SIZE == 0
    ensures Layout(ImagesFor(lines, recs, shift))
  {
    var ims := ImagesFor(lines, recs, shift);
    forall i, j | 0 <= i < j < |ims|
      ensures ims[i].start + |ims[i].data| <= ims[j].start
    {
      assert Sound(lines, recs[i]);
    }
  }

  lemma {:induction false} ImagesTidy(lines: seq<Line>, recs: seq<Record>, shift: nat)
    requires Arranged(recs) && shift % SUBSECTOR_SIZE == 0
    ensures AllTidy(BlocksOf(ImagesFor(lines, recs, shift)))
  {
    forall i | 0 <= i < |recs|
      ensures Tidy(BlockOf(ImageFor(lines, recs[i], shift)))
    {
      ImageTidy(ImageFor(lines, recs[i], shift));
    }
  }

  /** The upgrade of an aligned well-formed file leaves a guard at `start` alone exactly when
      every record with data lies, after the shift, above its subsector or ends below it. */
  lemma {:induction false} PlanAvoidsGuardIff(lines: seq<Line>, recs: seq<Record>, shift: nat, start: nat)
    requires Chained(lines, recs) && Arranged(recs) && EndsInOrder(recs) && shift % SUBSECTOR_SIZE == 0
    requires (recs != [] ==> 0 < recs[0].dataPos) && start % SUBSECTOR_SIZE == 0
    ensures AvoidsGuard(Body(PlanFrom(lines, 0, recs, shift).blocks), start) <==>
      forall i :: 0 <= i < |recs| && recs[i].count > 0 ==>
        start + GUARD_SIZE <= recs[i].start + shift || recs[i].start + shift + recs[i].count <= start
  {
    var bs := BlocksOf(ImagesFor(lines, recs, shift));
    PlanIsImage(lines, 0, recs, shift);
    ImagesTidy(lines, recs, shift);
    BodyAvoidsGuardIff(bs, start);
    forall i | 0 <= i < |recs|
      ensures bs[i].start == recs[i].start + shift && bs[i].end == recs[i].start + shift + recs[i].count
    {
      assert Sound(lines, recs[i]);
    }
    forall i | 0 <= i < |recs|
      ensures ClearOf(bs[i], start) <==> recs[i].count > 0 ==>
        start + GUARD_SIZE <= recs[i].start + shift || recs[i].start + shift + recs[i].count <= start
    {
    }
  }

  /** Outside the guard subsector and every record's range, rounded up to 4 KB. */
  ghost predicate Untouched(recs: seq<Record>, start: nat, x: nat) {
    && (start != 0 ==> !(start <= x < start + GUARD_SIZE))
    && forall i :: 0 <= i < |recs| ==>
         !(recs[i].start + Shift(start) <= x < SubsectorEnd(recs[i].start + Shift(start) + recs[i].count))
  }

  lemma {:induction false} ImagesAvoid(lines: seq<Line>, recs: seq<Record>, start: nat, x: nat)
    requires Chained(lines, recs) && Arranged(recs) && Untouched(recs, start, x)
    ensures Avoids(Body(BlocksOf(ImagesFor(lines, recs, Shift(start)))), x)
  {
    var bs := BlocksOf(ImagesFor(lines, recs, Shift(start)));
    ImagesTidy(lines, recs, Shift(start));
    forall i | 0 <= i < |bs|
      ensures Avoids(EraseOps(bs[i].start, bs[i].end), x)
    {
      assert Sound(lines, recs[i]);
      OutsideImage(lines, recs[i], Shift(start), x);
    }
    BodyAvoidsIff(bs, x);
    AvoidsConcat(AllErases(bs), AllPages(bs), x);
  }

  /** A run touches nothing else. */
  lemma {:induction false} RunLeavesOthers(lines: seq<Line>, recs: seq<Record>, start: nat, x: nat)
    requires Chained(lines, recs) && Arranged(recs) && InSpace(lines, recs, Shift(start))
    requires (recs != [] ==> 0 < recs[0].dataPos) && start % SUBSECTOR_SIZE == 0 && Untouched(recs, start, x)
    ensures Avoids(RunPlan(lines, recs, start), x)
  {
    ImagesAvoid(lines, recs, start, x);
    InSpaceEnds(lines, recs, Shift(start));
    PlanIsImage(lines, 0, recs, Shift(start));
    GuardOpsAvoid(start, x);
    AvoidsRun(GuardFor(start), Body(PlanFrom(lines, 0, recs, Shift(start)).blocks), if start != 0 then [Erase(start)] else [], x);
  }

  lemma {:induction false} OutsideImage(lines: seq<Line>, r: Record, shift: nat, x: nat)
    requires Sound(lines, r) && (r.start + shift) % SUBSECTOR_SIZE == 0
    requires !(r.start + shift <= x < SubsectorEnd(r.start + shift + r.count))
    ensures var b := BlockOf(ImageFor(lines, r, shift)); Avoids(EraseOps(b.start, b.end), x)
  {
    AlignedErasesTouch(r.start + shift, r.start + shift + r.count, x);
  }

  lemma {:induction false} AvoidsRun(guard: seq<FlashOp>, body: seq<FlashOp>, removal: seq<FlashOp>, x: nat)
    requires Avoids(guard, x) && Avoids(body, x) && Avoids(removal, x)
    ensures Avoids(guard + body + removal, x)
  {
    AvoidsConcat(guard, body, x);
    AvoidsConcat(guard + body, removal, x);
  }

  lemma {:induction false} GuardOpsAvoid(start: nat, x: nat)
    requires start % SUBSECTOR_SIZE == 0 && (start != 0 ==> !(start <= x < start + GUARD_SIZE))
    ensures Avoids(GuardFor(start), x) && (start != 0 ==> Avoids([Erase(start)], x))
  {
    if start != 0 {
      ChunkAligned(start);
      ChunkNext(start);
      ChunkTouches(start + CHUNK, GuardPage(), x);
      assert !Touches(Erase(start), x);
    }
  }

  /** So after any number of its operations every other cell is as it was. */
  lemma {:induction false} OthersKept(prior: Chip, c: Chip, lines: seq<Line>, recs: seq<Record>, start: nat, k: nat, x: nat)
    requires Chained(lines, recs) && Arranged(recs) && InSpace(lines, recs, Shift(start))
    requires (recs != [] ==> 0 < recs[0].dataPos) && start % SUBSECTOR_SIZE == 0 && Untouched(recs, start, x)
    requires k <= |RunPlan(lines, recs, start)| && Advanced(prior, c, RunPlan(lines, recs, start)[..k])
    requires x < |prior.mem|
    ensures |c.mem| == |prior.mem| && c.mem[x] == prior.mem[x]
  {
    var done := RunPlan(lines, recs, start)[..k];
    RunLeavesOthers(lines, recs, start, x);
    assert Avoids(done, x);
    ApplyAllAt(prior.mem, done, x);
    AvoidedCell(done, x, prior.mem[x]);
  }

  predicate StoredAt(mem: seq<byte>, x: nat, v: byte) {
    x < |mem| && mem[x] == v
  }

  /** Every address of the map holds its byte, moved up by the shift. */
  ghost predicate Stored(mem: seq<byte>, contents: map<nat, byte>, shift: nat) {
    forall a :: a in contents ==> StoredAt(mem, a + shift, contents[a])
  }

  /** Above the guard a complete run has the effect of its body. */
  lemma {:induction false} RunActsAsBody(mem: seq<byte>, lines: seq<Line>, recs: seq<Record>, start: nat, x: nat)
    requires Located(lines, recs) && PlanFrom(lines, 0, recs, Shift(start)).complete
    requires start % SUBSECTOR_SIZE == 0 && start + Shift(start) <= x < |mem|
    ensures ApplyAll(mem, RunPlan(lines, recs, start))[x] ==
      CellAfter(Body(PlanFrom(lines, 0, recs, Shift(start)).blocks), x, mem[x])
  {
    var body := Body(PlanFrom(lines, 0, recs, Shift(start)).blocks);
    if start == 0 {
      assert RunPlan(lines, recs, start) == body;
      ApplyAllAt(mem, body, x);
    } else {
      assert RunPlan(lines, recs, start) == GuardedRun(start, GuardPage(), body);
      GuardRemoved(mem, start, GuardPage(), body, x);
    }
  }

  lemma {:induction false} ArrangedAbove(recs: seq<Record>, i: nat)
    requires Arranged(recs) && i < |recs|
    ensures recs[0].start <= recs[i].start && recs[0].start % SUBSECTOR_SIZE == 0
  {
  }

  /** After the complete run each record's bytes are in place. */
  lemma {:induction false} RunStoresRecord(
      mem: seq<byte>, lines: seq<Line>, recs: seq<Record>, start: nat, i: nat, k: nat)
    requires Chained(lines, recs) && Arranged(recs) && InSpace(lines, recs, Shift(start))
    requires recs != [] && recs[0].start == start && 0 < recs[0].dataPos
    requires i < |recs| && k < |RecordData(lines, recs[i].dataPos)| && recs[i].start + Shift(start) + k < |mem|
    ensures ApplyAll(mem, RunPlan(lines, recs, start))[recs[i].start + Shift(start) + k]
      == RecordData(lines, recs[i].dataPos)[k]
  {
    var shift := Shift(start);
    var ims, x := ImagesFor(lines, recs, shift), recs[i].start + shift + k;
    InSpaceEnds(lines, recs, shift);
    PlanIsImage(lines, 0, recs, shift);
    ImagesLaidOut(lines, recs, shift);
    BodyStoresImage(ims, i, k, x, mem[x]);
    ArrangedAbove(recs, i);
    RunActsAsBody(mem, lines, recs, start, x);
  }

  lemma {:induction false} PagesInPlan(bs: seq<Block>, i: nat, page: nat)
    requires i < |bs| && page < |bs[i].pages|
    ensures PageOps(bs[i].start, bs[i].pages)[page] in AllPages(bs)
  {
    if i == 0 {
    } else {
      PagesInPlan(bs[1..], i - 1, page);
    }
  }

  ghost predicate AllBelow(ops: seq<FlashOp>, size: nat) {
    forall i :: 0 <= i < |ops| ==> ops[i].addr < size
  }

  lemma {:induction false} PageExists(data: seq<byte>, k: nat) returns (page: nat)
    requires k < |data|
    ensures page < |Paginate(data)| && k < page * CHUNK + CHUNK
  {
    page := k / CHUNK;
    var n := |Paginate(data)|;
    assert k < n * CHUNK;
  }

  lemma {:induction false} PageInRun(lines: seq<Line>, recs: seq<Record>, start: nat, i: nat, page: nat, size: nat)
    requires Chained(lines, recs) && InSpace(lines, recs, Shift(start)) && recs != [] && 0 < recs[0].dataPos
    requires i < |recs| && page < |Paginate(RecordData(lines, recs[i].dataPos))|
    requires AllBelow(RunPlan(lines, recs, start), size)
    ensures recs[i].start + Shift(start) + page * CHUNK < size
  {
    var shift := Shift(start);
    InSpaceEnds(lines, recs, shift);
    PlanIsImage(lines, 0, recs, shift);
    var bs := BlocksOf(ImagesFor(lines, recs, shift));
    PagesInPlan(bs, i, page);
    var op := PageOps(bs[i].start, bs[i].pages)[page];
    assert op in Body(bs);
    assert op in RunPlan(lines, recs, start);
  }

  /** A run that was carried out in full stayed inside the part. */
  lemma {:induction false} RecordInPart(
      size: nat, lines: seq<Line>, recs: seq<Record>, start: nat, i: nat, k: nat)
    requires Chained(lines, recs) && Arranged(recs) && InSpace(lines, recs, Shift(start))
    requires recs != [] && 0 < recs[0].dataPos && i < |recs| && k < recs[i].count
    requires size % CHUNK == 0
    requires AllBelow(RunPlan(lines, recs, start), size)
    ensures recs[i].start + Shift(start) + k < size
  {
    assert Sound(lines, recs[i]);
    var page := PageExists(RecordData(lines, recs[i].dataPos), k);
    PageInRun(lines, recs, start, i, page, size);
    AlignedBelow(recs[i].start, Shift(start), page, size, k);
  }

  lemma {:induction false} AlignedBelow(a: nat, shift: nat, page: nat, size: nat, k: nat)
    requires a % SUBSECTOR_SIZE == 0 && (shift == 0 || shift == SUBSECTOR_SIZE) && size % CHUNK == 0
    requires k < page * CHUNK + CHUNK && a + shift + page * CHUNK < size
    ensures a + shift + k < size
  {
    assert (a + shift + page * CHUNK) % CHUNK == 0;
  }

  /** The part is one that carried out the whole plan of these records. */
  ghost predicate RanThrough(prior: Chip, c: Chip, lines: seq<Line>, recs: seq<Record>, start: nat) {
    && prior.Valid() && Chained(lines, recs) && Arranged(recs)
    && recs != [] && 0 < recs[0].dataPos && start == recs[0].start && InSpace(lines, recs, Shift(start))
    && Advanced(prior, c, RunPlan(lines, recs, start))
  }

  /** The bytes of a whole run are those the file describes. */
  lemma {:induction false} RecordByteStored(
      prior: Chip, c: Chip, lines: seq<Line>, recs: seq<Record>, start: nat, j: nat, k: nat)
    requires RanThrough(prior, c, lines, recs, start)
    requires j < |recs| && k < |RecordData(lines, recs[j].dataPos)|
    ensures recs[j].start + Shift(start) + k < |c.mem|
    ensures c.mem[recs[j].start + Shift(start) + k] == RecordData(lines, recs[j].dataPos)[k]
  {
    assert Sound(lines, recs[j]);
    RecordInPart(|prior.mem|, lines, recs, start, j, k);
    RunStoresRecord(prior.mem, lines, recs, start, j, k);
  }

  lemma {:induction false} RecordsAreChained(lines: seq<Line>, recs: seq<Record>)
    requires WellFormed(lines) && Parse(lines) == Records(recs) && Unbroken(lines, recs)
    ensures Chained(lines, recs) && recs != [] && 0 < recs[0].dataPos
    ensures forall a :: a in Contents(lines, 0, 0) ==>
      exists j :: 0 <= j < |recs| && Holds(lines, recs[j], a, Contents(lines, 0, 0)[a])
  {
    RecordsMatchFormat(lines);
  }

  lemma {:induction false} FileByteStored(
      prior: Chip, c: Chip, lines: seq<Line>, recs: seq<Record>, start: nat, j: nat, a: nat, v: byte)
    requires RanThrough(prior, c, lines, recs, start) && j < |recs| && Holds(lines, recs[j], a, v)
    ensures StoredAt(c.mem, a + Shift(start), v)
  {
    var k := a - recs[j].start;
    RecordByteStored(prior, c, lines, recs, start, j, k);
    assert recs[j].start + Shift(start) + k == a + Shift(start);
  }

  /** End to end: if a part has carried out the whole run of a well-formed file with
      aligned, ascending records and no line across a page end, its memory holds what the file describes. */
  lemma {:induction false} CompleteRunStoresFile(prior: Chip, c: Chip, lines: seq<Line>, recs: seq<Record>)
    requires prior.Valid() && WellFormed(lines) && Parse(lines) == Records(recs) && Arranged(recs) && Unbroken(lines, recs)
    requires recs != [] && InSpace(lines, recs, Shift(recs[0].start))
    requires Advanced(prior, c, RunPlan(lines, recs, recs[0].start))
    ensures Stored(c.mem, Contents(lines, 0, 0), Shift(recs[0].start))
  {
    RecordsAreChained(lines, recs);
    MapStored(prior, c, lines, recs, recs[0].start, Contents(lines, 0, 0));
  }

  ghost predicate SomeHolds(lines: seq<Line>, recs: seq<Record>, a: nat, v: byte) {
    exists j :: 0 <= j < |recs| && Holds(lines, recs[j], a, v)
  }

  lemma {:induction false} MapStored(prior: Chip, c: Chip, lines: seq<Line>, recs: seq<Record>, start: nat, m: map<nat, byte>)
    requires RanThrough(prior, c, lines, recs, start)
    requires forall a :: a in m ==> SomeHolds(lines, recs, a, m[a])
    ensures Stored(c.mem, m, Shift(start))
  {
    forall a | a in m
      ensures StoredAt(c.mem, a + Shift(start), m[a])
    {
      HeldIsStored(prior, c, lines, recs, start, a, m[a]);
    }
  }

  lemma {:induction false} HeldIsStored(prior: Chip, c: Chip, lines: seq<Line>, recs: seq<Record>, start: nat, a: nat, v: byte)
    requires RanThrough(prior, c, lines, recs, start) && SomeHolds(lines, recs, a, v)
    ensures StoredAt(c.mem, a + Shift(start), v)
  {
    var j :| 0 <= j < |recs| && Holds(lines, recs[j], a, v);
    FileByteStored(prior, c, lines, recs, start, j, a, v);
  }

  // --- The upgrade as a whole ---

  /** What the first pass found, and where the guard goes. */
  function RecordsOf(lines: seq<Line>): (recs: seq<Record>)
    ensures Located(lines, recs)
  {
    ParsedLocated(lines, 0, START);
    if Parse(lines).Records? then Parse(lines).list else []
  }

  /** The parser only finds records that begin inside the file. */
  lemma {:induction false} ParsedLocated(lines: seq<Line>, i: nat, st: Parser)
    requires i <= |lines| && Located(lines, st.list) && st.record.dataPos <= |lines|
    ensures ParseFrom(lines, i, st).Records? ==> Located(lines, ParseFrom(lines, i, st).list)
    decreases |lines| - i
  {
    if i == |lines| {
    } else {
      match ParseLine(st, lines[i], i + 1)
      case Continue(next) => ParsedLocated(lines, i + 1, next);
      case _ =>
    }
  }

  function StartOf(lines: seq<Line>): nat {
    if RecordsOf(lines) == [] then 0 else RecordsOf(lines)[0].start
  }

  /** Aligned, ascending records whose data lines stay within 128-byte pages. */
  ghost predicate WellPlaced(lines: seq<Line>) {
    Arranged(RecordsOf(lines)) && Unbroken(lines, RecordsOf(lines))
  }

  /** The 32-bit sums of the run do not overflow. */
  ghost predicate Sized(lines: seq<Line>) {
    In32Bits(RecordsOf(lines), Shift(StartOf(lines)))
  }

  /** The file stays below 2^28, so that no address wraps. */
  ghost predicate Addressable(lines: seq<Line>) {
    InSpace(lines, RecordsOf(lines), Shift(StartOf(lines))) && StartOf(lines) + GUARD_SIZE <= ADDRESS_SPACE
  }

  lemma {:induction false} AddressableSized(lines: seq<Line>)
    requires Addressable(lines)
    ensures Sized(lines)
  {
    var recs, shift := RecordsOf(lines), Shift(StartOf(lines));
    forall i | 0 <= i < |recs|
      ensures recs[i].start + shift < UINT32 && recs[i].end + shift + SUBSECTOR_SIZE <= UINT32
    {
      assert Fits(lines, recs[i], shift);
    }
  }

  /** Guarded operations completed so far include the guard itself but not its removal. */
  ghost predicate GuardActive(lines: seq<Line>, k: nat)
  {
    2 <= k <= 2 + |Body(PlanFrom(lines, 0, RecordsOf(lines), GUARD_SIZE).blocks)|
  }

  /** The file fits the part. */
  ghost predicate InPart(lines: seq<Line>, size: nat) {
    AllBelow(RunPlan(lines, RecordsOf(lines), StartOf(lines)), size)
  }

  /** What holds when an upgrade ends. */
  ghost predicate RunResult(f: Flasher, lines: seq<Line>, outcome: Outcome, k: nat, settled: seq<Chip>, begun: bool)
    requires |settled| == 2 && f.slave < 2
    reads f, f.spi
  {
    var recs, start := RecordsOf(lines), StartOf(lines);
    var plan := RunPlan(lines, recs, start);
    && f.Valid()
    && (outcome.Success? ==> begun && Running(f, settled, plan))
    && (begun && outcome.Failed? ==> FailedIn(f, settled, plan, k))
    && (begun && outcome.Crashed? ==> StoppedIn(f, settled, plan, k) && !PlanFrom(lines, 0, recs, Shift(start)).complete)
    && (Addressable(lines) ==> AddressableResult(f, lines, outcome, k, settled, begun))
  }

  /** What holds in addition when no address wraps. */
  ghost predicate AddressableResult(f: Flasher, lines: seq<Line>, outcome: Outcome, k: nat, settled: seq<Chip>, begun: bool)
    requires |settled| == 2 && f.Valid()
    reads f, f.spi
  {
    var recs, start := RecordsOf(lines), StartOf(lines);
    && (outcome.Success? && WellFormed(lines) && WellPlaced(lines) ==>
          Stored(f.spi.chips[f.slave].mem, Contents(lines, 0, 0), if start == 0 then 0 else 0x1000))
    && (begun && !outcome.Success? && Guardable(recs, start) && GuardActive(lines, k) ==>
          Guarded(f.spi.chips[f.slave].mem, start, GuardPage()))
    && (begun && WellFormed(lines) && WellPlaced(lines) ==>
          && |f.spi.chips[f.slave].mem| == |settled[f.slave].mem|
          && forall x: nat :: x < |settled[f.slave].mem| && Untouched(recs, start, x) ==>
               f.spi.chips[f.slave].mem[x] == settled[f.slave].mem[x])
  }

  lemma {:induction false} NothingRun(f: Flasher, lines: seq<Line>, outcome: Outcome, k: nat, settled: seq<Chip>)
    requires RecordsOf(lines) == [] && |settled| == 2 && f.Valid() && !outcome.Success?
    ensures RunResult(f, lines, outcome, k, settled, false)
    ensures forall before, size :: FailsOnlyByFault(f, lines, outcome, before, size)
  {
    if WellFormed(lines) {
      AcceptsIff(lines);
    }
  }

  /** How an upgrade ends whose first status poll failed. */
  ghost predicate NotBegun(f: Flasher, chips: seq<Chip>, selection: Selection, shifted: seq<byte>, first: Chip, x: byte)
    requires |chips| == 2 && chips[0].Valid() && chips[1].Valid() && f.slave < 2
    reads f, f.spi
  {
    && BrokenOff(f.spi, chips, selection, shifted, f.slave, first, Probe(x))
    && MayFail(f.forecast, f.spi.fault, Carried(selection, shifted, f.slave)) && f.since < f.spi.faults
  }

  lemma {:induction false} PlanIsComplete(lines: seq<Line>, recs: seq<Record>)
    requires WellFormed(lines) && Parse(lines) == Records(recs) && recs != [] && WellPlaced(lines) && Addressable(lines)
    ensures PlanFrom(lines, 0, recs, Shift(recs[0].start)).complete
  {
    RecordsAreChained(lines, recs);
    InSpaceEnds(lines, recs, Shift(recs[0].start));
    PlanIsImage(lines, 0, recs, Shift(recs[0].start));
  }

  /** A well-formed file with consecutive data lines and well-placed records that fits the part
      fails only after a fault. */
  ghost predicate FailsOnlyByFault(f: Flasher, lines: seq<Line>, outcome: Outcome, before: nat, size: nat)
    reads f.spi
  {
    WellFormed(lines) && Consecutive(lines) && WellPlaced(lines) && Addressable(lines) && InPart(lines, size) ==>
      outcome.Success? || before < f.spi.faults
  }

  lemma {:induction false} FailsByFault(
      f: Flasher, lines: seq<Line>, outcome: Outcome, k: nat, settled: seq<Chip>, begun: bool, size: nat)
    requires |settled| == 2 && f.slave < 2 && settled[f.slave].Valid() && size == |settled[f.slave].mem|
    requires RunResult(f, lines, outcome, k, settled, begun)
    requires RecordsOf(lines) != [] && !begun ==> f.since < f.spi.faults
    ensures FailsOnlyByFault(f, lines, outcome, f.since, size)
  {
    if WellFormed(lines) && Consecutive(lines) && WellPlaced(lines) && Addressable(lines) && InPart(lines, size) {
      AcceptsIff(lines);
      PlanIsComplete(lines, RecordsOf(lines));
    }
  }

  /** No operation of an addressable file has an address that wraps. */
  lemma {:induction false} AddressablePlan(lines: seq<Line>, recs: seq<Record>, start: nat)
    requires InSpace(lines, recs, Shift(start)) && start + GUARD_SIZE <= ADDRESS_SPACE
    ensures AllReduced(RunPlan(lines, recs, start)) == RunPlan(lines, recs, start)
  {
    var bs := PlanFrom(lines, 0, recs, Shift(start)).blocks;
    PlanInSpace(lines, 0, recs, Shift(start));
    BodyInSpace(bs);
  }

  lemma {:induction false} RunEnds(f: Flasher, lines: seq<Line>, recs: seq<Record>, outcome: Outcome, k: nat, settled: seq<Chip>)
    requires Parse(lines) == Records(recs) && recs != [] && Located(lines, recs) && f.Valid()
    requires |settled| == 2 && settled[f.slave].Valid()
    requires outcome.Success? ==>
      PlanFrom(lines, 0, recs, Shift(recs[0].start)).complete && Running(f, settled, RunPlan(lines, recs, recs[0].start))
    requires outcome.Failed? ==> FailedIn(f, settled, RunPlan(lines, recs, recs[0].start), k)
    requires outcome.Crashed? ==>
      StoppedIn(f, settled, RunPlan(lines, recs, recs[0].start), k) && !PlanFrom(lines, 0, recs, Shift(recs[0].start)).complete
    ensures RunResult(f, lines, outcome, k, settled, true)
  {
    if Addressable(lines) {
      AddressablePlan(lines, recs, recs[0].start);
      AddressableRunEnds(f, lines, recs, outcome, k, settled);
    }
  }

  lemma {:induction false} AddressableRunEnds(f: Flasher, lines: seq<Line>, recs: seq<Record>, outcome: Outcome, k: nat, settled: seq<Chip>)
    requires Addressable(lines) && Parse(lines) == Records(recs) && recs != [] && f.Valid()
    requires |settled| == 2 && settled[f.slave].Valid()
    requires outcome.Success? ==>
      PlanFrom(lines, 0, recs, Shift(recs[0].start)).complete && Session(f, settled, RunPlan(lines, recs, recs[0].start))
    requires !outcome.Success? ==> StoppedAt(f, settled, RunPlan(lines, recs, recs[0].start), k)
    ensures AddressableResult(f, lines, outcome, k, settled, true)
  {
    var start, c := recs[0].start, f.spi.chips[f.slave];
    var plan := RunPlan(lines, recs, start);
    var n := if outcome.Success? then |plan| else k;
    assert plan[..|plan|] == plan;
    if WellFormed(lines) && WellPlaced(lines) {
      RecordsAreChained(lines, recs);
      ArrangedAbove(recs, 0);
      if outcome.Success? {
        CompleteRunStoresFile(settled[f.slave], c, lines, recs);
      }
      forall x: nat | x < |settled[f.slave].mem| && Untouched(recs, start, x)
        ensures |c.mem| == |settled[f.slave].mem| && c.mem[x] == settled[f.slave].mem[x]
      {
        OthersKept(settled[f.slave], c, lines, recs, start, n, x);
      }
    }
    if !outcome.Success? && Guardable(recs, start) && GuardActive(lines, k) {
      StoppedInPart(f, settled, lines, recs, start, k);
      FailedRunIsGuarded(f, settled, lines, recs, start, k);
    }
  }

  ghost predicate BlockInSpace(b: Block) {
    b.end <= ADDRESS_SPACE && b.start + |b.pages| * CHUNK <= ADDRESS_SPACE
  }

  ghost predicate AllInSpace(bs: seq<Block>) {
    forall i :: 0 <= i < |bs| ==> BlockInSpace(bs[i])
  }

  lemma {:induction false} PlanInSpace(lines: seq<Line>, pos: nat, recs: seq<Record>, shift: nat)
    requires InSpace(lines, recs, shift)
    ensures AllInSpace(PlanFrom(lines, pos, recs, shift).blocks)
    decreases |recs|
  {
    if recs == [] {
    } else {
      InSpaceTail(lines, recs, shift);
      BareInSpace(lines, recs, shift);
      BareInSpace(lines, recs[1..], shift);
      if pos < recs[0].dataPos {
        var read := PagesOf(lines, recs[0]);
        PlanInSpace(lines, read.pos, recs[1..], shift);
      }
    }
  }

  lemma {:induction false} BareInSpace(lines: seq<Line>, recs: seq<Record>, shift: nat)
    requires InSpace(lines, recs, shift)
    ensures AllInSpace(Bare(recs, shift))
    decreases |recs|
  {
    if recs == [] {
    } else {
      InSpaceTail(lines, recs, shift);
      BareInSpace(lines, recs[1..], shift);
    }
  }

  lemma {:induction false} ErasesBelow(start: nat, end: nat)
    ensures forall i :: 0 <= i < |EraseOps(start, end)| ==> EraseOps(start, end)[i].addr < end
    decreases end - start
  {
    if start < end {
      ErasesBelow(start + SUBSECTOR_SIZE, end);
    }
  }

  lemma {:induction false} BodyInSpace(bs: seq<Block>)
    requires AllInSpace(bs)
    ensures forall i :: 0 <= i < |AllErases(bs)| ==> AllErases(bs)[i].addr < ADDRESS_SPACE
    ensures forall i :: 0 <= i < |AllPages(bs)| ==> AllPages(bs)[i].addr < ADDRESS_SPACE
    decreases |bs|
  {
    if bs == [] {
    } else {
      ErasesBelow(bs[0].start, bs[0].end);
      BodyInSpace(bs[1..]);
    }
  }

  /** Once the guard has been written its subsector is known to lie in the part. */
  lemma {:induction false} StoppedInPart(
      f: Flasher, prior: seq<Chip>, lines: seq<Line>, recs: seq<Record>, start: nat, k: nat)
    requires Located(lines, recs) && start != 0 && start % SUBSECTOR_SIZE == 0 && 2 <= k
    requires StoppedAt(f, prior, RunPlan(lines, recs, start), k)
    ensures start + GUARD_SIZE <= |f.spi.chips[f.slave].mem|
  {
    assert RunPlan(lines, recs, start)[..k][0] == Erase(start);
  }
}
