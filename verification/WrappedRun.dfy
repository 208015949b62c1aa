/** Files that reach beyond 2^28: the address of an operation wraps there, so that a record can
    land on the guard.  When the guard is safe, exactly. */
module WrappedRun {
  import opened NorFlash
  import opened FlashCommands
  import opened XspiFlasher
  import opened FlashSession
  import opened FlashSchedule
  import opened McsFile
  import opened UpgradePlan
  import opened UpgradeSafety
  import opened UpgradeRetry

  const SUBSECTORS := ADDRESS_SPACE / SUBSECTOR_SIZE
  const PAGES := ADDRESS_SPACE / PAGE_SIZE

  // --- One operation ---

  /** The address x seen from the q-th stretch of 2^28 addresses. */
  function Mirror(x: nat, q: nat): nat {
    x + q * ADDRESS_SPACE
  }

  lemma {:induction false} Stretches(a: nat, unit: nat)
    requires unit == SUBSECTOR_SIZE || unit == PAGE_SIZE
    ensures var q, r := a / ADDRESS_SPACE, a % ADDRESS_SPACE;
      a == Mirror(r, q) && a / unit == r / unit + q * (ADDRESS_SPACE / unit) && r / unit < ADDRESS_SPACE / unit
  {
    var q, r := a / ADDRESS_SPACE, a % ADDRESS_SPACE;
    assert a == q * ADDRESS_SPACE + r;
  }

  lemma {:induction false} SameStretch(i: nat, j: nat, p: nat, q: nat, n: nat)
    requires i < n && j < n && i + p * n == j + q * n && (n == SUBSECTORS || n == PAGES)
    ensures p == q && i == j
  {
    if n == SUBSECTORS {
      assert i + p * 0x1_0000 == j + q * 0x1_0000;
    } else {
      assert i + p * 0x10_0000 == j + q * 0x10_0000;
    }
  }

  lemma {:induction false} ImageParts(x: nat, q: nat)
    requires x < ADDRESS_SPACE
    ensures Mirror(x, q) / ADDRESS_SPACE == q && Mirror(x, q) % ADDRESS_SPACE == x
  {
  }

  /** A wrapped operation touches x exactly when the operation touches x in its own stretch,
      and it touches no image of x elsewhere. */
  lemma {:induction false} ReducedTouches(op: FlashOp, x: nat, q: nat)
    requires x < ADDRESS_SPACE
    ensures Touches(op, Mirror(x, q)) <==> q == op.addr / ADDRESS_SPACE && Touches(Reduced(op), x)
  {
    var unit := if op.Erase? then SUBSECTOR_SIZE else PAGE_SIZE;
    Stretches(op.addr, unit);
    ImageParts(x, q);
    Stretches(Mirror(x, q), unit);
    if op.addr / unit == Mirror(x, q) / unit {
      SameStretch(op.addr % ADDRESS_SPACE / unit, x / unit, op.addr / ADDRESS_SPACE, q, ADDRESS_SPACE / unit);
    }
  }

  lemma {:induction false} ReducedAvoidsIff(ops: seq<FlashOp>, x: nat)
    requires x < ADDRESS_SPACE
    ensures Avoids(AllReduced(ops), x) <==> forall q: nat :: Avoids(ops, Mirror(x, q))
  {
    var reduced := AllReduced(ops);
    if Avoids(reduced, x) {
      forall q: nat, i | 0 <= i < |ops|
        ensures !Touches(ops[i], Mirror(x, q))
      {
        assert !Touches(reduced[i], x);
        ReducedTouches(ops[i], x, q);
      }
    } else {
      var i :| 0 <= i < |reduced| && Touches(reduced[i], x);
      var q := ops[i].addr / ADDRESS_SPACE;
      ReducedTouches(ops[i], x, q);
      assert !Avoids(ops, Mirror(x, q));
    }
  }

  // --- The guard ---

  lemma {:induction false} ReducedAvoidsGuardIff(ops: seq<FlashOp>, guard: nat)
    requires guard + GUARD_SIZE <= ADDRESS_SPACE
    ensures AvoidsGuard(AllReduced(ops), guard) <==> forall q: nat :: AvoidsGuard(ops, Mirror(guard, q))
  {
    if AvoidsGuard(AllReduced(ops), guard) {
      forall q: nat, x: nat | Mirror(guard, q) <= x < Mirror(guard, q) + GUARD_SIZE
        ensures Avoids(ops, x)
      {
        var y: nat := x - q * ADDRESS_SPACE;
        assert Avoids(AllReduced(ops), y);
        ReducedAvoidsIff(ops, y);
        assert Mirror(y, q) == x;
      }
    }
    if forall q: nat :: AvoidsGuard(ops, Mirror(guard, q)) {
      forall x: nat | guard <= x < guard + GUARD_SIZE
        ensures Avoids(AllReduced(ops), x)
      {
        forall q: nat ensures Avoids(ops, Mirror(x, q)) {
          assert AvoidsGuard(ops, Mirror(guard, q));
        }
        ReducedAvoidsIff(ops, x);
      }
    }
  }

  /** No record with data reaches, after the shift, a subsector that wraps onto the guard. */
  ghost predicate ClearOfGuard(recs: seq<Record>, shift: nat, guard: nat) {
    forall i, q: nat :: 0 <= i < |recs| ==> RecordClear(recs[i], shift, Mirror(guard, q))
  }

  ghost predicate RecordClear(r: Record, shift: nat, guard: nat) {
    r.count > 0 ==> guard + GUARD_SIZE <= r.start + shift || r.start + shift + r.count <= guard
  }

  lemma {:induction false} ImageAligned(guard: nat, q: nat)
    requires guard % SUBSECTOR_SIZE == 0
    ensures Mirror(guard, q) % SUBSECTOR_SIZE == 0
  {
    assert Mirror(guard, q) == (guard / SUBSECTOR_SIZE + q * SUBSECTORS) * SUBSECTOR_SIZE;
  }

  /** A well-formed file with aligned, ascending records, none of which ends beyond 2^32. */
  ghost predicate Regular(lines: seq<Line>, recs: seq<Record>) {
    && Chained(lines, recs) && Arranged(recs) && EndsInOrder(recs) && (recs != [] ==> 0 < recs[0].dataPos)
  }

  lemma {:induction false} PlanClearIff(lines: seq<Line>, recs: seq<Record>, shift: nat, guard: nat)
    requires Regular(lines, recs) && shift % SUBSECTOR_SIZE == 0 && guard % SUBSECTOR_SIZE == 0
    ensures AvoidsGuard(Body(PlanFrom(lines, 0, recs, shift).blocks), guard) <==>
      forall i :: 0 <= i < |recs| ==> RecordClear(recs[i], shift, guard)
  {
    PlanAvoidsGuardIff(lines, recs, shift, guard);
  }

  /** The wrapped erases and programs of a file leave the guard alone exactly when its records
      are clear of every address that wraps onto the guard. */
  lemma {:induction false} WrappedClearIff(lines: seq<Line>, recs: seq<Record>, shift: nat, guard: nat)
    requires Regular(lines, recs) && shift % SUBSECTOR_SIZE == 0
    requires guard % SUBSECTOR_SIZE == 0 && guard + GUARD_SIZE <= ADDRESS_SPACE
    ensures AvoidsGuard(AllReduced(Body(PlanFrom(lines, 0, recs, shift).blocks)), guard) <==> ClearOfGuard(recs, shift, guard)
  {
    var body := Body(PlanFrom(lines, 0, recs, shift).blocks);
    ReducedAvoidsGuardIff(body, guard);
    forall q: nat
      ensures AvoidsGuard(body, Mirror(guard, q)) <==> forall i :: 0 <= i < |recs| ==> RecordClear(recs[i], shift, Mirror(guard, q))
    {
      ImageAligned(guard, q);
      PlanClearIff(lines, recs, shift, Mirror(guard, q));
    }
  }

  // --- The run ---

  lemma {:induction false} GuardAddress(start: nat)
    requires start % SUBSECTOR_SIZE == 0
    ensures var guard := start % ADDRESS_SPACE;
      && guard % SUBSECTOR_SIZE == 0 && guard + GUARD_SIZE <= ADDRESS_SPACE && (start + CHUNK) % ADDRESS_SPACE == guard + CHUNK
  {
    Stretches(start, SUBSECTOR_SIZE);
    var q, r := start / ADDRESS_SPACE, start % ADDRESS_SPACE / SUBSECTOR_SIZE;
    FromSubsector(start, q, r);
    Subsector(r);
    ImageParts(r * SUBSECTOR_SIZE, q);
    ImageParts(r * SUBSECTOR_SIZE + CHUNK, q);
  }

  lemma {:induction false} FromSubsector(start: nat, q: nat, r: nat)
    requires start % SUBSECTOR_SIZE == 0 && start / SUBSECTOR_SIZE == r + q * SUBSECTORS
    ensures start == Mirror(r * SUBSECTOR_SIZE, q)
  {
  }

  lemma {:induction false} Subsector(r: nat)
    requires r < SUBSECTORS
    ensures r * SUBSECTOR_SIZE % SUBSECTOR_SIZE == 0 && r * SUBSECTOR_SIZE + SUBSECTOR_SIZE <= ADDRESS_SPACE
  {
  }

  /** What reaches the part: guard, wrapped body and, after a complete body, the removal. */
  lemma {:induction false} ReducedRun(lines: seq<Line>, recs: seq<Record>, start: nat)
    requires Located(lines, recs) && start != 0 && start % SUBSECTOR_SIZE == 0
    ensures var guard, body := start % ADDRESS_SPACE, AllReduced(Body(PlanFrom(lines, 0, recs, GUARD_SIZE).blocks));
      var run := GuardedRun(guard, GuardPage(), body);
      |body| + 2 <= |AllReduced(RunPlan(lines, recs, start))| && AllReduced(RunPlan(lines, recs, start)) <= run
  {
    var p := PlanFrom(lines, 0, recs, GUARD_SIZE);
    var body := Body(p.blocks);
    var removal := if p.complete then [Erase(start)] else [];
    GuardAddress(start);
    ReducedConcat(GuardOps(start, GuardPage()) + body, removal);
    ReducedConcat(GuardOps(start, GuardPage()), body);
    assert AllReduced(GuardOps(start, GuardPage())) == GuardOps(start % ADDRESS_SPACE, GuardPage());
    assert AllReduced(removal) <= [Erase(start % ADDRESS_SPACE)];
  }

  lemma {:induction false} PrefixOf(plan: seq<FlashOp>, run: seq<FlashOp>, k: nat)
    requires plan <= run && k <= |plan|
    ensures plan[..k] == run[..k] && (k < |plan| ==> plan[k] == run[k])
  {
  }

  /** At every failing exit of an upgrade with its guard up, also of a file that reaches beyond
      2^28, the guard is in the flash, and would be if the part were deselected then, provided
      that no record wraps onto it. */
  lemma {:induction false} WrappedRunIsGuarded(f: Flasher, prior: seq<Chip>, lines: seq<Line>, recs: seq<Record>, start: nat, k: nat)
    requires Regular(lines, recs) && start != 0 && start % SUBSECTOR_SIZE == 0
    requires ClearOfGuard(recs, GUARD_SIZE, start % ADDRESS_SPACE)
    requires StoppedIn(f, prior, RunPlan(lines, recs, start), k)
    requires 2 <= k <= 2 + |Body(PlanFrom(lines, 0, recs, GUARD_SIZE).blocks)|
    ensures Guarded(f.spi.chips[f.slave].mem, start % ADDRESS_SPACE, GuardPage())
    ensures k < 2 + |Body(PlanFrom(lines, 0, recs, GUARD_SIZE).blocks)| ==>
      Guarded(Execute(f.spi.chips[f.slave], f.spi.shifted).mem, start % ADDRESS_SPACE, GuardPage())
  {
    var guard, body := start % ADDRESS_SPACE, AllReduced(Body(PlanFrom(lines, 0, recs, GUARD_SIZE).blocks));
    var plan, run := AllReduced(RunPlan(lines, recs, start)), GuardedRun(guard, GuardPage(), body);
    ReducedRun(lines, recs, start);
    GuardAddress(start);
    WrappedClearIff(lines, recs, GUARD_SIZE, guard);
    PrefixOf(plan, run, k);
    StoppedRunIsGuarded(f, prior, plan, run, body, guard, k);
  }

  lemma {:induction false} StoppedRunIsGuarded(
      f: Flasher, prior: seq<Chip>, plan: seq<FlashOp>, run: seq<FlashOp>, body: seq<FlashOp>, guard: nat, k: nat)
    requires StoppedAt(f, prior, plan, k) && run == GuardedRun(guard, GuardPage(), body)
    requires guard % SUBSECTOR_SIZE == 0 && AvoidsGuard(body, guard) && 2 <= k <= |body| + 2 <= |plan|
    requires plan[..k] == run[..k] && (k < |plan| ==> plan[k] == run[k])
    ensures Guarded(f.spi.chips[f.slave].mem, guard, GuardPage())
    ensures k < |body| + 2 ==> Guarded(Execute(f.spi.chips[f.slave], f.spi.shifted).mem, guard, GuardPage())
  {
    var c, mem := f.spi.chips[f.slave], prior[f.slave].mem;
    assert run[..k][0] == Erase(guard);
    PartHoldsGuard(prior[f.slave], guard);
    GuardSurvivesInterruption(mem, guard, GuardPage(), body, k, c.mem);
    if k < |body| + 2 {
      ConfinedMeaning(c, f.spi.shifted, run[k], f.spi.depth);
      GuardSurvivesInterruption(mem, guard, GuardPage(), body, k, Execute(c, f.spi.shifted).mem);
    }
  }

  lemma {:induction false} PartHoldsGuard(c: Chip, guard: nat)
    requires |c.mem| % SUBSECTOR_SIZE == 0 && guard % SUBSECTOR_SIZE == 0 && guard < |c.mem|
    ensures guard + GUARD_SIZE <= |c.mem|
  {
  }

  // --- Exactly then ---

  /** The guard is there after every operation from its write to its removal. */
  ghost predicate GuardedThroughout(mem: seq<byte>, run: seq<FlashOp>, n: nat, guard: nat) {
    n + 2 <= |run| && forall k :: 2 <= k <= n + 2 ==> Guarded(ApplyAll(mem, run[..k]), guard, GuardPage())
  }

  /** A wrapped erase in the guard's subsector costs the guard. */
  lemma {:induction false} ErasedInRun(mem: seq<byte>, run: seq<FlashOp>, n: nat, guard: nat, m: nat)
    requires m < n && n + 2 <= |run| && guard % SUBSECTOR_SIZE == 0 && guard + GUARD_SIZE <= |mem|
    requires run[2 + m].Erase? && run[2 + m].addr / SUBSECTOR_SIZE == guard / SUBSECTOR_SIZE
    ensures !GuardedThroughout(mem, run, n, guard)
  {
    var done := run[..3 + m];
    assert done[..|done| - 1] == run[..2 + m] && done[|done| - 1] == run[2 + m];
    LostIfErased(ApplyAll(mem, run[..2 + m]), run[2 + m].addr, guard);
    assert !Guarded(ApplyAll(mem, run[..3 + m]), guard, GuardPage());
  }

  /** If the body of a regular file does not avoid the guard, one of its erases hits it. */
  lemma {:induction false} SomeEraseHits(lines: seq<Line>, recs: seq<Record>, guard: nat) returns (m: nat)
    requires Regular(lines, recs) && guard % SUBSECTOR_SIZE == 0
    requires !AvoidsGuard(Body(PlanFrom(lines, 0, recs, GUARD_SIZE).blocks), guard)
    ensures var body := Body(PlanFrom(lines, 0, recs, GUARD_SIZE).blocks);
      m < |body| && body[m].Erase? && body[m].addr / SUBSECTOR_SIZE == guard / SUBSECTOR_SIZE
  {
    var bs := BlocksOf(ImagesFor(lines, recs, GUARD_SIZE));
    PlanIsImage(lines, 0, recs, GUARD_SIZE);
    ImagesTidy(lines, recs, GUARD_SIZE);
    var x: nat :| guard <= x < guard + GUARD_SIZE && !Avoids(Body(bs), x);
    BodyAvoidsIff(bs, x);
    AvoidsConcat(AllErases(bs), AllPages(bs), x);
    m :| 0 <= m < |AllErases(bs)| && Touches(AllErases(bs)[m], x);
    ErasesErase(bs, m);
    SameSubsector(guard, x);
  }

  lemma {:induction false} ErasesErase(bs: seq<Block>, m: nat)
    requires m < |AllErases(bs)|
    ensures AllErases(bs)[m].Erase?
    decreases |bs|
  {
    if bs == [] {
    } else if m < |EraseOps(bs[0].start, bs[0].end)| {
      EraseOpsAt(bs[0].start, bs[0].end, m);
    } else {
      ErasesErase(bs[1..], m - |EraseOps(bs[0].start, bs[0].end)|);
    }
  }

  /** Crash safety with its exact condition, for every regular file: the guard is in the flash
      after each operation from its write to its removal exactly when no record with data
      wraps onto it. */
  lemma {:induction false} GuardKeptIff(mem: seq<byte>, lines: seq<Line>, recs: seq<Record>, start: nat)
    requires Regular(lines, recs) && start != 0 && start % SUBSECTOR_SIZE == 0
    requires start % ADDRESS_SPACE + GUARD_SIZE <= |mem|
    ensures GuardedThroughout(mem, AllReduced(RunPlan(lines, recs, start)),
              |Body(PlanFrom(lines, 0, recs, GUARD_SIZE).blocks)|, start % ADDRESS_SPACE) <==>
      ClearOfGuard(recs, GUARD_SIZE, start % ADDRESS_SPACE)
  {
    var whole := Body(PlanFrom(lines, 0, recs, GUARD_SIZE).blocks);
    var guard, body := start % ADDRESS_SPACE, AllReduced(whole);
    var plan, run := AllReduced(RunPlan(lines, recs, start)), GuardedRun(guard, GuardPage(), body);
    ReducedRun(lines, recs, start);
    GuardAddress(start);
    WrappedClearIff(lines, recs, GUARD_SIZE, guard);
    if AvoidsGuard(body, guard) {
      ClearRunIsGuarded(mem, plan, run, body, guard);
    } else {
      ReducedAvoidsGuardIff(whole, guard);
      var q: nat :| !AvoidsGuard(whole, Mirror(guard, q));
      ImageAligned(guard, q);
      var m := SomeEraseHits(lines, recs, Mirror(guard, q));
      HitWraps(whole[m], guard, q);
      assert plan[2 + m] == run[2 + m] == body[m];
      ErasedInRun(mem, plan, |whole|, guard, m);
    }
  }

  lemma {:induction false} HitWraps(op: FlashOp, guard: nat, q: nat)
    requires op.Erase? && guard < ADDRESS_SPACE && op.addr / SUBSECTOR_SIZE == Mirror(guard, q) / SUBSECTOR_SIZE
    ensures Reduced(op).addr / SUBSECTOR_SIZE == guard / SUBSECTOR_SIZE
  {
    ReducedTouches(op, guard, q);
  }

  lemma {:induction false} ClearRunIsGuarded(mem: seq<byte>, plan: seq<FlashOp>, run: seq<FlashOp>, body: seq<FlashOp>, guard: nat)
    requires run == GuardedRun(guard, GuardPage(), body) && plan <= run && |body| + 2 <= |plan|
    requires guard % SUBSECTOR_SIZE == 0 && guard + GUARD_SIZE <= |mem| && AvoidsGuard(body, guard)
    ensures GuardedThroughout(mem, plan, |body|, guard)
  {
    forall k | 2 <= k <= |body| + 2 ensures Guarded(ApplyAll(mem, plan[..k]), guard, GuardPage()) {
      PrefixOf(plan, run, k);
      GuardSurvivesInterruption(mem, guard, GuardPage(), body, k, ApplyAll(mem, run[..k]));
    }
  }
}
