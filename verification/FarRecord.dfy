/** A file whose second record wraps onto its guard: a byte at 0x10000 and a byte at
    0x1000F000. */
module FarRecord {
  import opened Common
  import opened NorFlash
  import opened FlashCommands
  import opened FlashSchedule
  import opened McsFile
  import opened McsCorrect
  import opened UpgradePlan
  import opened UpgradeSafety
  import opened WrappedRun

  /** An extended address line and the data line after it. */
  function AddressLine(upper: u16): Line {
    Line(Colon, Some(2), Some(0), Some(4), Some(upper), true, [Some(upper / 0x100), Some(upper % 0x100)], true)
  }

  function ByteLine(address: u16, b: byte): Line {
    Line(Colon, Some(1), Some(address), Some(0), None, true, [Some(b)], true)
  }

  function File(a: byte, b: byte): seq<Line> {
    [AddressLine(0x0001), ByteLine(0x0000, a), AddressLine(0x1000), ByteLine(0xF000, b),
     Line(Colon, Some(0), Some(0), Some(1), None, true, [], true)]
  }

  const NEAR := Record(0x1_0000, 0x1_0001, 1, 1)
  const FAR := Record(0x1000_F000, 0x1000_F001, 1, 3)

  lemma {:induction false} Parses(a: byte, b: byte)
    ensures Parse(File(a, b)) == Records([NEAR, FAR])
  {
    var lines := File(a, b);
    var one := Parser(Record(0x1_0000, 0x1_0000, 0, 1), [], true);
    var two := Parser(NEAR, [], true);
    var three := Parser(Record(0x1000_0000, 0x1000_0000, 0, 3), [NEAR], true);
    var four := Parser(FAR, [NEAR], true);
    assert ParseLine(START, lines[0], 1) == Continue(one);
    assert ParseLine(one, lines[1], 2) == Continue(two);
    assert ParseLine(two, lines[2], 3) == Continue(three);
    assert ParseLine(three, lines[3], 4) == Continue(four);
    assert ParseLine(four, lines[4], 5) == Finish([NEAR, FAR]);
    assert ParseFrom(lines, 4, four) == Records([NEAR, FAR]);
    assert ParseFrom(lines, 3, three) == ParseFrom(lines, 4, four);
    assert ParseFrom(lines, 2, two) == ParseFrom(lines, 3, three);
    assert ParseFrom(lines, 1, one) == ParseFrom(lines, 2, two);
  }

  lemma {:induction false} IsWellFormed(a: byte, b: byte)
    ensures WellFormed(File(a, b)) && NoStraddle(File(a, b), 1, 0) && NoStraddle(File(a, b), 3, 0)
  {
    var lines := File(a, b);
    assert TokenOf(lines[0]).Extended? && TokenOf(lines[2]).Extended? && TokenOf(lines[4]).End?;
    assert WellFormedFrom(lines, 4);
    assert WellFormedFrom(lines, 3);
    assert WellFormedFrom(lines, 2);
    assert WellFormedFrom(lines, 1);
    assert NoStraddle(lines, 2, Fill(0, 1)) && NoStraddle(lines, 4, Fill(0, 1));
  }

  lemma {:induction false} IsRegular(a: byte, b: byte)
    ensures Regular(File(a, b), [NEAR, FAR])
  {
    var lines, recs := File(a, b), [NEAR, FAR];
    Parses(a, b);
    IsWellFormed(a, b);
    assert Unbroken(lines, recs);
    RecordsAreChained(lines, recs);
  }

  /** The upgrade takes this file. */
  lemma {:induction false} IsSized(a: byte, b: byte)
    ensures Sized(File(a, b)) && RecordsOf(File(a, b)) == [NEAR, FAR] && StartOf(File(a, b)) == 0x1_0000
  {
    Parses(a, b);
  }

  /** Whatever the flash held, the upgrade from this file erases its own guard before it is
      done: an interruption then leaves a partly written image without a guard. */
  lemma {:induction false} LosesItsGuard(mem: seq<byte>, a: byte, b: byte)
    requires 0x1_1000 <= |mem|
    ensures !GuardedThroughout(mem, AllReduced(RunPlan(File(a, b), [NEAR, FAR], 0x1_0000)),
               |Body(PlanFrom(File(a, b), 0, [NEAR, FAR], GUARD_SIZE).blocks)|, 0x1_0000)
  {
    var recs := [NEAR, FAR];
    IsRegular(a, b);
    assert recs[1] == FAR && !RecordClear(recs[1], GUARD_SIZE, Mirror(0x1_0000, 1));
    GuardKeptIff(mem, File(a, b), recs, 0x1_0000);
  }
}
