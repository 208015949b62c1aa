/** A file that is exposed to the loss of its guard: one data byte at 0x10000. */
module ShortFile {
  import opened Common
  import opened NorFlash
  import opened SpiWire
  import opened SpiController
  import opened FlashCommands
  import opened XspiFlasher
  import opened FlashSchedule
  import opened McsFile
  import opened McsCorrect
  import opened UpgradePlan
  import opened XspiUpgrade
  import opened UpgradeSafety
  import opened GuardLoss

  const TEXT: seq<string> := [":020000040001F9", ":01000000AA55", ":00000001FF"]

  const LINES: seq<Line> := [
    Line(Colon, Some(2), Some(0), Some(4), Some(1), true, [Some(0), Some(1)], true),
    Line(Colon, Some(1), Some(0), Some(0), Some(0xAA55), true, [Some(0xAA)], true),
    Line(Colon, Some(0), Some(0), Some(1), Some(0xFF), true, [], true)]

  const RECORD := Record(0x1_0000, 0x1_0001, 1, 1)

  lemma {:induction false} TwoDigits(line: string, pos: nat)
    requires pos + 2 <= |line| && HexValue(line[pos]) >= 0 && HexValue(line[pos + 1]) >= 0
    ensures Field(line, pos, 2) == Some(16 * HexValue(line[pos]) + HexValue(line[pos + 1]))
  {
    var s := line[pos..pos + 2];
    assert s[0..] == s;
  }

  lemma {:induction false} FourDigits(line: string, pos: nat)
    requires pos + 4 <= |line| && forall i :: pos <= i < pos + 4 ==> HexValue(line[i]) >= 0
    ensures Field(line, pos, 4) == Some(0x1000 * HexValue(line[pos]) + 0x100 * HexValue(line[pos + 1])
                                        + 16 * HexValue(line[pos + 2]) + HexValue(line[pos + 3]))
  {
    var s := line[pos..pos + 4];
    assert s[..2][0] == line[pos] && s[..2][1] == line[pos + 1] && s[2..][0] == line[pos + 2] && s[2..][1] == line[pos + 3];
  }

  lemma {:induction false} Header(line: string)
    requires |line| >= 9 && line[0] == ':' && forall i :: 1 <= i < 9 ==> HexValue(line[i]) >= 0
    ensures Field(line, 1, 2) == Some(16 * HexValue(line[1]) + HexValue(line[2]))
    ensures Field(line, 3, 4) == Some(0x1000 * HexValue(line[3]) + 0x100 * HexValue(line[4])
                                      + 16 * HexValue(line[5]) + HexValue(line[6]))
    ensures Field(line, 7, 2) == Some(16 * HexValue(line[7]) + HexValue(line[8]))
  {
    TwoDigits(line, 1);
    FourDigits(line, 3);
    TwoDigits(line, 7);
  }

  lemma {:induction false} PairFirst(s: string)
    requires |s| >= 2 && HexValue(s[0]) >= 0 && HexValue(s[1]) >= 0
    ensures Pairs(s) == [Some(16 * HexValue(s[0]) + HexValue(s[1]))] + Pairs(s[2..])
  {
  }

  lemma {:induction false} TwoPairs(s: string)
    requires |s| == 4 && forall i :: 0 <= i < 4 ==> HexValue(s[i]) >= 0
    ensures Pairs(s) == [Some(16 * HexValue(s[0]) + HexValue(s[1])), Some(16 * HexValue(s[2]) + HexValue(s[3]))]
  {
    PairFirst(s);
    PairFirst(s[2..]);
    assert s[2..][2..] == "";
  }

  lemma {:induction false} ScanFirst()
    ensures Scan(TEXT[0]) == LINES[0]
  {
    AddressScanned(TEXT[0]);
  }

  lemma {:induction false} AddressScanned(line: string)
    requires |line| == 15 && line[0] == ':' && forall i :: 1 <= i < 15 ==> HexValue(line[i]) >= 0
    requires HexValue(line[1]) == 0 && HexValue(line[2]) == 2
    ensures Scan(line) == Line(Colon, Some(2), Field(line, 3, 4), Field(line, 7, 2), Field(line, 9, 4), true, Pairs(line[9..13]), true)
    ensures Field(line, 3, 4) == Some(0x1000 * HexValue(line[3]) + 0x100 * HexValue(line[4])
                                      + 16 * HexValue(line[5]) + HexValue(line[6]))
    ensures Field(line, 7, 2) == Some(16 * HexValue(line[7]) + HexValue(line[8]))
    ensures Field(line, 9, 4) == Some(0x1000 * HexValue(line[9]) + 0x100 * HexValue(line[10])
                                      + 16 * HexValue(line[11]) + HexValue(line[12]))
    ensures Pairs(line[9..13]) == [Some(16 * HexValue(line[9]) + HexValue(line[10])), Some(16 * HexValue(line[11]) + HexValue(line[12]))]
  {
    Header(line);
    FourDigits(line, 9);
    TwoPairs(line[9..13]);
  }

  lemma {:induction false} ScanSecond()
    ensures Scan(TEXT[1]) == LINES[1]
  {
    var line := TEXT[1];
    Header(line);
    FourDigits(line, 9);
    var s := line[9..11];
    PairFirst(s);
    assert s[2..] == "";
  }

  lemma {:induction false} ScanThird()
    ensures Scan(TEXT[2]) == LINES[2]
  {
    var line := TEXT[2];
    Header(line);
    var s := line[9..11];
    assert s[..0] == "" && s[0..] == s && line[9..9] == "";
    assert HexPair(s) == 0xFF;
  }

  lemma {:induction false} Scanned()
    ensures ScanAll(TEXT) == LINES
  {
    ScanFirst();
    ScanSecond();
    ScanThird();
  }

  lemma {:induction false} Parsed()
    ensures Parse(LINES) == Records([RECORD])
  {
    var atStart := Parser(Record(0x1_0000, 0x1_0000, 0, 1), [], true);
    assert ParseLine(START, LINES[0], 1) == Continue(atStart);
    assert ParseLine(atStart, LINES[1], 2) == Continue(Parser(RECORD, [], true));
    assert ParseLine(Parser(RECORD, [], true), LINES[2], 3) == Finish([RECORD]);
    assert ParseFrom(LINES, 2, Parser(RECORD, [], true)) == Records([RECORD]);
    assert ParseFrom(LINES, 1, atStart) == Records([RECORD]);
  }

  lemma {:induction false} OneRecord(lines: seq<Line>)
    requires Parse(lines) == Records([RECORD])
    ensures RecordsOf(lines) == [RECORD] && StartOf(lines) == 0x1_0000
  {
  }

  lemma {:induction false} Tokens()
    ensures TokenOf(LINES[0]).Extended? && TokenOf(LINES[1]) == Data(0, [0xAA]) && TokenOf(LINES[2]).End?
    ensures WellFormed(LINES) && NoStraddle(LINES, 1, 0)
  {
    var pairs := LINES[1].pairs;
    assert Readable(pairs) && Values(pairs) == [0xAA];
    assert WellFormedFrom(LINES, 2);
    assert WellFormedFrom(LINES, 1);
    assert !IsData(LINES, 2);
    assert NoStraddle(LINES, 2, Fill(0, 1));
  }

  lemma {:induction false} OneRecordExposed(lines: seq<Line>)
    requires |lines| > 0 && Parse(lines) == Records([RECORD]) && |PagesOf(lines, RECORD).pages| <= 1
    requires WellFormed(lines) && NoStraddle(lines, 1, 0)
    ensures Addressable(lines) && Exposed(lines)
  {
    OneRecord(lines);
    assert Fits(lines, RECORD, GUARD_SIZE);
  }

  /** The upgrade of this file meets every condition for the loss of its guard. */
  lemma {:induction false} IsExposed()
    ensures Addressable(ScanAll(TEXT)) && Exposed(ScanAll(TEXT))
  {
    Scanned();
    Parsed();
    Tokens();
    OnePage();
    OneRecordExposed(LINES);
  }

  lemma {:induction false} OnePage()
    ensures |PagesOf(LINES, RECORD).pages| <= 1
  {
    assert Collect(LINES, 2, 0, [0xAA], true).pages == [Pad([0xAA])];
  }

  /** On any two parts behind a FIFO of one or two bytes, one failed data read in a first
      upgrade from this file costs the first part its guard in the second. */
  method UpgradeTwice(depth: nat, first: Chip, second: Chip, stalls: nat)
      returns (outcome: Outcome, failed: seq<Chip>, ghost settled: seq<Chip>)
    requires 1 <= depth <= 2 && first.Valid() && second.Valid()
    ensures outcome.Failed? && |failed| == |settled| == 2
    ensures Guarded(failed[0].mem, 0x1_0000, GuardPage())
    ensures !Guarded(settled[0].mem, 0x1_0000, GuardPage())
  {
    var spi := new Controller(depth, first, second, stalls, CutErase(|first.history| + 2, 2));
    var f := new Flasher(spi);
    IsExposed();
    StartsAt();
    ghost var begun;
    outcome, failed, settled, begun := LoseGuard(f, TEXT, 0);
  }

  lemma {:induction false} StartsAt()
    ensures StartOf(ScanAll(TEXT)) == 0x1_0000
  {
    Scanned();
    Parsed();
    OneRecord(LINES);
  }
}
