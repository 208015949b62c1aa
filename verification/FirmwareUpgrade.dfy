/** The upgrade of one flash part from the text of an MCS file. */
module FirmwareUpgrade {
  import opened NorFlash
  import opened FlashCommands
  import opened XspiFlasher
  import opened McsFile
  import opened XspiUpgrade
  import opened UpgradeSafety

  /** Upgrades one part from a file, whatever state an earlier upgrade left the controller
      in: `settled` is what the first status poll makes of it.

      Success on a well-formed file with well-placed records leaves the file's contents in
      the part; other cells stay as they were, on failure too; any failure while the guard
      is up leaves it up.  If such a file fits the part, the upgrade fails only after a
      fault. */
  method Upgrade(f: Flasher, text: seq<string>, index: nat)
      returns (outcome: Outcome, ghost k: nat, ghost first: Chip, ghost settled: seq<Chip>, ghost begun: bool)
    requires f.Valid() && index < 2
    requires Sized(ScanAll(text))
    modifies f, f.spi, f.readBuffer, f.writeBuffer
    ensures f.Valid() && f.slave == index
    ensures RecordsOf(ScanAll(text)) == [] ==> !begun && f.spi.chips == old(f.spi.chips)
    ensures RecordsOf(ScanAll(text)) == [] ==> outcome == if Parse(ScanAll(text)).Rejected? then Failed else Crashed
    ensures FirstPoll(old(f.spi.chips), old(f.spi.selection), old(f.spi.shifted), index, first, settled, 0)
    ensures RunResult(f, ScanAll(text), outcome, k, settled, begun)
    ensures RecordsOf(ScanAll(text)) != [] ==> f.forecast == old(f.spi.fault) && f.since == old(f.spi.faults)
    ensures RecordsOf(ScanAll(text)) != [] && !begun ==>
      NotBegun(f, old(f.spi.chips), old(f.spi.selection), old(f.spi.shifted), first, 0)
    ensures FailsOnlyByFault(f, ScanAll(text), outcome, old(f.spi.faults), |old(f.spi.chips[index].mem)|)
  {
    ClearBuffers(f);
    f.slave := index;
    var lines := ScanAll(text);
    outcome, k, first, settled, begun := UpgradeLines(f, lines);
  }

  method UpgradeLines(f: Flasher, lines: seq<Line>)
      returns (outcome: Outcome, ghost k: nat, ghost first: Chip, ghost settled: seq<Chip>, ghost begun: bool)
    requires f.Valid() && Sized(lines)
    modifies f.spi, f.readBuffer, f.writeBuffer, f`selectedSector, f`maxSectors, f`vendor, f`since, f`forecast
    ensures f.Valid()
    ensures RecordsOf(lines) == [] ==> !begun && f.spi.chips == old(f.spi.chips)
    ensures RecordsOf(lines) == [] ==> outcome == if Parse(lines).Rejected? then Failed else Crashed
    ensures FirstPoll(old(f.spi.chips), old(f.spi.selection), old(f.spi.shifted), f.slave, first, settled, old(f.writeBuffer[1]))
    ensures RunResult(f, lines, outcome, k, settled, begun)
    ensures RecordsOf(lines) != [] ==> f.forecast == old(f.spi.fault) && f.since == old(f.spi.faults)
    ensures RecordsOf(lines) != [] && !begun ==>
      NotBegun(f, old(f.spi.chips), old(f.spi.selection), old(f.spi.shifted), first, old(f.writeBuffer[1]))
    ensures FailsOnlyByFault(f, lines, outcome, old(f.spi.faults), |old(f.spi.chips[f.slave].mem)|)
  {
    k, first, begun := 0, f.spi.chips[f.slave], false;
    settled := Settle(f.spi.chips, f.spi.selection, f.spi.shifted, f.slave, first, f.writeBuffer[1]);
    var parsed := ParseLines(lines);
    if !parsed.Records? || parsed.list == [] {
      outcome := if parsed.Rejected? then Failed else Crashed;
      NothingRun(f, lines, outcome, k, settled);
      return;
    }
    outcome, k, first, settled, begun := UpgradeRecords(f, lines, parsed.list);
  }

  /** The records found by the first pass are programmed. */
  method UpgradeRecords(f: Flasher, lines: seq<Line>, recs: seq<Record>)
      returns (outcome: Outcome, ghost k: nat, ghost first: Chip, ghost settled: seq<Chip>, ghost begun: bool)
    requires f.Valid() && Sized(lines) && Parse(lines) == Records(recs) && recs != []
    modifies f.spi, f.readBuffer, f.writeBuffer, f`selectedSector, f`maxSectors, f`vendor, f`since, f`forecast
    ensures f.Valid()
    ensures FirstPoll(old(f.spi.chips), old(f.spi.selection), old(f.spi.shifted), f.slave, first, settled, old(f.writeBuffer[1]))
    ensures RunResult(f, lines, outcome, k, settled, begun)
    ensures f.forecast == old(f.spi.fault) && f.since == old(f.spi.faults)
    ensures !begun ==>
      NotBegun(f, old(f.spi.chips), old(f.spi.selection), old(f.spi.shifted), first, old(f.writeBuffer[1]))
    ensures FailsOnlyByFault(f, lines, outcome, old(f.spi.faults), |old(f.spi.chips[f.slave].mem)|)
  {
    ghost var chips, selection, shifted, x := f.spi.chips, f.spi.selection, f.spi.shifted, f.writeBuffer[1];
    outcome, k, first, settled, begun := ProgramXSpi(f, lines, recs, recs[0].start);
    SettledSize(chips, selection, shifted, f.slave, first, settled, x);
    if begun {
      RunEnds(f, lines, recs, outcome, k, settled);
    }
    FailsByFault(f, lines, outcome, k, settled, begun, |chips[f.slave].mem|);
  }
}
