/** A file whose upgrade programs bytes that were never erased: one record of 0x200 bytes that
    starts 0xF00 bytes into its 64 KB block. */
module UnalignedRecord {
  import opened Bits
  import opened Common
  import opened NorFlash
  import opened FlashSchedule
  import opened McsFile
  import opened McsCorrect
  import opened UpgradePlan

  const DATA_LINES := 32
  const START := 0x1_0F00
  const MISSED := 0x1_20FF  // the last byte of the record, after the shift

  /** The data line that holds 16 bytes from position 16 * i on. */
  function DataLineOf(data: seq<byte>, i: nat): Line
    requires |data| == 16 * DATA_LINES && i < DATA_LINES
  {
    Line(Colon, Some(16), Some(0x0F00 + 16 * i), Some(0), None, true,
         seq(16, k requires 0 <= k < 16 => Some(data[16 * i + k])), true)
  }

  /** An address line 0001, data lines from 0F00 on, an end line. */
  function File(data: seq<byte>): (lines: seq<Line>)
    requires |data| == 16 * DATA_LINES
    ensures |lines| == DATA_LINES + 2
    ensures forall i :: 0 <= i < DATA_LINES ==> lines[1 + i] == DataLineOf(data, i)
  {
    [Line(Colon, Some(2), Some(0), Some(4), Some(1), true, [Some(0), Some(1)], true)]
    + seq(DATA_LINES, i requires 0 <= i < DATA_LINES => DataLineOf(data, i))
    + [Line(Colon, Some(0), Some(0), Some(1), None, true, [], true)]
  }

  function RecordOf(n: nat): Record {
    Record(START, START + 16 * n, 16 * n, 1)
  }

  // --- The file as the parser and the format see it ---

  lemma {:induction false} ParsesRest(data: seq<byte>, n: nat)
    requires |data| == 16 * DATA_LINES && 1 <= n <= DATA_LINES
    ensures ParseFrom(File(data), 1 + n, Parser(RecordOf(n), [], true)) == Records([RecordOf(DATA_LINES)])
    decreases DATA_LINES - n
  {
    var lines := File(data);
    if n == DATA_LINES {
      assert ParseLine(Parser(RecordOf(n), [], true), lines[1 + n], 2 + n) == Finish([RecordOf(n)]);
    } else {
      assert lines[1 + n] == DataLineOf(data, n);
      assert ParseLine(Parser(RecordOf(n), [], true), lines[1 + n], 2 + n) == Continue(Parser(RecordOf(n + 1), [], true));
      ParsesRest(data, n + 1);
    }
  }

  /** The parser accepts the file, with one record from 0x10F00 to 0x11100. */
  lemma {:induction false} Parses(data: seq<byte>)
    requires |data| == 16 * DATA_LINES
    ensures Parse(File(data)) == Records([RecordOf(DATA_LINES)])
  {
    var lines := File(data);
    var atStart := Parser(Record(0x1_0000, 0x1_0000, 0, 1), [], true);
    assert ParseLine(McsFile.START, lines[0], 1) == Continue(atStart);
    assert lines[1] == DataLineOf(data, 0);
    assert ParseLine(atStart, lines[1], 2) == Continue(Parser(RecordOf(1), [], true));
    assert ParseFrom(lines, 1, atStart) == ParseFrom(lines, 2, Parser(RecordOf(1), [], true));
    ParsesRest(data, 1);
  }

  lemma {:induction false} DataFrom(data: seq<byte>, i: nat)
    requires |data| == 16 * DATA_LINES && i <= DATA_LINES
    ensures RecordData(File(data), 1 + i) == data[16 * i..] && FullLines(File(data), 1 + i)
    decreases DATA_LINES - i
  {
    var lines := File(data);
    if i == DATA_LINES {
      assert !IsData(lines, 1 + i);
    } else {
      DataFrom(data, i + 1);
      assert data[16 * i..] == data[16 * i..16 * i + 16] + data[16 * (i + 1)..];
    }
  }

  /** The upgrade of the file, behind its guard: one erase for the record, then its pages. */
  lemma {:induction false} PlanOf(data: seq<byte>)
    requires |data| == 16 * DATA_LINES
    ensures RunPlan(File(data), [RecordOf(DATA_LINES)], START) ==
      GuardOps(START, GuardPage()) + ([Erase(0x1_1F00)] + PageOps(0x1_1F00, Paginate(data))) + [Erase(START)]
  {
    var lines, r := File(data), RecordOf(DATA_LINES);
    DataFrom(data, 0);
    assert data[0..] == data;
    FullLinesFit(lines, 1, 0);
    KeepsEveryByteIff(lines, 1, 0);
    CollectRecord(lines, 1, [], false);
    assert [] + data == data;
    var read := PagesOf(lines, r);
    assert read.complete && read.pages == Paginate(data);
    var block := BlockFor(r, GUARD_SIZE, Paginate(data));
    assert PlanFrom(lines, read.pos, [], GUARD_SIZE) == Plan([], true);
    assert [r][1..] == [];
    assert PlanFrom(lines, 0, [r], GUARD_SIZE) == Plan([block], true) by { assert [block] + [] == [block]; }
    OneBlock(block);
    assert EraseOps(0x1_2F00, 0x1_2100) == [];
  }

  lemma {:induction false} OneBlock(b: Block)
    ensures Body([b]) == EraseOps(b.start, b.end) + PageOps(b.start, b.pages)
  {
    assert [b][1..] == [];
    assert AllErases([]) == [] && AllPages([]) == [];
    assert AllErases([b]) == EraseOps(b.start, b.end) + [];
    assert AllPages([b]) == PageOps(b.start, b.pages) + [];
  }

  /** Whatever the flash held, the last byte of the file is ANDed onto it: it is stored only if
      no bit has to go from 0 to 1. */
  lemma {:induction false} LastByteIsAnded(data: seq<byte>, v: byte)
    requires |data| == 16 * DATA_LINES
    ensures CellAfter(RunPlan(File(data), [RecordOf(DATA_LINES)], START), MISSED, v) == BitAnd(v, data[0x1FF])
  {
    var guard, erase, pages := GuardOps(START, GuardPage()), [Erase(0x1_1F00)], PageOps(0x1_1F00, Paginate(data));
    var w: byte := BitAnd(v, data[0x1FF]);
    PlanOf(data);
    assert Avoids(guard, MISSED);
    AvoidedCell(guard, MISSED, v);
    assert Avoids(erase, MISSED);
    AvoidedCell(erase, MISSED, v);
    LastPage(data, v);
    CellAfterBoth(erase, pages, MISSED, v, v, w);
    CellAfterBoth(guard, erase + pages, MISSED, v, v, w);
    assert Avoids([Erase(START)], MISSED);
    AvoidedCell([Erase(START)], MISSED, w);
    CellAfterBoth(guard + (erase + pages), [Erase(START)], MISSED, v, w, w);
  }

  lemma {:induction false} LastPage(data: seq<byte>, v: byte)
    requires |data| == 16 * DATA_LINES
    ensures CellAfter(PageOps(0x1_1F00, Paginate(data)), MISSED, v) == BitAnd(v, data[0x1FF])
  {
    var pages := Paginate(data);
    assert |pages| == 4;
    CellAfterPages(0x1_1F00, pages, 3, 0x1_2080, MISSED, v);
    assert pages[3][127] == PaddedByte(data, 3 * CHUNK + 127);
  }
}
