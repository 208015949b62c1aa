/** Which files the first pass takes. */
module McsAccept {
  import opened Common
  import opened NorFlash
  import opened FlashSchedule
  import opened McsFile
  import opened McsCorrect

  // --- Well-formed files ---

  /** A data line goes on where the line before it ended; the first of a record may start
      anywhere in its 64 KB, but at its beginning if that is the first of all. */
  predicate Follows(lines: seq<Line>, i: nat)
    requires 0 < i < |lines|
  {
    match TokenOf(lines[i])
    case Data(address, _) =>
      (match TokenOf(lines[i - 1])
       case Data(before, bytes) => address == before + |bytes|
       case Extended(upper) => upper == 0 ==> address == 0
       case _ => true)
    case _ => true
  }

  /** Every data line up to the end line follows. */
  predicate ConsecutiveFrom(lines: seq<Line>, i: nat)
    requires 0 < i
    decreases |lines| - i
  {
    i < |lines| && !TokenOf(lines[i]).End? ==> Follows(lines, i) && ConsecutiveFrom(lines, i + 1)
  }

  predicate Consecutive(lines: seq<Line>) {
    ConsecutiveFrom(lines, 1)
  }

  /** Whether the first line that does not follow is the first data line of its record. */
  predicate BreaksAtStart(lines: seq<Line>, i: nat)
    requires 0 < i
    decreases |lines| - i
  {
    i < |lines| && !TokenOf(lines[i]).End? &&
    if Follows(lines, i) then BreaksAtStart(lines, i + 1) else TokenOf(lines[i - 1]).Extended?
  }

  /** The parser has read the line before i, whose record has the upper address base. */
  ghost predicate After(lines: seq<Line>, i: nat, st: Parser, base: nat) {
    && 0 < i < |lines| && Within(lines, i, st, base)
    && match TokenOf(lines[i - 1])
       case Data(address, bytes) =>
         st.record.start + st.record.count == base + address + |bytes| && (IsData(lines, i) ==> st.record.count > 0)
       case Extended(upper) => st.record.start == base == upper * 0x1_0000 && st.record.count == 0
       case _ => false
  }

  lemma {:induction false} AfterData(lines: seq<Line>, i: nat, st: Parser, base: nat) returns (next: Parser)
    requires After(lines, i, st, base) && IsData(lines, i) && ParseLine(st, lines[i], i + 1).Continue?
    ensures ParseLine(st, lines[i], i + 1) == Continue(next) && After(lines, i + 1, next, base)
  {
    next := DataMoves(lines, i, st, base);
    assert |TokenOf(lines[i]).bytes| > 0 || !IsData(lines, i + 1);
  }

  /** The parser's verdict on the lines from i on. */
  lemma {:induction false} VerdictFrom(lines: seq<Line>, i: nat, st: Parser, base: nat)
    requires After(lines, i, st, base)
    ensures var r := ParseFrom(lines, i, st);
      if ConsecutiveFrom(lines, i) then r.Records? else if BreaksAtStart(lines, i) then r.Aborted? else r.Rejected?
    decreases |lines| - i
  {
    if IsData(lines, i) {
      if Follows(lines, i) {
        var next := AfterData(lines, i, st, base);
        VerdictFrom(lines, i + 1, next, base);
      }
    } else if TokenOf(lines[i]).Extended? {
      var next := AddressStep(lines, i, st, base);
      VerdictFrom(lines, i + 1, next, next.record.start);
    } else {
      EndStep(lines, i, st, base);
    }
  }

  /** The parser takes a well-formed file exactly when its data lines are consecutive.  It
      aborts if the first one that is not is the first of its record, and rejects otherwise. */
  lemma {:induction false} AcceptsIff(lines: seq<Line>)
    requires WellFormed(lines)
    ensures Parse(lines).Records? <==> Consecutive(lines)
    ensures Parse(lines).Aborted? <==> !Consecutive(lines) && BreaksAtStart(lines, 1)
    ensures Parse(lines).Records? ==> Parse(lines).list != []
  {
    var base := TokenOf(lines[0]).upper * 0x1_0000;
    var st := Parser(Record(base, base, 0, 1), [], true);
    assert ParseLine(START, lines[0], 1) == Continue(st);
    VerdictFrom(lines, 1, st, base);
    if Parse(lines).Records? {
      RecordsMatchFormat(lines);
    }
  }

  // --- Any file ---

  /** What no line up to the end line may be. */
  predicate Faulty(line: Line) {
    || line.mark.Stray?
    || (line.mark.Colon? && (line.len.None? || line.address.None? || line.kind.None?))
    || (line.mark.Colon? && line.kind == Some(0) && line.len.Some? && line.len.value > 16)
    || (line.mark.Colon? && line.kind == Some(2))
    || (line.mark.Colon? && line.kind == Some(4) && (line.address != Some(0) || line.len != Some(2) || line.upper.None?))
  }

  predicate IsEnd(line: Line) {
    line.mark.Colon? && line.len.Some? && line.address.Some? && line.kind == Some(1)
  }

  /** Of any file the parser takes, no line before the end line is faulty. */
  lemma {:induction false} AcceptsNoFault(lines: seq<Line>, i: nat, st: Parser, k: nat)
    requires i <= k < |lines| && ParseFrom(lines, i, st).Records? && Faulty(lines[k])
    ensures exists e :: i <= e < k && IsEnd(lines[e])
    decreases k - i
  {
    assert ParseLine(st, lines[i], i + 1).Continue? || (ParseLine(st, lines[i], i + 1).Finish? && IsEnd(lines[i]));
    if ParseLine(st, lines[i], i + 1).Continue? {
      assert i < k;
      AcceptsNoFault(lines, i + 1, ParseLine(st, lines[i], i + 1).st, k);
    }
  }

  /** An empty line, or one of a kind the parser has no use for. */
  predicate Ignored(line: Line) {
    || line.mark.Nothing?
    || (line.mark.Colon? && line.len.Some? && line.address.Some? && line.kind.Some? && line.kind.value !in {0, 1, 2, 4})
  }

  lemma {:induction false} SkipsIgnored(lines: seq<Line>, i: nat, k: nat, st: Parser)
    requires i <= k <= |lines| && forall j :: i <= j < k ==> Ignored(lines[j])
    ensures ParseFrom(lines, i, st) == ParseFrom(lines, k, st)
    decreases k - i
  {
    if i < k {
      assert Ignored(lines[i]);
      SkipsIgnored(lines, i + 1, k, st);
    }
  }
}
