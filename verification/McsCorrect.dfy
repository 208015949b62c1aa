/** The two passes over a well-formed MCS file agree with the format: the records
    hold exactly the described bytes, and the pages read back are those bytes. */
module McsCorrect {
  import opened Common
  import opened NorFlash
  import opened FlashSchedule
  import opened McsFile

  // --- Second pass ---

  lemma {:induction false} PaginateFull(page: seq<byte>, rest: seq<byte>)
    requires |page| == CHUNK
    ensures Paginate(page + rest) == [page] + Paginate(rest)
  {
    var all := page + rest;
    var l, r := Paginate(all), [page] + Paginate(rest);
    assert |l| == |r|;
    forall i | 0 <= i < |l|
      ensures l[i] == r[i]
    {
      forall j | 0 <= j < CHUNK
        ensures l[i][j] == r[i][j]
      {
        assert l[i][j] == PaddedByte(all, i * CHUNK + j);
        if i > 0 {
          assert r[i] == Paginate(rest)[i - 1];
          assert r[i][j] == PaddedByte(rest, (i - 1) * CHUNK + j);
        }
      }
    }
  }

  lemma {:induction false} PaginateShort(buffer: seq<byte>)
    requires 0 < |buffer| < CHUNK
    ensures Paginate(buffer) == [Pad(buffer)]
  {
    assert |Paginate(buffer)| == 1;
    forall j | 0 <= j < CHUNK
      ensures Paginate(buffer)[0][j] == Pad(buffer)[j]
    {
      assert Paginate(buffer)[0][j] == PaddedByte(buffer, 0 * CHUNK + j);
    }
    assert Paginate(buffer)[0] == Pad(buffer);
  }

  /** How far the page is filled after n more bytes; a full page is handed on. */
  function Fill(fill: nat, n: nat): nat {
    if fill + n < CHUNK then fill + n else 0
  }

  /** No data line from i on runs over the end of a page that holds `fill` bytes at its start. */
  ghost predicate NoStraddle(lines: seq<Line>, i: nat, fill: nat)
    decreases |lines| - i
  {
    IsData(lines, i) ==>
      fill + |TokenOf(lines[i]).bytes| <= CHUNK && NoStraddle(lines, i + 1, Fill(fill, |TokenOf(lines[i]).bytes|))
  }

  /** What the second pass keeps of the data lines from i on. */
  function Kept(lines: seq<Line>, i: nat, fill: nat): seq<byte>
    requires fill < CHUNK
    decreases |lines| - i
  {
    if IsData(lines, i) then
      var bytes := TokenOf(lines[i]).bytes;
      var n := Min(CHUNK - fill, |bytes|);
      bytes[..n] + Kept(lines, i + 1, Fill(fill, n))
    else []
  }

  /** One data line of the second pass: what does not fit in the page is dropped. */
  lemma {:induction false} CollectStep(lines: seq<Line>, pos: nat, index: nat, buffer: seq<byte>, addressed: bool)
    requires IsData(lines, pos) && |buffer| < CHUNK && index > 0
    ensures var bytes := TokenOf(lines[pos]).bytes;
      var left, taken := (index - |bytes|) % UINT32, bytes[..Min(CHUNK - |buffer|, |bytes|)];
      Collect(lines, pos, index, buffer, addressed) ==
        if |buffer + taken| < CHUNK then Collect(lines, pos + 1, left, buffer + taken, true)
        else var rest := Collect(lines, pos + 1, left, [], true);
          Pages([buffer + taken] + rest.pages, rest.pos, rest.complete)
  {
    var line := lines[pos];
    var n := Min(CHUNK - |buffer|, |line.pairs|);
    assert Readable(line.pairs[..n]);
    assert Values(line.pairs[..n]) == Values(line.pairs)[..n];
  }

  lemma {:induction false} KeptIsShorter(lines: seq<Line>, i: nat, fill: nat)
    requires fill < CHUNK
    ensures |Kept(lines, i, fill)| <= |RecordData(lines, i)|
    decreases |lines| - i
  {
    if !IsData(lines, i) {
    } else {
      KeptIsShorter(lines, i + 1, Fill(fill, Min(CHUNK - fill, |TokenOf(lines[i]).bytes|)));
    }
  }

  /** The second pass keeps every byte of a record exactly when none of its data lines runs
      over the end of a 128-byte page. */
  lemma {:induction false} KeepsEveryByteIff(lines: seq<Line>, i: nat, fill: nat)
    requires fill < CHUNK
    ensures Kept(lines, i, fill) == RecordData(lines, i) <==> NoStraddle(lines, i, fill)
    ensures |Kept(lines, i, fill)| == |RecordData(lines, i)| <==> NoStraddle(lines, i, fill)
    decreases |lines| - i
  {
    if !IsData(lines, i) {
    } else {
      var bytes := TokenOf(lines[i]).bytes;
      var n := Min(CHUNK - fill, |bytes|);
      if n == |bytes| {
        assert bytes[..n] == bytes;
        KeepsEveryByteIff(lines, i + 1, Fill(fill, n));
      } else {
        KeptIsShorter(lines, i + 1, Fill(fill, n));
      }
    }
  }

  /** Lines of 15 bytes lose some: the ninth starts at byte 120 of a 128-byte page. */
  lemma {:induction false} FifteenByteLinesLose(lines: seq<Line>, i: nat, k: nat)
    requires k <= 8 && forall j :: i <= j <= i + 8 ==> IsData(lines, j) && |TokenOf(lines[j]).bytes| == 15
    ensures !NoStraddle(lines, i + k, 15 * k)
    ensures k == 0 ==> |Kept(lines, i, 0)| < |RecordData(lines, i)|
    decreases 8 - k
  {
    assert IsData(lines, i + k) && |TokenOf(lines[i + k]).bytes| == 15;
    if k == 8 {
    } else {
      FifteenByteLinesLose(lines, i, k + 1);
    }
    if k == 0 {
      KeptIsShorter(lines, i, 0);
      KeepsEveryByteIff(lines, i, 0);
    }
  }

  /** Full lines of 16 bytes, shorter only at the end of a record, never straddle. */
  ghost predicate FullLines(lines: seq<Line>, i: nat)
    decreases |lines| - i
  {
    IsData(lines, i) ==>
      && |TokenOf(lines[i]).bytes| <= 16 && (|TokenOf(lines[i]).bytes| == 16 || !IsData(lines, i + 1))
      && FullLines(lines, i + 1)
  }

  lemma {:induction false} FullLinesFit(lines: seq<Line>, i: nat, k: nat)
    requires FullLines(lines, i) && 16 * k < CHUNK
    ensures NoStraddle(lines, i, 16 * k)
    decreases |lines| - i
  {
    if !IsData(lines, i + 1) || !IsData(lines, i) {
    } else {
      FullLinesFit(lines, i + 1, if k == 7 then 0 else k + 1);
    }
  }

  /** The second pass returns the bytes it keeps, cut into pages. */
  lemma {:induction false} CollectRecord(lines: seq<Line>, pos: nat, buffer: seq<byte>, addressed: bool)
    requires |buffer| < CHUNK && pos <= |lines|
    requires buffer != [] ==> addressed
    requires |RecordData(lines, pos)| < UINT32
    ensures var r := Collect(lines, pos, |RecordData(lines, pos)|, buffer, addressed);
      r.complete && r.pages == Paginate(buffer + Kept(lines, pos, |buffer|)) && r.pos <= DataEnd(lines, pos)
    decreases |lines| - pos
  {
    var index := |RecordData(lines, pos)|;
    if index == 0 {
      KeptIsShorter(lines, pos, |buffer|);
      assert buffer + Kept(lines, pos, |buffer|) == buffer;
      if buffer != [] {
        PaginateShort(buffer);
      }
    } else {
      CollectLine(lines, pos, buffer, addressed);
    }
  }

  lemma {:induction false} SmallModulus(n: nat)
    requires n < UINT32
    ensures n % UINT32 == n
  {
  }

  lemma {:induction false} KeptSplits(lines: seq<Line>, pos: nat, buffer: seq<byte>, taken: seq<byte>, later: seq<byte>)
    requires IsData(lines, pos) && |buffer| < CHUNK
    requires taken == TokenOf(lines[pos]).bytes[..Min(CHUNK - |buffer|, |TokenOf(lines[pos]).bytes|)]
    requires later == Kept(lines, pos + 1, Fill(|buffer|, |taken|))
    ensures buffer + Kept(lines, pos, |buffer|) == buffer + taken + later
    ensures |RecordData(lines, pos)| == |TokenOf(lines[pos]).bytes| + |RecordData(lines, pos + 1)|
  {
    assert buffer + (taken + later) == buffer + taken + later;
  }

  lemma {:induction false} CollectLine(lines: seq<Line>, pos: nat, buffer: seq<byte>, addressed: bool)
    requires |buffer| < CHUNK && pos <= |lines|
    requires 0 < |RecordData(lines, pos)| < UINT32
    ensures var r := Collect(lines, pos, |RecordData(lines, pos)|, buffer, addressed);
      r.complete && r.pages == Paginate(buffer + Kept(lines, pos, |buffer|)) && r.pos <= DataEnd(lines, pos)
    decreases |lines| - pos, 0
  {
    var index, bytes := |RecordData(lines, pos)|, TokenOf(lines[pos]).bytes;
    var taken := bytes[..Min(CHUNK - |buffer|, |bytes|)];
    var filled, later := buffer + taken, Kept(lines, pos + 1, Fill(|buffer|, |taken|));
    CollectStep(lines, pos, index, buffer, addressed);
    KeptSplits(lines, pos, buffer, taken, later);
    SmallModulus(|RecordData(lines, pos + 1)|);
    var rest := |RecordData(lines, pos + 1)|;
    var all := Collect(lines, pos, index, buffer, addressed);
    if |filled| < CHUNK {
      assert all == Collect(lines, pos + 1, rest, filled, true);
      CollectRecord(lines, pos + 1, filled, true);
    } else {
      var r := Collect(lines, pos + 1, rest, [], true);
      assert all == Pages([filled] + r.pages, r.pos, r.complete);
      CollectRecord(lines, pos + 1, [], true);
      FullThen(filled, later, r.pages);
    }
  }

  lemma {:induction false} FullThen(filled: seq<byte>, later: seq<byte>, pages: seq<seq<byte>>)
    requires |filled| == CHUNK && pages == Paginate([] + later)
    ensures [filled] + pages == Paginate(filled + later)
  {
    assert [] + later == later;
    PaginateFull(filled, later);
  }

  // --- First pass ---

  /** The record holds the bytes of its data lines, and nothing else. */
  ghost predicate Sound(lines: seq<Line>, r: Record) {
    && WellFormedFrom(lines, r.dataPos)
    && r.count == |RecordData(lines, r.dataPos)| < UINT32
    && r.end == (r.start + r.count) % UINT32
  }

  ghost predicate Holds(lines: seq<Line>, r: Record, a: nat, v: byte) {
    r.start <= a < r.start + |RecordData(lines, r.dataPos)| && RecordData(lines, r.dataPos)[a - r.start] == v
  }

  /** The parser in the middle of a record whose upper address is base. */
  ghost predicate Within(lines: seq<Line>, i: nat, st: Parser, base: nat) {
    && WellFormedFrom(lines, i) && st.open
    && st.record.start < UINT32 && base == st.record.start - st.record.start % 0x1_0000
    && st.record.end == (st.record.start + st.record.count) % UINT32
    && st.record.count < 0x1_0010
    && (st.record.count == 0 && TokenOf(lines[i]).Data? ==> st.record.start == base)
  }

  /** The parser after a data line: the current record grew by its bytes. */
  ghost predicate Grown(st: Parser, next: Parser, base: nat, address: nat, bytes: seq<byte>) {
    && next.list == st.list && next.record.dataPos == st.record.dataPos
    && next.record.count == st.record.count + |bytes|
    && next.record.start + st.record.count == base + address
    && (st.record.count > 0 ==> next.record.start == st.record.start)
  }

  lemma {:induction false} DataStep(lines: seq<Line>, i: nat, st: Parser, base: nat) returns (next: Parser)
    requires Within(lines, i, st, base) && IsData(lines, i) && ParseFrom(lines, i, st).Records?
    ensures ParseFrom(lines, i, st) == ParseFrom(lines, i + 1, next)
    ensures Within(lines, i + 1, next, base)
    ensures Grown(st, next, base, TokenOf(lines[i]).address, TokenOf(lines[i]).bytes)
  {
    assert ParseLine(st, lines[i], i + 1) == DataLine(st, lines[i].len.value, lines[i].address.value);
    next := DataMoves(lines, i, st, base);
  }

  lemma {:induction false} DataMoves(lines: seq<Line>, i: nat, st: Parser, base: nat) returns (next: Parser)
    requires Within(lines, i, st, base) && IsData(lines, i) && ParseLine(st, lines[i], i + 1).Continue?
    ensures ParseLine(st, lines[i], i + 1) == Continue(next)
    ensures Within(lines, i + 1, next, base)
    ensures Grown(st, next, base, TokenOf(lines[i]).address, TokenOf(lines[i]).bytes)
  {
    var line := lines[i];
    var address, len := line.address.value, line.len.value;
    next := DataLine(st, len, address).st;
    RecordGrows(st, base, address, len);
    assert len > 0 || !IsData(lines, i + 1);
  }

  /** A data line moves the end of the record along, or sets the start of an empty one. */
  lemma {:induction false} RecordGrows(st: Parser, base: nat, address: nat, len: nat)
    requires DataLine(st, len, address).Continue? && address < 0x1_0000 && st.record.start < UINT32
    requires base == st.record.start - st.record.start % 0x1_0000
    requires st.record.end == (st.record.start + st.record.count) % UINT32
    requires st.record.count == 0 ==> st.record.start == base
    ensures var next := DataLine(st, len, address).st;
      && len <= 16 && next.list == st.list && next.open == st.open && next.record.dataPos == st.record.dataPos
      && next.record.count == st.record.count + len < 0x1_0010
      && next.record.start + st.record.count == base + address && next.record.start < UINT32
      && (st.record.count > 0 ==> next.record.start == st.record.start)
      && base == next.record.start - next.record.start % 0x1_0000
      && next.record.end == (next.record.start + next.record.count) % UINT32
  {
    var r := st.record;
    if address == r.count + r.start % 0x1_0000 {
      EndAdvances(r.start, r.count, len);
    } else {
      Rebased(base, address);
      EndAdvances(r.start, r.count, address);
      EndAdvances(r.start + address, 0, len);
    }
  }

  /** Adding a 16-bit address to a 64 KB boundary carries nothing over. */
  lemma {:induction false} Rebased(base: nat, address: nat)
    requires base % 0x1_0000 == 0 && base < UINT32 && address < 0x1_0000
    ensures base + address < UINT32 && (base + address) % UINT32 == base + address
    ensures base == base + address - (base + address) % 0x1_0000
  {
  }

  lemma {:induction false} EndAdvances(start: nat, count: nat, len: nat)
    ensures ((start + count) % UINT32 + len) % UINT32 == (start + (count + len)) % UINT32
  {
  }

  /** An address line closes the current record and opens the next. */
  lemma {:induction false} AddressStep(lines: seq<Line>, i: nat, st: Parser, base: nat) returns (next: Parser)
    requires Within(lines, i, st, base) && TokenOf(lines[i]).Extended?
    ensures ParseFrom(lines, i, st) == ParseFrom(lines, i + 1, next)
    ensures Within(lines, i + 1, next, next.record.start)
    ensures next.list == st.list + [st.record] && next.record.count == 0 && next.record.dataPos == i + 1
    ensures next.record.start == TokenOf(lines[i]).upper * 0x1_0000
  {
    var start := TokenOf(lines[i]).upper * 0x1_0000;
    next := Parser(Record(start, start, 0, i + 1), st.list + [st.record], true);
    assert ParseLine(st, lines[i], i + 1) == Continue(next);
  }

  lemma {:induction false} EndStep(lines: seq<Line>, i: nat, st: Parser, base: nat)
    requires Within(lines, i, st, base) && !IsData(lines, i) && !TokenOf(lines[i]).Extended?
    ensures ParseFrom(lines, i, st) == Records(st.list + [st.record])
  {
    assert ParseLine(st, lines[i], i + 1) == Finish(st.list + [st.record]);
  }

  /** Records found from line i on: the current one is completed, each later one
      holds exactly its data lines, and they follow each other in the file. */
  ghost predicate Completes(lines: seq<Line>, i: nat, st: Parser, recs: seq<Record>) {
    var n := |st.list|;
    && n < |recs| && recs[..n] == st.list
    && recs[n].dataPos == st.record.dataPos
    && recs[n].count == st.record.count + |RecordData(lines, i)| < UINT32
    && recs[n].end == (recs[n].start + recs[n].count) % UINT32
    && (st.record.count > 0 ==> recs[n].start == st.record.start)
    && (n + 1 < |recs| ==> recs[n + 1].dataPos == DataEnd(lines, i) + 1)
    && (forall j :: n < j < |recs| ==> Sound(lines, recs[j]))
    && (forall j :: n < j < |recs| - 1 ==> recs[j + 1].dataPos == DataEnd(lines, recs[j].dataPos) + 1)
  }

  lemma {:induction false} CompletesAddress(lines: seq<Line>, i: nat, st: Parser, next: Parser, recs: seq<Record>)
    requires i < |lines| && TokenOf(lines[i]).Extended?
    requires next.list == st.list + [st.record] && next.record.count == 0 && next.record.dataPos == i + 1
    requires st.record.end == (st.record.start + st.record.count) % UINT32 && st.record.count < UINT32
    requires WellFormedFrom(lines, i + 1) && Completes(lines, i + 1, next, recs)
    ensures Completes(lines, i, st, recs)
  {
    var n := |st.list|;
    assert recs[n] == recs[..n + 1][n] && recs[..n] == recs[..n + 1][..n];
    assert Sound(lines, recs[n + 1]);
    forall j | n < j < |recs| - 1
      ensures recs[j + 1].dataPos == DataEnd(lines, recs[j].dataPos) + 1
    {
    }
  }

  lemma {:induction false} FirstPassShape(lines: seq<Line>, i: nat, st: Parser, base: nat)
    requires Within(lines, i, st, base) && ParseFrom(lines, i, st).Records?
    ensures Completes(lines, i, st, ParseFrom(lines, i, st).list)
    decreases |lines| - i
  {
    if IsData(lines, i) {
      var next := DataStep(lines, i, st, base);
      FirstPassShape(lines, i + 1, next, base);
    } else if TokenOf(lines[i]).Extended? {
      var next := AddressStep(lines, i, st, base);
      FirstPassShape(lines, i + 1, next, next.record.start);
      CompletesAddress(lines, i, st, next, ParseFrom(lines, i, st).list);
    } else {
      EndStep(lines, i, st, base);
    }
  }

  /** Some record holds value v for address a: the current one, among the bytes
      still to come from line i on, or a later one. */
  ghost predicate Covers(lines: seq<Line>, i: nat, st: Parser, recs: seq<Record>, a: nat, v: byte) {
    var n, data := |st.list|, RecordData(lines, i);
    n < |recs| &&
    var from := recs[n].start + st.record.count;
    || (from <= a < from + |data| && data[a - from] == v)
    || exists j :: n < j < |recs| && Holds(lines, recs[j], a, v)
  }

  lemma {:induction false} CoversLater(
      lines: seq<Line>, i: nat, st: Parser, next: Parser, base: nat, recs: seq<Record>, a: nat, v: byte)
    requires IsData(lines, i)
    requires Grown(st, next, base, TokenOf(lines[i]).address, TokenOf(lines[i]).bytes)
    requires Covers(lines, i + 1, next, recs, a, v)
    ensures Covers(lines, i, st, recs, a, v)
  {
    var bytes, rest := TokenOf(lines[i]).bytes, RecordData(lines, i + 1);
    var n, from := |st.list|, recs[|st.list|].start + next.record.count;
    assert RecordData(lines, i) == bytes + rest;
    if from <= a < from + |rest| && rest[a - from] == v {
      assert (bytes + rest)[a - (from - |bytes|)] == v;
    }
  }

  lemma {:induction false} CoversHere(
      lines: seq<Line>, i: nat, st: Parser, next: Parser, base: nat, recs: seq<Record>, a: nat)
    requires IsData(lines, i) && Completes(lines, i + 1, next, recs)
    requires Grown(st, next, base, TokenOf(lines[i]).address, TokenOf(lines[i]).bytes)
    requires base + TokenOf(lines[i]).address <= a < base + TokenOf(lines[i]).address + |TokenOf(lines[i]).bytes|
    ensures Covers(lines, i, st, recs, a, TokenOf(lines[i]).bytes[a - base - TokenOf(lines[i]).address])
  {
    var bytes := TokenOf(lines[i]).bytes;
    var from := recs[|st.list|].start + st.record.count;
    assert from == base + TokenOf(lines[i]).address;
    assert RecordData(lines, i)[a - from] == bytes[a - from];
  }

  lemma {:induction false} ContentsOfData(lines: seq<Line>, i: nat, base: nat, a: nat)
    requires IsData(lines, i) && a in Contents(lines, i, base)
    ensures var Data(address, bytes) := TokenOf(lines[i]);
      if a in Contents(lines, i + 1, base) then Contents(lines, i, base)[a] == Contents(lines, i + 1, base)[a]
      else base + address <= a < base + address + |bytes| && Contents(lines, i, base)[a] == bytes[a - base - address]
  {
  }

  /** Every byte the format describes from line i on is held by some record. */
  lemma {:induction false} FirstPassContents(lines: seq<Line>, i: nat, st: Parser, base: nat, a: nat)
    requires Within(lines, i, st, base) && ParseFrom(lines, i, st).Records?
    requires a in Contents(lines, i, base)
    ensures Covers(lines, i, st, ParseFrom(lines, i, st).list, a, Contents(lines, i, base)[a])
    decreases |lines| - i
  {
    var recs := ParseFrom(lines, i, st).list;
    if IsData(lines, i) {
      var next := DataStep(lines, i, st, base);
      ContentsOfData(lines, i, base, a);
      if a in Contents(lines, i + 1, base) {
        FirstPassContents(lines, i + 1, next, base, a);
        CoversLater(lines, i, st, next, base, recs, a, Contents(lines, i, base)[a]);
      } else {
        FirstPassShape(lines, i + 1, next, base);
        CoversHere(lines, i, st, next, base, recs, a);
      }
    } else if TokenOf(lines[i]).Extended? {
      var next := AddressStep(lines, i, st, base);
      FirstPassShape(lines, i + 1, next, next.record.start);
      FirstPassContents(lines, i + 1, next, next.record.start, a);
    }
  }

  predicate InRecord(lines: seq<Line>, r: Record, a: nat) {
    r.start <= a < r.start + |RecordData(lines, r.dataPos)|
  }

  /** Address a belongs to the current record, among the bytes still to come from line i on, or
      to a later one. */
  ghost predicate Reached(lines: seq<Line>, i: nat, st: Parser, recs: seq<Record>, a: nat) {
    var n := |st.list|;
    n < |recs| &&
    var from := recs[n].start + st.record.count;
    || from <= a < from + |RecordData(lines, i)|
    || exists j :: n < j < |recs| && InRecord(lines, recs[j], a)
  }

  /** Every address a record reaches from line i on is described there. */
  lemma {:induction false} FirstPassDescribed(lines: seq<Line>, i: nat, st: Parser, base: nat, a: nat)
    requires Within(lines, i, st, base) && ParseFrom(lines, i, st).Records?
    requires Reached(lines, i, st, ParseFrom(lines, i, st).list, a)
    ensures a in Contents(lines, i, base)
    decreases |lines| - i
  {
    var recs := ParseFrom(lines, i, st).list;
    if IsData(lines, i) {
      var next := DataStep(lines, i, st, base);
      FirstPassShape(lines, i + 1, next, base);
      if Reached(lines, i + 1, next, recs, a) {
        FirstPassDescribed(lines, i + 1, next, base, a);
      }
    } else if TokenOf(lines[i]).Extended? {
      var next := AddressStep(lines, i, st, base);
      FirstPassShape(lines, i + 1, next, next.record.start);
      FirstPassDescribed(lines, i + 1, next, next.record.start, a);
    } else {
      EndStep(lines, i, st, base);
    }
  }

  /** The records of a well-formed file: their bytes are exactly what the format
      describes, in file order, and end is start plus count. */
  lemma {:induction false} RecordsMatchFormat(lines: seq<Line>)
    requires WellFormed(lines) && Parse(lines).Records?
    ensures var recs := Parse(lines).list;
      && recs != []
      && recs[0].dataPos == 1
      && (forall j :: 0 <= j < |recs| ==> Sound(lines, recs[j]))
      && (forall j :: 0 <= j < |recs| - 1 ==> recs[j + 1].dataPos == DataEnd(lines, recs[j].dataPos) + 1)
      && (forall a :: a in Contents(lines, 0, 0) ==>
            exists j :: 0 <= j < |recs| && Holds(lines, recs[j], a, Contents(lines, 0, 0)[a]))
  {
    var base := TokenOf(lines[0]).upper * 0x1_0000;
    var st := Parser(Record(base, base, 0, 1), [], true);
    assert ParseLine(START, lines[0], 1) == Continue(st);
    FirstPassShape(lines, 1, st, base);
    var recs := Parse(lines).list;
    assert Sound(lines, recs[0]);
    forall a | a in Contents(lines, 0, 0)
      ensures exists j :: 0 <= j < |recs| && Holds(lines, recs[j], a, Contents(lines, 0, 0)[a])
    {
      FirstPassContents(lines, 1, st, base, a);
      CoversFirst(lines, st, recs, a, Contents(lines, 0, 0)[a]);
    }
  }

  lemma {:induction false} CoversFirst(lines: seq<Line>, st: Parser, recs: seq<Record>, a: nat, v: byte)
    requires st.list == [] && st.record.count == 0 && st.record.dataPos == 1
    requires Completes(lines, 1, st, recs) && Covers(lines, 1, st, recs, a, v)
    ensures exists j :: 0 <= j < |recs| && Holds(lines, recs[j], a, v)
  {
    if recs[0].start <= a < recs[0].start + |RecordData(lines, 1)| && RecordData(lines, 1)[a - recs[0].start] == v {
      assert Holds(lines, recs[0], a, v);
    }
  }

  /** In ascending order without overlap. */
  ghost predicate Ascending(recs: seq<Record>) {
    forall i, j :: 0 <= i < j < |recs| ==> recs[i].start + recs[i].count <= recs[j].start
  }

  /** Conversely, every byte of every record of a well-formed file with ascending records is
      what the format describes at its address. */
  lemma {:induction false} RecordsAreDescribed(lines: seq<Line>, j: nat, a: nat)
    requires WellFormed(lines) && Parse(lines).Records? && Ascending(Parse(lines).list)
    requires j < |Parse(lines).list| && InRecord(lines, Parse(lines).list[j], a)
    ensures a in Contents(lines, 0, 0)
    ensures Holds(lines, Parse(lines).list[j], a, Contents(lines, 0, 0)[a])
  {
    var recs := Parse(lines).list;
    var base := TokenOf(lines[0]).upper * 0x1_0000;
    var st := Parser(Record(base, base, 0, 1), [], true);
    assert ParseLine(START, lines[0], 1) == Continue(st);
    FirstPassShape(lines, 1, st, base);
    assert Reached(lines, 1, st, recs, a) by {
      if j > 0 {
        assert InRecord(lines, recs[j], a);
      }
    }
    FirstPassDescribed(lines, 1, st, base, a);
    RecordsMatchFormat(lines);
    OneHolder(lines, recs, j, a, Contents(lines, 0, 0)[a]);
  }

  /** Of ascending records only one reaches an address. */
  lemma {:induction false} OneHolder(lines: seq<Line>, recs: seq<Record>, j: nat, a: nat, v: byte)
    requires Ascending(recs) && forall i :: 0 <= i < |recs| ==> Sound(lines, recs[i])
    requires j < |recs| && InRecord(lines, recs[j], a)
    requires exists i :: 0 <= i < |recs| && Holds(lines, recs[i], a, v)
    ensures Holds(lines, recs[j], a, v)
  {
    var i :| 0 <= i < |recs| && Holds(lines, recs[i], a, v);
    assert Sound(lines, recs[i]) && Sound(lines, recs[j]);
  }
}
