/** MCS files (the Intel Hexadecimal Object File Format): the flasher's two passes
    over the lines of a file, and what the format says such a file means. */
module McsFile {
  import opened Common
  import opened NorFlash
  import opened FlashSchedule

  type u16 = x: int | 0 <= x < 0x1_0000

  // --- Hexadecimal fields ---

  function HexValue(c: char): (v: int)
    ensures -1 <= v < 16
  {
    if '0' <= c <= '9' then c as int - '0' as int
    else if 'A' <= c <= 'F' then c as int - 'A' as int + 10
    else if 'a' <= c <= 'f' then c as int - 'a' as int + 10
    else -1
  }

  /** The number up to two hexadecimal digits denote, -1 if one is not a digit. */
  function HexPair(s: string): (v: int)
    requires |s| <= 2
    ensures -1 <= v < 0x100
  {
    var low := if |s| > 0 then HexValue(s[|s| - 1]) else 0;
    var high := if |s| > 1 then HexValue(s[0]) else 0;
    if low < 0 || high < 0 then -1 else 16 * high + low
  }

  function HexNumber(s: string): (v: int)
    requires |s| <= 4
    ensures -1 <= v < 0x1_0000
  {
    var split := if |s| <= 2 then 0 else |s| - 2;
    var high, low := HexPair(s[..split]), HexPair(s[split..]);
    if low < 0 || high < 0 then -1 else 0x100 * high + low
  }

  /** The number in up to n characters from a position on.  None stands for the
      exception that a missing or unreadable field raises. */
  function Field(line: string, pos: nat, n: nat): Option<u16>
    requires n <= 4
  {
    if pos >= |line| then None
    else
      var v := HexNumber(line[pos..Min(pos + n, |line|)]);
      if v < 0 then None else Some(v)
  }

  /** The bytes of a string of digit pairs, None for an unreadable pair. */
  function Pairs(s: string): (r: seq<Option<byte>>)
    ensures |r| == (|s| + 1) / 2
  {
    if s == "" then []
    else
      var n := Min(2, |s|);
      var v := HexPair(s[..n]);
      [if v < 0 then None else Some(v)] + Pairs(s[n..])
  }

  /** How a line begins. */
  datatype Mark = Nothing | Colon | Stray

  /** The parts of a line that either pass looks at.  `upper` is the address field
      of an extended linear address line, `pairs` the data field as far as the line
      reaches, `whole` whether the line reaches to its end. */
  datatype Line = Line(
    mark: Mark,
    len: Option<u16>, address: Option<u16>, kind: Option<u16>, upper: Option<u16>,
    hasData: bool, pairs: seq<Option<byte>>, whole: bool)

  function Scan(line: string): Line {
    var len := Field(line, 1, 2);
    var end := 9 + 2 * (if len.Some? then len.value else 0);
    Line(if line == "" then Nothing else if line[0] == ':' then Colon else Stray,
         len, Field(line, 3, 4), Field(line, 7, 2), Field(line, 9, 4),
         |line| >= 9, if |line| >= 9 then Pairs(line[9..Min(end, |line|)]) else [], |line| >= end)
  }

  function ScanAll(text: seq<string>): (r: seq<Line>)
    ensures |r| == |text| && forall i :: 0 <= i < |r| ==> r[i] == Scan(text[i])
  {
    seq(|text|, i requires 0 <= i < |text| => Scan(text[i]))
  }

  // --- First pass: the extended linear address records ---

  /** Where a record goes and where its data lines begin (as a line number). */
  datatype Record = Record(start: nat, end: nat, count: nat, dataPos: nat)

  datatype Parser = Parser(record: Record, list: seq<Record>, open: bool)

  datatype Step = Continue(st: Parser) | Finish(list: seq<Record>) | Reject | Abort

  datatype ParseResult = Records(list: seq<Record>) | Rejected | Aborted

  function DataLine(st: Parser, len: nat, address: nat): Step {
    var r := st.record;
    if len > 16 then Reject
    else if address == r.count + r.start % 0x1_0000 then
      Continue(st.(record := r.(count := r.count + len, end := (r.end + len) % UINT32)))
    else if r.count != 0 then Reject
    else if r.start == 0 || r.end == 0 then Abort
    else Continue(st.(record := r.(start := (r.start + address) % UINT32, count := len,
                                   end := ((r.end + address) % UINT32 + len) % UINT32)))
  }

  function AddressLine(st: Parser, line: Line, next: nat): Step {
    if line.address != Some(0) || line.len != Some(2) then Reject
    else if line.upper.None? then Abort
    else
      var start := line.upper.value * 0x1_0000;
      Continue(Parser(Record(start, start, 0, next), if st.open then st.list + [st.record] else st.list, true))
  }

  /** What one line does to the parser; next is the position of the line after it. */
  function ParseLine(st: Parser, line: Line, next: nat): Step {
    if line.mark.Nothing? then Continue(st)
    else if !line.mark.Colon? then Reject
    else if line.len.None? || line.address.None? || line.kind.None? then Abort
    else if line.kind.value == 0 then DataLine(st, line.len.value, line.address.value)
    else if line.kind.value == 1 then (if st.open then Finish(st.list + [st.record]) else Continue(st))
    else if line.kind.value == 2 then Abort
    else if line.kind.value == 4 then AddressLine(st, line, next)
    else Continue(st)
  }

  function ParseFrom(lines: seq<Line>, i: nat, st: Parser): ParseResult
    requires i <= |lines|
    decreases |lines| - i
  {
    if i == |lines| then Records(st.list)
    else match ParseLine(st, lines[i], i + 1)
      case Continue(next) => ParseFrom(lines, i + 1, next)
      case Finish(list) => Records(list)
      case Reject => Rejected
      case Abort => Aborted
  }

  const START: Parser := Parser(Record(0, 0, 0, 0), [], false)

  function Parse(lines: seq<Line>): ParseResult {
    ParseFrom(lines, 0, START)
  }

  method ParseLines(lines: seq<Line>) returns (r: ParseResult)
    ensures r == Parse(lines)
  {
    var st, i := START, 0;
    while i < |lines|
      invariant i <= |lines| && ParseFrom(lines, i, st) == Parse(lines)
    {
      match ParseLine(st, lines[i], i + 1) {
        case Continue(next) => st := next;
        case Finish(list) => return Records(list);
        case Reject => return Rejected;
        case Abort => return Aborted;
      }
      i := i + 1;
    }
    return Records(st.list);
  }

  // --- Second pass: the data of one record, page by page ---

  function Pad(buffer: seq<byte>): (r: seq<byte>)
    requires |buffer| <= CHUNK
    ensures |r| == CHUNK && forall i :: 0 <= i < CHUNK ==> r[i] == PaddedByte(buffer, i)
  {
    buffer + Blank(CHUNK - |buffer|)
  }

  predicate Readable(pairs: seq<Option<byte>>) {
    forall i :: 0 <= i < |pairs| ==> pairs[i].Some?
  }

  function Values(pairs: seq<Option<byte>>): (r: seq<byte>)
    requires Readable(pairs)
    ensures |r| == |pairs| && forall i :: 0 <= i < |r| ==> r[i] == pairs[i].value
  {
    seq<byte>(|pairs|, i requires 0 <= i < |pairs| => pairs[i].value)
  }

  /** What the second pass takes from a data line when the page has `room` bytes left. */
  function Taken(line: Line, room: nat): (r: Option<seq<byte>>)
    ensures r.Some? ==> |r.value| <= room
  {
    var used := line.pairs[..Min(room, |line.pairs|)];
    if line.hasData && Readable(used) then Some(Values(used)) else None
  }

  /** The pages read, the line reached, and whether the record came to its end. */
  datatype Pages = Pages(pages: seq<seq<byte>>, pos: nat, complete: bool)

  /** Reads lines until `index` bytes have been announced, keeping what fits in the
      current page and handing the page on when it is full.  A line cut short by the
      end of the page loses its remaining bytes.  `addressed` says whether the last
      data line had a readable address, which the final page depends on. */
  function Collect(lines: seq<Line>, pos: nat, index: nat, buffer: seq<byte>, addressed: bool): (r: Pages)
    requires pos <= |lines| && |buffer| < CHUNK
    ensures FullPages(r.pages) && pos <= r.pos <= |lines|
    decreases |lines| - pos
  {
    if index == 0 then
      if buffer == [] then Pages([], pos, true)
      else if !addressed then Pages([], pos, false)
      else Pages([Pad(buffer)], pos, true)
    else if pos == |lines| || lines[pos].len.None? || lines[pos].kind.None? then Pages([], pos, false)
    else
      var line := lines[pos];
      var left := (index - line.len.value) % UINT32;
      if line.kind.value != 0 then Collect(lines, pos + 1, left, buffer, addressed)
      else
        var taken := Taken(line, CHUNK - |buffer|);
        if taken.None? then Pages([], pos, false)
        else if |buffer + taken.value| < CHUNK then
          Collect(lines, pos + 1, left, buffer + taken.value, line.address.Some?)
        else if line.address.None? then Pages([], pos, false)
        else
          var rest := Collect(lines, pos + 1, left, [], true);
          Pages([buffer + taken.value] + rest.pages, rest.pos, rest.complete)
  }

  // --- What the format means ---

  datatype Token = Data(address: nat, bytes: seq<byte>) | End | Extended(upper: nat) | Other

  /** A line as the format reads it; anything malformed is Other. */
  function TokenOf(line: Line): Token {
    if !line.mark.Colon? || line.len.None? || line.address.None? || line.kind.None? then Other
    else if line.kind.value == 0 then
      if line.whole && line.hasData && |line.pairs| == line.len.value && Readable(line.pairs)
      then Data(line.address.value, Values(line.pairs)) else Other
    else if line.kind.value == 1 then End
    else if line.kind.value == 4 && line.len.value == 2 && line.address.value == 0 && line.whole && line.upper.Some? then
      Extended(line.upper.value)
    else Other
  }

  function Place(address: nat, bytes: seq<byte>): (r: map<nat, byte>)
    ensures forall a :: a in r <==> address <= a < address + |bytes|
    ensures forall a :: a in r ==> r[a] == bytes[a - address]
  {
    if bytes == [] then map[]
    else Place(address, bytes[..|bytes| - 1])[address + |bytes| - 1 := bytes[|bytes| - 1]]
  }

  /** The memory contents the lines from i on describe, under the given upper address. */
  function Contents(lines: seq<Line>, i: nat, base: nat): map<nat, byte>
    requires i <= |lines|
    decreases |lines| - i
  {
    if i == |lines| then map[]
    else match TokenOf(lines[i])
      case End => map[]
      case Extended(upper) => Contents(lines, i + 1, upper * 0x1_0000)
      case Data(address, bytes) => Place(base + address, bytes) + Contents(lines, i + 1, base)
      case Other => Contents(lines, i + 1, base)
  }

  predicate IsData(lines: seq<Line>, i: nat) {
    i < |lines| && TokenOf(lines[i]).Data?
  }

  /** Only data and address lines from i on, up to the end line; at most 16 bytes in a data
      line, and none at all only in the last of a record. */
  ghost predicate WellFormedFrom(lines: seq<Line>, i: nat)
    decreases |lines| - i
  {
    && i < |lines|
    && match TokenOf(lines[i])
       case End => true
       case Extended(_) => WellFormedFrom(lines, i + 1)
       case Data(_, bytes) =>
         && |bytes| <= 16 && (bytes != [] || !IsData(lines, i + 1))
         && WellFormedFrom(lines, i + 1)
       case Other => false
  }

  ghost predicate WellFormed(lines: seq<Line>) {
    lines != [] && TokenOf(lines[0]).Extended? && WellFormedFrom(lines, 1)
  }

  /** The bytes of the data lines from i on, and the first line that is not one. */
  function RecordData(lines: seq<Line>, i: nat): seq<byte>
    decreases |lines| - i
  {
    if IsData(lines, i) then TokenOf(lines[i]).bytes + RecordData(lines, i + 1) else []
  }

  function DataEnd(lines: seq<Line>, i: nat): (r: nat)
    ensures i <= r
    decreases |lines| - i
  {
    if IsData(lines, i) then DataEnd(lines, i + 1) else i
  }
}
