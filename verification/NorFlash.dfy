/** A serial NOR flash part as the driver sees it over SPI.

    Erasing sets a 4 KB subsector to 0xFF; programming can only clear bits, so a
    programmed byte is ANDed into the cell, and an address that runs past its
    256-byte page wraps to the start of that page.  The part has 24-bit addresses;
    the extended address register supplies the upper bits.
 */
module NorFlash {
  import opened Bits

  type byte = Bits.byte

  const ERASED: byte := 0xFF
  const PAGE_SIZE := 256
  const SUBSECTOR_SIZE := 0x1000
  const SEGMENT_SIZE := 0x100_0000  // what a 24-bit address reaches

  /** Programming 0xFF changes nothing, and programming an erased cell stores the byte. */
  lemma {:induction false} ErasedIsNeutral(b: byte)
    ensures BitAnd(b, ERASED) == b
    ensures BitAnd(ERASED, b) == b
  {
    assert AllOnes(8) == 255 by {
      assert AllOnes(4) == 15;
    }
    AndWithOnes(b, 8);
  }

  // --- Memory operations ---

  /** The two operations that change the array, at byte addresses of the part. */
  datatype FlashOp =
    | Erase(addr: nat)
    | Program(addr: nat, data: seq<byte>)

  /** Which data byte lands at x, in a page whose first byte programmed is `first`: the part
      advances within its page and wraps to the start of the page at its end. */
  function Slot(pageSize: nat, first: nat, x: nat): int {
    if first <= x then x - first else x - first + pageSize
  }

  /** Whether the operation may change the cell at address x. */
  predicate Touches(op: FlashOp, x: nat) {
    match op
    case Erase(a) => a / SUBSECTOR_SIZE == x / SUBSECTOR_SIZE
    case Program(a, data) => a / PAGE_SIZE == x / PAGE_SIZE && Slot(PAGE_SIZE, a, x) < |data|
  }

  /** The value the cell at address x has after the operation, given its value before. */
  function Cell(op: FlashOp, x: nat, v: byte): (r: byte)
    ensures !Touches(op, x) ==> r == v
  {
    if !Touches(op, x) then v
    else match op
      case Erase(_) => ERASED
      case Program(a, data) => BitAnd(v, data[Slot(PAGE_SIZE, a, x)])
  }

  function Apply(mem: seq<byte>, op: FlashOp): (r: seq<byte>)
    ensures |r| == |mem|
    ensures forall x :: 0 <= x < |mem| ==> r[x] == Cell(op, x, mem[x])
  {
    seq(|mem|, x requires 0 <= x < |mem| => Cell(op, x, mem[x]))
  }

  function ApplyAll(mem: seq<byte>, ops: seq<FlashOp>): (r: seq<byte>)
    ensures |r| == |mem|
  {
    if ops == [] then mem else Apply(ApplyAll(mem, ops[..|ops| - 1]), ops[|ops| - 1])
  }

  // --- The part ---

  /** history lists the array operations the part has carried out, oldest first. */
  datatype Chip = Chip(
    mem: seq<byte>,
    segments: nat,
    id: seq<byte>,
    ear: byte,
    writeEnabled: bool,
    busy: bool,
    history: seq<FlashOp>)
  {
    ghost predicate Valid() {
      && |mem| == segments * SEGMENT_SIZE
      && |id| == 4
      && SegmentsOf(id[2]) == segments
      && segments > 0
    }

    /** Which command programs a page depends on the maker, by the first identification byte. */
    predicate Programs(cmd: byte) {
      || (cmd == CMD_PAGE_PROGRAM && (|id| == 0 || id[0] != MICRON))
      || (cmd == CMD_QUAD_WRITE && (|id| == 0 || id[0] != MACRONIX))
    }

    /** Address on the part of a 24-bit command address; upper bits the part lacks wrap. */
    function Locate(a: nat): (r: nat)
      requires 0 < |mem|
      ensures a + ear * SEGMENT_SIZE < |mem| ==> r == a + ear * SEGMENT_SIZE
    {
      var full := a + ear * SEGMENT_SIZE;
      if full < |mem| then full else full % |mem|
    }
  }

  /** Number of 16 MB segments by the third identification byte, 0 for an unknown one. */
  function SegmentsOf(id: byte): (r: nat)
    ensures r <= 16
  {
    match id
    case 0x38 => 1 case 0x17 => 1 case 0x18 => 1
    case 0x39 => 2 case 0x19 => 2
    case 0x3A => 4 case 0x20 => 4
    case 0x3B => 8 case 0x21 => 8
    case 0x3C => 16 case 0x22 => 16
    case _ => 0
  }

  const MICRON := 0x20
  const MACRONIX := 0xC2

  const CMD_STATUS_READ: byte := 0x05
  const CMD_WRITE_ENABLE: byte := 0x06
  const CMD_IDCODE_READ: byte := 0x9F
  const CMD_EXT_ADDRESS_WRITE: byte := 0xC5
  const CMD_SUBSECTOR_ERASE: byte := 0x20
  const CMD_PAGE_PROGRAM: byte := 0x02
  const CMD_QUAD_WRITE: byte := 0x32

  datatype Command = Ignored | EnableWrites | SetExtendedAddress(value: byte) | Change(op: FlashOp)

  function Address24(bytes: seq<byte>): (a: nat)
    requires |bytes| >= 4
    ensures a < SEGMENT_SIZE
  {
    var high: int, middle: int := bytes[1], bytes[2];
    high * 0x10000 + middle * 0x100 + bytes[3]
  }

  /** What the part makes of the bytes clocked in during one chip-select period. */
  function Decode(c: Chip, bytes: seq<byte>): Command
    requires 0 < |c.mem|
  {
    if bytes == [] || c.busy then Ignored
    else if bytes[0] == CMD_WRITE_ENABLE && |bytes| == 1 then EnableWrites
    else if !c.writeEnabled then Ignored
    else if bytes[0] == CMD_EXT_ADDRESS_WRITE && |bytes| == 2 then SetExtendedAddress(bytes[1])
    else if bytes[0] == CMD_SUBSECTOR_ERASE && |bytes| == 4 then
      Change(Erase(c.Locate(Address24(bytes))))
    else if c.Programs(bytes[0]) && |bytes| > 4 then
      Change(Program(c.Locate(Address24(bytes)), bytes[4..]))
    else Ignored
  }

  /** Carries out a command; a change of the array leaves the part busy. */
  function Perform(c: Chip, cmd: Command): (r: Chip)
    ensures c.Valid() ==> r.Valid()
  {
    match cmd
    case Ignored => c
    case EnableWrites => c.(writeEnabled := true)
    case SetExtendedAddress(v) => c.(ear := v, writeEnabled := false)
    case Change(op) =>
      c.(mem := Apply(c.mem, op), writeEnabled := false, busy := true, history := c.history + [op])
  }

  function Execute(c: Chip, bytes: seq<byte>): (r: Chip)
    requires 0 < |c.mem|
    ensures c.Valid() ==> r.Valid()
  {
    Perform(c, Decode(c, bytes))
  }

  /** The byte the part drives while the next byte after `before` is clocked in. */
  function ReplyByte(c: Chip, before: seq<byte>): byte {
    if before == [] then ERASED
    else if before[0] == CMD_STATUS_READ then (if c.busy then 1 else 0)
    else if before[0] == CMD_IDCODE_READ && |before| <= |c.id| then c.id[|before| - 1]
    else ERASED
  }

  function Replies(c: Chip, sent: seq<byte>): (r: seq<byte>)
    ensures |r| == |sent|
  {
    if sent == [] then []
    else Replies(c, sent[..|sent| - 1]) + [ReplyByte(c, sent[..|sent| - 1])]
  }

  /** The capacity codes: from 0x38 on, and from 0x18 on with a gap before 0x20, each doubles
      the number of segments; 0x17 counts as one. */
  lemma {:induction false} CapacityDoubles(code: byte)
    ensures SegmentsOf(0x38) == SegmentsOf(0x17) == SegmentsOf(0x18) == 1
    ensures 0x38 <= code < 0x3C || code == 0x18 || 0x20 <= code < 0x22 ==> SegmentsOf(code + 1) == 2 * SegmentsOf(code)
    ensures SegmentsOf(0x20) == 2 * SegmentsOf(0x19)
    ensures code !in {0x17, 0x18, 0x19, 0x20, 0x21, 0x22, 0x38, 0x39, 0x3A, 0x3B, 0x3C} <==> SegmentsOf(code) == 0
  {
  }
}
