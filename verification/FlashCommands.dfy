/** The byte sequences the XSPI flasher sends to a part: how they name an address, what the
    part makes of them, and what a sequence cut short can still do. */
module FlashCommands {
  import opened NorFlash
  import opened SpiWire

  const EXTRA_BYTES := 4           // command byte and 24-bit address
  const ADDRESS_SPACE := 0x1000_0000  // 28 bits: 16 segments

  // --- Addresses ---

  /** The segment number of a byte address. */
  function GetSector(address: nat): (sector: nat)
    ensures sector < 16
  {
    address / SEGMENT_SIZE % 16
  }

  /** A command byte followed by the low 24 address bits, most significant first. */
  function Header(cmd: byte, address: nat): (r: seq<byte>)
    ensures |r| == EXTRA_BYTES && r[0] == cmd
  {
    [cmd, address / 0x10000 % 0x100, address / 0x100 % 0x100, address % 0x100]
  }

  /** Sector register and header together name exactly the 28-bit address. */
  lemma {:induction false} HeaderAddress(cmd: byte, address: nat)
    ensures Address24(Header(cmd, address)) == address % SEGMENT_SIZE
    ensures GetSector(address) * SEGMENT_SIZE + address % SEGMENT_SIZE == address % ADDRESS_SPACE
  {
    ThreeBytes(address);
    var q := address / SEGMENT_SIZE;
    Segments(q, address % SEGMENT_SIZE);
    assert address == q * SEGMENT_SIZE + address % SEGMENT_SIZE;
  }

  lemma {:induction false} Segments(q: nat, r: nat)
    requires r < SEGMENT_SIZE
    ensures (q * SEGMENT_SIZE + r) % ADDRESS_SPACE == q % 16 * SEGMENT_SIZE + r
  {
    var h, t := q / 16, q % 16;
    assert q * SEGMENT_SIZE + r == h * ADDRESS_SPACE + (t * SEGMENT_SIZE + r);
    Remainder(h, t * SEGMENT_SIZE + r, ADDRESS_SPACE);
  }

  lemma {:induction false} Remainder(h: nat, rest: nat, m: nat)
    requires rest < m && (m == ADDRESS_SPACE || m == SEGMENT_SIZE)
    ensures (h * m + rest) % m == rest
  {
  }

  lemma {:induction false} ThreeBytes(a: nat)
    ensures a / 0x10000 % 0x100 * 0x10000 + a / 0x100 % 0x100 * 0x100 + a % 0x100 == a % SEGMENT_SIZE
  {
    var p := a / 0x100;
    var q := p / 0x100;
    assert a / 0x10000 == q;
    var rest := q % 0x100 * 0x10000 + p % 0x100 * 0x100 + a % 0x100;
    assert a == q / 0x100 * SEGMENT_SIZE + rest;
    Remainder(q / 0x100, rest, SEGMENT_SIZE);
  }

  lemma {:induction false} SameHeader(cmd: byte, address: nat)
    ensures Header(cmd, address % ADDRESS_SPACE) == Header(cmd, address)
    ensures GetSector(address % ADDRESS_SPACE) == GetSector(address)
  {
    var q, r := address / ADDRESS_SPACE, address % ADDRESS_SPACE;
    Digit(q, r, 0x10000, 0x1000);
    Digit(q, r, 0x100, 0x10_0000);
    Digit(q, r, 1, 0x1000_0000);
    assert address / SEGMENT_SIZE == q * 16 + r / SEGMENT_SIZE;
  }

  lemma {:induction false} Digit(q: nat, r: nat, unit: nat, above: nat)
    requires (unit == 0x10000 && above == 0x1000) || (unit == 0x100 && above == 0x10_0000) || (unit == 1 && above == 0x1000_0000)
    ensures (q * ADDRESS_SPACE + r) / unit % 0x100 == r / unit % 0x100
  {
    assert (q * ADDRESS_SPACE + r) / unit == q * above + r / unit;
  }

  /** The operation that reaches the part: an address above 28 bits wraps. */
  function Reduced(op: FlashOp): FlashOp {
    match op
    case Erase(a) => Erase(a % ADDRESS_SPACE)
    case Program(a, data) => Program(a % ADDRESS_SPACE, data)
  }

  function AllReduced(ops: seq<FlashOp>): (r: seq<FlashOp>)
    ensures |r| == |ops| && forall i :: 0 <= i < |r| ==> r[i] == Reduced(ops[i])
  {
    seq(|ops|, i requires 0 <= i < |ops| => Reduced(ops[i]))
  }

  lemma {:induction false} ReducedConcat(a: seq<FlashOp>, b: seq<FlashOp>)
    ensures AllReduced(a + b) == AllReduced(a) + AllReduced(b)
  {
  }

  lemma {:induction false} ReducedMore(ops: seq<FlashOp>, op: FlashOp)
    ensures AllReduced(ops + [op]) == AllReduced(ops) + [Reduced(op)]
  {
  }

  /** A part after carrying out an array operation sent through the sector register. */
  function Changed(c: Chip, op: FlashOp): (r: Chip)
    ensures c.Valid() ==> r.Valid()
  {
    c.(mem := Apply(c.mem, op), history := c.history + [op], ear := GetSector(op.addr),
       writeEnabled := false, busy := true)
  }

  function RegisterWrite(cmd: byte, value: nat, extraBytes: nat): (r: seq<byte>)
    ensures extraBytes <= 2 ==> |r| == extraBytes + 1
    ensures r != [] && r[0] == cmd
  {
    if extraBytes == 0 then [cmd]
    else if extraBytes == 1 then [cmd, value % 0x100]
    else [cmd, value / 0x100 % 0x100, value % 0x100]
  }

  // --- What a part makes of a command ---

  /** The identification bytes follow the command byte. */
  lemma {:induction false} IdReplies(c: Chip, sent: seq<byte>)
    requires c.Valid() && |sent| == 5 && sent[0] == CMD_IDCODE_READ
    ensures var r := Replies(c, sent); r[1] == c.id[0] && r[3] == c.id[2]
    ensures Execute(c, sent) == c
  {
    assert sent[..4][..3] == sent[..3] && sent[..3][..2] == sent[..2] && sent[..2][..1] == sent[..1];
    assert Replies(c, sent)[3] == Replies(c, sent[..4])[3] == ReplyByte(c, sent[..3]);
    assert Replies(c, sent)[1] == Replies(c, sent[..4])[1] == Replies(c, sent[..3])[1] == Replies(c, sent[..2])[1];
  }

  /** A status read changes nothing and answers with the busy bit. */
  lemma {:induction false} StatusReplies(c: Chip, x: byte)
    requires c.Valid()
    ensures Execute(c, Probe(x)) == c && Replies(c, Probe(x))[1] == if c.busy then 1 else 0
  {
    assert Probe(x)[..1] == [CMD_STATUS_READ];
  }

  /** What goes over the wire for each command, byte for byte. */
  lemma {:induction false} WireBytes(address: nat, sector: byte, x: byte)
    requires address == 0x1234_5678
    ensures Header(CMD_SUBSECTOR_ERASE, address) == [0x20, 0x34, 0x56, 0x78] && GetSector(address) == 0x2
    ensures Header(CMD_PAGE_PROGRAM, address) == [0x02, 0x34, 0x56, 0x78] && Header(CMD_QUAD_WRITE, address) == [0x32, 0x34, 0x56, 0x78]
    ensures RegisterWrite(CMD_EXT_ADDRESS_WRITE, sector, 1) == [0xC5, sector] && RegisterWrite(CMD_WRITE_ENABLE, 0, 0) == [0x06]
    ensures Probe(x) == [0x05, x] && CMD_IDCODE_READ == 0x9F
  {
  }

  /** The two bytes of a status read. */
  function Probe(x: byte): seq<byte> {
    [CMD_STATUS_READ, x]
  }

  /** An armed part takes the erase command at exactly the 28-bit address. */
  lemma {:induction false} EraseDecodes(c: Chip, address: nat)
    requires c.Valid() && !c.busy && c.writeEnabled && c.ear == GetSector(address) < c.segments
    ensures Execute(c, Header(CMD_SUBSECTOR_ERASE, address)) == Changed(c, Erase(address % ADDRESS_SPACE))
    ensures address % ADDRESS_SPACE < |c.mem|
  {
    HeaderAddress(CMD_SUBSECTOR_ERASE, address);
    SameHeader(CMD_SUBSECTOR_ERASE, address);
  }

  lemma {:induction false} ProgramDecodes(c: Chip, cmd: byte, address: nat, payload: seq<byte>)
    requires c.Valid() && !c.busy && c.writeEnabled && c.ear == GetSector(address) < c.segments
    requires c.Programs(cmd) && payload != []
    ensures Execute(c, Header(cmd, address) + payload) == Changed(c, Program(address % ADDRESS_SPACE, payload))
    ensures address % ADDRESS_SPACE < |c.mem|
  {
    HeaderAddress(cmd, address);
    SameHeader(cmd, address);
    assert (Header(cmd, address) + payload)[4..] == payload;
    assert Address24(Header(cmd, address) + payload) == Address24(Header(cmd, address));
  }

  // --- Commands cut short ---

  predicate ArrayCommand(b: byte) {
    b == CMD_SUBSECTOR_ERASE || b == CMD_PAGE_PROGRAM || b == CMD_QUAD_WRITE
  }

  /** Whatever follows these bytes, the part will not change its array. */
  predicate Harmless(pending: seq<byte>) {
    pending == [] || !ArrayCommand(pending[0])
  }

  lemma {:induction false} HarmlessMeaning(c: Chip, pending: seq<byte>, more: seq<byte>)
    requires c.Valid() && Harmless(pending) && (pending == [] ==> Harmless(more))
    ensures !Decode(c, pending + more).Change?
  {
  }

  /** The bytes begin the command for an array operation. */
  predicate PartOf(pending: seq<byte>, op: FlashOp) {
    match op
    case Erase(a) => pending <= Header(CMD_SUBSECTOR_ERASE, a)
    case Program(a, data) => pending <= Header(CMD_PAGE_PROGRAM, a) + data || pending <= Header(CMD_QUAD_WRITE, a) + data
  }

  function CommandLength(op: FlashOp): nat {
    match op
    case Erase(_) => EXTRA_BYTES
    case Program(_, data) => EXTRA_BYTES + |data|
  }

  /** The bytes a part has been sent begin the command for `op`, up to where a FIFO of this
      depth had run empty, or no array command. */
  predicate Confined(c: Chip, pending: seq<byte>, op: FlashOp, depth: nat) {
    || Harmless(pending)
    || (&& PartOf(pending, op) && op.addr < ADDRESS_SPACE && c.ear == GetSector(op.addr) < c.segments
        && depth > 0 && AtBoundary(|pending|, CommandLength(op), depth))
  }

  /** The foreseen fault comes with this operation if it is an erase. */
  predicate Due(forecast: Fault, done: nat) {
    forecast.CutErase? && forecast.ops == done && forecast.bytes <= EXTRA_BYTES
  }

  /** The foreseen fault has cut the erase of the address: the part is still selected and armed,
      and has taken the foreseen number of bytes and at most the rest of the FIFO. */
  predicate EraseCut(forecast: Fault, selection: Selection, c: Chip, slave: nat, shifted: seq<byte>, address: nat, depth: nat) {
    && forecast.CutErase? && selection == Slave(slave) && c.writeEnabled && !c.busy
    && shifted <= Header(CMD_SUBSECTOR_ERASE, address)
    && forecast.bytes <= |shifted| && (forecast.bytes > 0 ==> |shifted| < forecast.bytes + depth)
  }

  lemma {:induction false} HeaderTaken(c: Chip, pending: seq<byte>, op: FlashOp)
    requires c.Valid() && PartOf(pending, op) && |pending| >= 4
    requires op.addr < ADDRESS_SPACE && c.ear == GetSector(op.addr) < c.segments
    ensures c.Locate(Address24(pending)) == op.addr
  {
    var cmd := pending[0];
    assert pending[..4] == Header(cmd, op.addr);
    assert Address24(pending) == Address24(pending[..4]);
    HeaderAddress(cmd, op.addr);
  }

  /** Deselecting the part now would change only cells the operation touches. */
  lemma {:induction false} ConfinedMeaning(c: Chip, pending: seq<byte>, op: FlashOp, depth: nat)
    requires c.Valid() && Confined(c, pending, op, depth)
    ensures Decode(c, pending).Change? ==> forall x: nat :: Touches(Decode(c, pending).op, x) ==> Touches(op, x)
  {
    if Harmless(pending) {
      assert pending + [] == pending;
      HarmlessMeaning(c, pending, []);
    } else if |pending| >= 4 {
      HeaderTaken(c, pending, op);
    }
  }

  /** The parts after the first status poll of a new session: one still selected ends the
      command it had begun with the two bytes of the poll.  `first` is the polled part as it
      was then. */
  function Settle(chips: seq<Chip>, selection: Selection, shifted: seq<byte>, slave: nat, first: Chip, x: byte): (r: seq<Chip>)
    requires |chips| == 2 && chips[0].Valid() && chips[1].Valid() && slave < 2 && first.Valid()
    ensures |r| == 2 && r[0].Valid() && r[1].Valid()
  {
    Released(chips, selection, shifted, slave)[slave := Execute(first, Carried(selection, shifted, slave) + Probe(x))]
  }

  /** `first` is the polled part as the first status poll found it, perhaps busy no more, and
      `settled` what that poll made of the parts. */
  ghost predicate FirstPoll(chips: seq<Chip>, selection: Selection, shifted: seq<byte>, slave: nat, first: Chip, settled: seq<Chip>, x: byte) {
    && |chips| == 2 && chips[0].Valid() && chips[1].Valid() && slave < 2
    && first == chips[slave].(busy := first.busy) && (first.busy ==> chips[slave].busy)
    && settled == Settle(chips, selection, shifted, slave, first, x)
  }

  lemma {:induction false} SettledSize(chips: seq<Chip>, selection: Selection, shifted: seq<byte>, slave: nat, first: Chip, settled: seq<Chip>, x: byte)
    requires FirstPoll(chips, selection, shifted, slave, first, settled, x)
    ensures |settled| == 2 && settled[slave].Valid() && |settled[slave].mem| == |chips[slave].mem|
  {
  }

}
