/** Lines of MCS text: printing a line and scanning it again. */
module McsText {
  import opened Common
  import opened NorFlash
  import opened McsFile

  // --- Digits ---

  const UPPER_DIGITS := "0123456789ABCDEF"
  const LOWER_DIGITS := "0123456789abcdef"

  function Digits(lower: bool): (r: string)
    ensures |r| == 16
  {
    if lower then LOWER_DIGITS else UPPER_DIGITS
  }

  lemma {:induction false} DigitValue(n: nat, lower: bool)
    requires n < 16
    ensures HexValue(Digits(lower)[n]) == n
  {
    if n < 8 {
      assert n == 0 || n == 1 || n == 2 || n == 3 || n == 4 || n == 5 || n == 6 || n == 7;
    } else {
      assert n == 8 || n == 9 || n == 10 || n == 11 || n == 12 || n == 13 || n == 14 || n == 15;
    }
  }

  /** Nothing but a digit, in either case, has a value. */
  lemma {:induction false} OnlyDigits(c: char)
    requires HexValue(c) >= 0
    ensures c == UPPER_DIGITS[HexValue(c)] || c == LOWER_DIGITS[HexValue(c)]
  {
    var n := HexValue(c);
    DigitValue(n, true);
    DigitValue(n, false);
  }

  // --- Printing ---

  /** Two digits for a byte, the high one first. */
  function PrintByte(b: byte, lower: bool): (r: string)
    ensures |r| == 2
  {
    [Digits(lower)[b / 16], Digits(lower)[b % 16]]
  }

  function PrintBytes(bytes: seq<byte>, lower: bool): (r: string)
    ensures |r| == 2 * |bytes|
  {
    if bytes == [] then "" else PrintByte(bytes[0], lower) + PrintBytes(bytes[1..], lower)
  }

  /** A line as the format has it: length, address, kind, data and a checksum. */
  function PrintLine(address: u16, kind: byte, data: seq<byte>, checksum: byte, lower: bool): string
    requires |data| < 0x100
  {
    ":" + PrintBytes([|data|, address / 0x100, address % 0x100, kind] + data + [checksum], lower)
  }

  // --- Scanning again ---

  lemma {:induction false} ByteReads(b: byte, lower: bool)
    ensures HexPair(PrintByte(b, lower)) == b
  {
    DigitValue(b / 16, lower);
    DigitValue(b % 16, lower);
  }

  /** The k-th byte printed is at twice that position. */
  lemma {:induction false} ByteAt(bytes: seq<byte>, lower: bool, k: nat)
    requires k < |bytes|
    ensures PrintBytes(bytes, lower)[2 * k..2 * k + 2] == PrintByte(bytes[k], lower)
    decreases |bytes|
  {
    var rest := PrintBytes(bytes[1..], lower);
    if k == 0 {
    } else {
      ByteAt(bytes[1..], lower, k - 1);
      assert (PrintByte(bytes[0], lower) + rest)[2 * k..2 * k + 2] == rest[2 * (k - 1)..2 * (k - 1) + 2];
    }
  }

  lemma {:induction false} PrintConcat(a: seq<byte>, b: seq<byte>, lower: bool)
    ensures PrintBytes(a + b, lower) == PrintBytes(a, lower) + PrintBytes(b, lower)
    decreases |a|
  {
    if a == [] {
      assert a + b == b;
    } else {
      assert (a + b)[1..] == a[1..] + b;
      PrintConcat(a[1..], b, lower);
    }
  }

  function Word16(high: byte, low: byte): u16 {
    var h: int := high;
    0x100 * h + low
  }

  /** The text shows the bytes, two digits each. */
  ghost predicate Shows(text: string, bytes: seq<byte>, lower: bool) {
    |text| == 2 * |bytes| && forall k :: 0 <= k < |bytes| ==> ShowsAt(text, k, bytes[k], lower)
  }

  ghost predicate ShowsAt(text: string, k: nat, b: byte, lower: bool) {
    2 * k + 2 <= |text| && text[2 * k..2 * k + 2] == PrintByte(b, lower)
  }

  lemma {:induction false} PrintShows(bytes: seq<byte>, lower: bool)
    ensures Shows(PrintBytes(bytes, lower), bytes, lower)
  {
    forall k | 0 <= k < |bytes| ensures ShowsAt(PrintBytes(bytes, lower), k, bytes[k], lower) {
      ByteAt(bytes, lower, k);
    }
  }

  lemma {:induction false} ByteNumber(b: byte, lower: bool)
    ensures HexNumber(PrintByte(b, lower)) == b
  {
    var s := PrintByte(b, lower);
    ByteReads(b, lower);
    assert s[0..] == s && s[..0] == "";
  }

  lemma {:induction false} WordNumber(s: string, high: byte, low: byte)
    requires |s| == 4 && HexPair(s[..2]) == high && HexPair(s[2..]) == low
    ensures HexNumber(s) == Word16(high, low)
  {
  }

  lemma {:induction false} FieldReads(line: string, text: string, at: nat, n: nat, v: u16)
    requires line == ":" + text && 0 < n <= 4 && at + n <= |text| && HexNumber(text[at..at + n]) == v
    ensures Field(line, 1 + at, n) == Some(v)
  {
    assert line[1 + at..1 + at + n] == text[at..at + n];
  }

  /** A two-digit field is a byte. */
  lemma {:induction false} ByteField(line: string, text: string, k: nat, b: byte, lower: bool)
    requires line == ":" + text && ShowsAt(text, k, b, lower)
    ensures Field(line, 1 + 2 * k, 2) == Some(b)
  {
    ByteNumber(b, lower);
    FieldReads(line, text, 2 * k, 2, b);
  }

  lemma {:induction false} Halves(text: string, at: nat, s: string)
    requires at + 4 <= |text| && s == text[at..at + 4]
    ensures s[..2] == text[at..at + 2] && s[2..] == text[at + 2..at + 4]
  {
  }

  /** A four-digit field is two bytes, the high one first. */
  lemma {:induction false} WordField(line: string, text: string, k: nat, high: byte, low: byte, lower: bool)
    requires line == ":" + text && ShowsAt(text, k, high, lower) && ShowsAt(text, k + 1, low, lower)
    ensures Field(line, 1 + 2 * k, 4) == Some(Word16(high, low))
  {
    var s := text[2 * k..2 * k + 4];
    ByteReads(high, lower);
    ByteReads(low, lower);
    Halves(text, 2 * k, s);
    WordNumber(s, high, low);
    FieldReads(line, text, 2 * k, 4, Word16(high, low));
  }

  /** Readable pairs for these bytes. */
  function Somes(bytes: seq<byte>): (r: seq<Option<byte>>)
    ensures |r| == |bytes| && forall i :: 0 <= i < |r| ==> r[i] == Some(bytes[i])
  {
    seq(|bytes|, i requires 0 <= i < |bytes| => Some(bytes[i]))
  }

  lemma {:induction false} PairsRead(bytes: seq<byte>, lower: bool)
    ensures Pairs(PrintBytes(bytes, lower)) == Somes(bytes)
    decreases |bytes|
  {
    var s := PrintBytes(bytes, lower);
    if bytes == [] {
    } else {
      assert s[..2] == PrintByte(bytes[0], lower) && s[2..] == PrintBytes(bytes[1..], lower);
      ByteReads(bytes[0], lower);
      PairsRead(bytes[1..], lower);
      assert [Some(bytes[0])] + Somes(bytes[1..]) == Somes(bytes);
    }
  }

  /** The data field starts at the tenth character. */
  lemma {:induction false} DataField(head: seq<byte>, data: seq<byte>, checksum: byte, lower: bool, line: string)
    requires |head| == 4 && line == ":" + PrintBytes(head + data + [checksum], lower)
    ensures |line| == 11 + 2 * |data| && line[9..9 + 2 * |data|] == PrintBytes(data, lower)
  {
    PrintConcat(head + data, [checksum], lower);
    PrintConcat(head, data, lower);
    var a, b, c := PrintBytes(head, lower), PrintBytes(data, lower), PrintBytes([checksum], lower);
    assert line == ":" + (a + b + c);
    assert (a + b + c)[8..8 + |b|] == b;
    assert line[9..9 + |b|] == (a + b + c)[8..8 + |b|];
  }

  lemma {:induction false} ScanParts(line: string, n: nat)
    requires |line| == 11 + 2 * n && line[0] == ':' && Field(line, 1, 2) == Some(n)
    ensures Scan(line) == Line(Colon, Some(n), Field(line, 3, 4), Field(line, 7, 2), Field(line, 9, 4), true, Pairs(line[9..9 + 2 * n]), true)
  {
  }

  lemma {:induction false} Parts(head: seq<byte>, data: seq<byte>, checksum: byte, bytes: seq<byte>)
    requires |head| == 4 && bytes == head + data + [checksum]
    ensures bytes[0] == head[0] && bytes[1] == head[1] && bytes[2] == head[2] && bytes[3] == head[3]
    ensures |data| > 0 ==> bytes[4] == data[0] && bytes[5] == (data + [checksum])[1]
  {
  }

  /** Scanning a printed line gives back its length, address, kind and data. */
  lemma {:induction false} LineScans(address: u16, kind: byte, data: seq<byte>, checksum: byte, lower: bool)
    requires |data| < 0x100
    ensures var line := Scan(PrintLine(address, kind, data, checksum, lower));
      && line.mark == Colon && line.len == Some(|data|) && line.address == Some(address) && line.kind == Some(kind)
      && line.hasData && line.whole && line.pairs == Somes(data)
      && (|data| > 0 ==> line.upper == Some(Word16(data[0], (data + [checksum])[1])))
  {
    var n: byte, high: byte, low: byte := |data|, address / 0x100, address % 0x100;
    HeadedScans([n, high, low, kind], data, checksum, lower, PrintLine(address, kind, data, checksum, lower));
    assert Word16(high, low) == address;
  }

  lemma {:induction false} HeadedScans(head: seq<byte>, data: seq<byte>, checksum: byte, lower: bool, line: string)
    requires |head| == 4 && head[0] == |data| && line == ":" + PrintBytes(head + data + [checksum], lower)
    ensures var scanned := Scan(line);
      && scanned.mark == Colon && scanned.len == Some(|data|) && scanned.address == Some(Word16(head[1], head[2]))
      && scanned.kind == Some(head[3]) && scanned.hasData && scanned.whole && scanned.pairs == Somes(data)
      && (|data| > 0 ==> scanned.upper == Some(Word16(data[0], (data + [checksum])[1])))
  {
    var bytes := head + data + [checksum];
    PrintShows(bytes, lower);
    DataField(head, data, checksum, lower, line);
    PairsRead(data, lower);
    FieldsRead(line, PrintBytes(bytes, lower), bytes, lower);
    Parts(head, data, checksum, bytes);
    ScanParts(line, |data|);
  }

  ghost predicate Fields(line: string, bytes: seq<byte>) {
    && |bytes| > 4
    && Field(line, 1, 2) == Some(bytes[0]) && Field(line, 3, 4) == Some(Word16(bytes[1], bytes[2])) && Field(line, 7, 2) == Some(bytes[3])
    && (|bytes| > 5 ==> Field(line, 9, 4) == Some(Word16(bytes[4], bytes[5])))
  }

  lemma {:induction false} FieldsRead(line: string, text: string, bytes: seq<byte>, lower: bool)
    requires line == ":" + text && Shows(text, bytes, lower) && |bytes| > 4
    ensures Fields(line, bytes)
  {
    ByteShown(line, text, bytes, lower, 0);
    WordShown(line, text, bytes, lower, 1);
    ByteShown(line, text, bytes, lower, 3);
    if |bytes| > 5 {
      WordShown(line, text, bytes, lower, 4);
    }
  }

  lemma {:induction false} ByteShown(line: string, text: string, bytes: seq<byte>, lower: bool, k: nat)
    requires line == ":" + text && Shows(text, bytes, lower) && k < |bytes|
    ensures Field(line, 1 + 2 * k, 2) == Some(bytes[k])
  {
    ByteField(line, text, k, bytes[k], lower);
  }

  lemma {:induction false} WordShown(line: string, text: string, bytes: seq<byte>, lower: bool, k: nat)
    requires line == ":" + text && Shows(text, bytes, lower) && k + 1 < |bytes|
    ensures Field(line, 1 + 2 * k, 4) == Some(Word16(bytes[k], bytes[k + 1]))
  {
    assert ShowsAt(text, k, bytes[k], lower) && ShowsAt(text, k + 1, bytes[k + 1], lower);
    WordField(line, text, k, bytes[k], bytes[k + 1], lower);
  }

  /** A token of a file as its line of text; the checksum is not looked at. */
  function PrintToken(token: Token, checksum: byte, lower: bool): string
    requires Printable(token)
  {
    match token
    case Data(address, bytes) => PrintLine(address, 0, bytes, checksum, lower)
    case Extended(upper) => PrintLine(0, 4, [upper / 0x100, upper % 0x100], checksum, lower)
    case End => PrintLine(0, 1, [], checksum, lower)
  }

  predicate Printable(token: Token) {
    match token
    case Data(address, bytes) => address < 0x1_0000 && |bytes| < 0x100
    case Extended(upper) => upper < 0x1_0000
    case End => true
    case Other => false
  }

  /** A printed token reads back as itself, whatever the checksum, in either case of digits. */
  lemma {:induction false} TokenScans(token: Token, checksum: byte, lower: bool)
    requires Printable(token)
    ensures TokenOf(Scan(PrintToken(token, checksum, lower))) == token
  {
    match token
    case Data(address, bytes) =>
      LineScans(address, 0, bytes, checksum, lower);
      DataToken(Scan(PrintLine(address, 0, bytes, checksum, lower)), address, bytes);
    case Extended(upper) =>
      var high: byte, low: byte := upper / 0x100, upper % 0x100;
      LineScans(0, 4, [high, low], checksum, lower);
      ExtendedToken(Scan(PrintLine(0, 4, [high, low], checksum, lower)), high, low, checksum, upper);
    case End =>
      LineScans(0, 1, [], checksum, lower);
  }

  lemma {:induction false} DataToken(line: Line, address: u16, bytes: seq<byte>)
    requires line.mark == Colon && line.len == Some(|bytes|) && line.address == Some(address) && line.kind == Some(0)
    requires line.hasData && line.whole && line.pairs == Somes(bytes)
    ensures TokenOf(line) == Data(address, bytes)
  {
    assert Values(Somes(bytes)) == bytes;
  }

  lemma {:induction false} ExtendedToken(line: Line, high: byte, low: byte, checksum: byte, upper: u16)
    requires line.mark == Colon && line.len == Some(2) && line.address == Some(0) && line.kind == Some(4) && line.whole
    requires line.upper == Some(Word16(high, ([high, low] + [checksum])[1])) && high == upper / 0x100 && low == upper % 0x100
    ensures TokenOf(line) == Extended(upper)
  {
    assert ([high, low] + [checksum])[1] == low && Word16(high, low) == upper;
  }
}
