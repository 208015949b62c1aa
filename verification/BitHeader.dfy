/** The header of a Xilinx .bit file: the driver's parser against a printer. */
module BitHeader {
  import opened Bits
  import opened Common

  const EVEN_MAGIC_BYTE: byte := 0x0f
  const ODD_MAGIC_BYTE: byte := 0xf0

  datatype Header = Header(
    magicLength: nat, design: seq<byte>, part: seq<byte>, date: seq<byte>, time: seq<byte>, bitstreamLength: nat)

  /** Undefined stands for reading outside the buffer or before a zero-length field. */
  datatype Outcome = Parsed(header: Header, headerLength: nat) | Rejected | Undefined

  // --- The printer ---

  predicate ValidField(f: seq<byte>) {
    0 < |f| < 0x1_0000 && f[|f| - 1] == 0
  }

  predicate ValidHeader(h: Header) {
    && 0 < h.magicLength < 0x1_0000 && h.bitstreamLength < UINT32
    && ValidField(h.design) && ValidField(h.part) && ValidField(h.date) && ValidField(h.time)
  }

  function Be16(n: nat): seq<byte>
    requires n < 0x1_0000
  {
    [n / 256, n % 256]
  }

  function Be32(n: nat): seq<byte>
    requires n < UINT32
  {
    Be16(n / 0x1_0000) + Be16(n % 0x1_0000)
  }

  function MagicByte(i: nat): byte {
    if i % 2 == 0 then EVEN_MAGIC_BYTE else ODD_MAGIC_BYTE
  }

  /** Magic bytes at positions i to n. */
  function Magic(i: nat, n: nat): seq<byte>
    requires i <= n
    decreases n - i
  {
    if i == n then [] else [MagicByte(i)] + Magic(i + 1, n)
  }

  function FieldBytes(tag: byte, f: seq<byte>): seq<byte>
    requires |f| < 0x1_0000
  {
    [tag] + Be16(|f|) + f
  }

  function Tail(h: Header): seq<byte>
    requires h.bitstreamLength < UINT32
  {
    ['e' as byte] + Be32(h.bitstreamLength)
  }

  function TimesThen(h: Header, rest: seq<byte>): seq<byte>
    requires ValidHeader(h)
  {
    FieldBytes('c' as byte, h.date) + (FieldBytes('d' as byte, h.time) + (Tail(h) + rest))
  }

  function FieldsThen(h: Header, rest: seq<byte>): seq<byte>
    requires ValidHeader(h)
  {
    FieldBytes('a' as byte, h.design) + (FieldBytes('b' as byte, h.part) + TimesThen(h, rest))
  }

  function PrintThen(h: Header, endOfMagic: byte, rest: seq<byte>): seq<byte>
    requires ValidHeader(h)
  {
    Be16(h.magicLength) + (Magic(0, h.magicLength - 1) + ([endOfMagic, 0, 1] + FieldsThen(h, rest)))
  }

  /** The printed header; nothing reads the byte that ends the magic. */
  function Print(h: Header, endOfMagic: byte): seq<byte>
    requires ValidHeader(h)
  {
    PrintThen(h, endOfMagic, [])
  }

  // --- What the parser reads, over the bytes not yet consumed ---

  datatype Read = Got(value: seq<byte>, rest: seq<byte>) | Bad | Outside

  function Num16(a: byte, b: byte): nat {
    a * 256 + b
  }

  function ReadMagic(i: nat, n: nat, s: seq<byte>): (r: Read)
    requires i <= n
    ensures r.Got? ==> |r.rest| + (n - i) == |s|
    decreases n - i
  {
    if i == n then Got([], s)
    else if s == [] then Outside
    else if s[0] != MagicByte(i) then Bad
    else ReadMagic(i + 1, n, s[1..])
  }

  function ReadField(tag: byte, s: seq<byte>): Read {
    if |s| < 1 then Outside
    else if s[0] != tag then Bad
    else if |s| < 3 then Outside
    else
      var len := Num16(s[1], s[2]);
      if len == 0 || |s| < 3 + len then Outside
      else if s[2 + len] != 0 then Bad
      else Got(s[3..3 + len], s[3 + len..])
  }

  function ReadTail(s: seq<byte>): Read {
    if |s| < 1 then Outside
    else if s[0] != 'e' as byte then Bad
    else if |s| < 5 then Outside
    else Got(s[1..5], s[5..])
  }

  /** `magicLength - 1` in 32-bit unsigned arithmetic. */
  function MagicCount(magicLength: nat): nat {
    if magicLength == 0 then UINT32 - 1 else magicLength - 1
  }

  function Times(magicLength: nat, design: seq<byte>, part: seq<byte>, total: nat, s: seq<byte>): Outcome
    requires |s| <= total
  {
    match ReadField('c' as byte, s)
    case Bad => Rejected
    case Outside => Undefined
    case Got(date, s1) =>
      match ReadField('d' as byte, s1)
      case Bad => Rejected
      case Outside => Undefined
      case Got(time, s2) =>
        match ReadTail(s2)
        case Bad => Rejected
        case Outside => Undefined
        case Got(n, s3) => Parsed(Header(magicLength, design, part, date, time, Num32(n)), total - |s3|)
  }

  function Fields(magicLength: nat, total: nat, s: seq<byte>): Outcome
    requires |s| <= total
  {
    match ReadField('a' as byte, s)
    case Bad => Rejected
    case Outside => Undefined
    case Got(design, s1) =>
      match ReadField('b' as byte, s1)
      case Bad => Rejected
      case Outside => Undefined
      case Got(part, s2) => Times(magicLength, design, part, total, s2)
  }

  function AfterMagic(magicLength: nat, total: nat, read: Read): Outcome
    requires read.Got? ==> |read.rest| <= total
  {
    match read
    case Bad => Rejected
    case Outside => Undefined
    case Got(_, s) =>
      if |s| < 3 then Undefined
      else if Num16(s[1], s[2]) != 1 then Rejected
      else Fields(magicLength, total, s[3..])
  }

  function Parse(data: seq<byte>): Outcome {
    if |data| < 2 then Undefined
    else
      var magicLength := Num16(data[0], data[1]);
      AfterMagic(magicLength, |data|, ReadMagic(0, MagicCount(magicLength), data[2..]))
  }

  // --- Each part is read back as printed, and only what was printed is read ---

  lemma {:induction false} NumberReads(n: nat)
    requires n < 0x1_0000
    ensures Num16(Be16(n)[0], Be16(n)[1]) == n
  {
  }

  lemma {:induction false} NumberWasPrinted(a: byte, b: byte)
    ensures Num16(a, b) < 0x1_0000 && Be16(Num16(a, b)) == [a, b]
  {
  }

  lemma {:induction false} MagicReads(i: nat, n: nat, rest: seq<byte>)
    requires i <= n
    ensures ReadMagic(i, n, Magic(i, n) + rest) == Got([], rest)
    decreases n - i
  {
    if i < n {
      MagicReads(i + 1, n, rest);
      assert (Magic(i, n) + rest)[1..] == Magic(i + 1, n) + rest;
    } else {
      assert Magic(i, n) + rest == rest;
    }
  }

  lemma {:induction false} MagicWasPrinted(i: nat, n: nat, s: seq<byte>)
    requires i <= n && ReadMagic(i, n, s).Got?
    ensures s == Magic(i, n) + ReadMagic(i, n, s).rest && ReadMagic(i, n, s).value == []
    decreases n - i
  {
    if i == n {
    } else {
      MagicWasPrinted(i + 1, n, s[1..]);
      assert s == [s[0]] + s[1..];
    }
  }

  lemma {:induction false} FieldReads(tag: byte, f: seq<byte>, rest: seq<byte>)
    requires ValidField(f)
    ensures ReadField(tag, FieldBytes(tag, f) + rest) == Got(f, rest)
  {
    var s := FieldBytes(tag, f) + rest;
    NumberReads(|f|);
    assert s[0] == tag && [s[1], s[2]] == Be16(|f|);
    assert s[2 + |f|] == f[|f| - 1];
    assert s[3..3 + |f|] == f && s[3 + |f|..] == rest;
  }

  lemma {:induction false} FieldWasPrinted(tag: byte, s: seq<byte>)
    requires ReadField(tag, s).Got?
    ensures ValidField(ReadField(tag, s).value)
    ensures s == FieldBytes(tag, ReadField(tag, s).value) + ReadField(tag, s).rest
  {
    var n := Num16(s[1], s[2]);
    NumberWasPrinted(s[1], s[2]);
    assert s[3..3 + n][n - 1] == s[2 + n];
  }

  function Num32(n: seq<byte>): nat
    requires |n| == 4
  {
    Num16(n[0], n[1]) * 0x1_0000 + Num16(n[2], n[3])
  }

  lemma {:induction false} Halves(hi: nat, lo: nat)
    requires hi < 0x1_0000 && lo < 0x1_0000
    ensures hi * 0x1_0000 + lo < UINT32
    ensures (hi * 0x1_0000 + lo) / 0x1_0000 == hi && (hi * 0x1_0000 + lo) % 0x1_0000 == lo
  {
  }

  lemma {:induction false} LengthWasPrinted(b: seq<byte>)
    requires |b| == 4
    ensures Num32(b) < UINT32 && Be32(Num32(b)) == b
  {
    NumberWasPrinted(b[0], b[1]);
    NumberWasPrinted(b[2], b[3]);
    Halves(Num16(b[0], b[1]), Num16(b[2], b[3]));
    assert b == [b[0], b[1]] + [b[2], b[3]];
  }

  lemma {:induction false} TailWasPrinted(h: Header, s: seq<byte>)
    requires ReadTail(s).Got? && h.bitstreamLength == Num32(ReadTail(s).value)
    ensures h.bitstreamLength < UINT32 && s == Tail(h) + ReadTail(s).rest
  {
    LengthWasPrinted(s[1..5]);
    assert s == [s[0]] + s[1..5] + s[5..];
  }

  // --- Whole headers ---

  lemma {:induction false} TimesRead(h: Header, total: nat, rest: seq<byte>)
    requires ValidHeader(h) && |TimesThen(h, rest)| <= total
    ensures Times(h.magicLength, h.design, h.part, total, TimesThen(h, rest)) == Parsed(h, total - |rest|)
  {
    var s2 := Tail(h) + rest;
    var s1 := FieldBytes('d' as byte, h.time) + s2;
    FieldReads('c' as byte, h.date, s1);
    FieldReads('d' as byte, h.time, s2);
  }

  lemma {:induction false} FieldsRead(h: Header, total: nat, rest: seq<byte>)
    requires ValidHeader(h) && |FieldsThen(h, rest)| <= total
    ensures Fields(h.magicLength, total, FieldsThen(h, rest)) == Parsed(h, total - |rest|)
  {
    var s2 := TimesThen(h, rest);
    FieldReads('a' as byte, h.design, FieldBytes('b' as byte, h.part) + s2);
    FieldReads('b' as byte, h.part, s2);
    TimesRead(h, total, rest);
  }

  lemma {:induction false} TimesWerePrinted(magicLength: nat, design: seq<byte>, part: seq<byte>, total: nat, s: seq<byte>)
      returns (rest: seq<byte>)
    requires |s| <= total && 0 < magicLength < 0x1_0000 && ValidField(design) && ValidField(part)
    requires Times(magicLength, design, part, total, s).Parsed?
    ensures var h := Times(magicLength, design, part, total, s).header;
      && ValidHeader(h) && s == TimesThen(h, rest)
      && h.magicLength == magicLength && h.design == design && h.part == part
    ensures Times(magicLength, design, part, total, s).headerLength == total - |rest|
  {
    var s1 := ReadField('c' as byte, s).rest;
    var s2 := ReadField('d' as byte, s1).rest;
    FieldWasPrinted('c' as byte, s);
    FieldWasPrinted('d' as byte, s1);
    TailWasPrinted(Times(magicLength, design, part, total, s).header, s2);
    rest := ReadTail(s2).rest;
  }

  lemma {:induction false} FieldsWerePrinted(magicLength: nat, total: nat, s: seq<byte>) returns (rest: seq<byte>)
    requires |s| <= total && 0 < magicLength < 0x1_0000 && Fields(magicLength, total, s).Parsed?
    ensures var h := Fields(magicLength, total, s).header;
      ValidHeader(h) && s == FieldsThen(h, rest) && h.magicLength == magicLength
    ensures Fields(magicLength, total, s).headerLength == total - |rest|
  {
    var a := ReadField('a' as byte, s);
    var b := ReadField('b' as byte, a.rest);
    FieldWasPrinted('a' as byte, s);
    FieldWasPrinted('b' as byte, a.rest);
    rest := TimesWerePrinted(magicLength, a.value, b.value, total, b.rest);
  }

  lemma {:induction false} PrintThenAppends(h: Header, endOfMagic: byte, rest: seq<byte>)
    requires ValidHeader(h)
    ensures PrintThen(h, endOfMagic, rest) == Print(h, endOfMagic) + rest
  {
    assert Tail(h) + [] == Tail(h);
    assert FieldsThen(h, rest) == FieldsThen(h, []) + rest;
    assert [endOfMagic, 0, 1] + FieldsThen(h, rest) == [endOfMagic, 0, 1] + FieldsThen(h, []) + rest;
  }

  lemma {:induction false} HeadWasPrinted(data: seq<byte>)
    requires |data| >= 2
    ensures data == Be16(Num16(data[0], data[1])) + data[2..] && Num16(data[0], data[1]) < 0x1_0000
  {
    NumberWasPrinted(data[0], data[1]);
  }

  lemma {:induction false} VersionWasPrinted(m: nat, total: nat, s: seq<byte>)
    requires |s| <= total && AfterMagic(m, total, Got([], s)).Parsed?
    ensures |s| >= 3 && s == [s[0], 0, 1] + s[3..]
    ensures AfterMagic(m, total, Got([], s)) == Fields(m, total, s[3..])
  {
    assert Num16(s[1], s[2]) == 1;
    assert s[1] == 0 && s[2] == 1;
    assert s == s[..3] + s[3..];
  }

  lemma {:induction false} VersionAndFieldsRead(h: Header, e: byte, total: nat, s: seq<byte>, f: seq<byte>, rest: seq<byte>)
    requires ValidHeader(h) && s == [e, 0, 1] + f && f == FieldsThen(h, rest) && |rest| <= |s| <= total
    ensures AfterMagic(h.magicLength, total, Got([], s)) == Parsed(h, total - |rest|)
  {
    FieldsRead(h, total, rest);
  }

  lemma {:induction false} HeadAndMagicRead(m: nat, data: seq<byte>, t: seq<byte>, s: seq<byte>)
    requires 0 < m < 0x1_0000 && data == Be16(m) + t && t == Magic(0, m - 1) + s
    ensures |s| <= |data| && Parse(data) == AfterMagic(m, |data|, Got([], s))
  {
    MagicReads(0, m - 1, s);
  }

  lemma {:induction false} BothRead(h: Header, data: seq<byte>, s: seq<byte>, rest: seq<byte>)
    requires |rest| <= |s| <= |data| && Parse(data) == AfterMagic(h.magicLength, |data|, Got([], s))
    requires AfterMagic(h.magicLength, |data|, Got([], s)) == Parsed(h, |data| - |rest|)
    ensures Parse(data) == Parsed(h, |data| - |rest|)
  {
  }

  /** A printed header, whatever follows it, parses to itself. */
  lemma {:induction false} ParsesWhatWasPrinted(h: Header, endOfMagic: byte, rest: seq<byte>)
    requires ValidHeader(h)
    ensures Parse(Print(h, endOfMagic) + rest) == Parsed(h, |Print(h, endOfMagic)|)
  {
    var f := FieldsThen(h, rest);
    var s := [endOfMagic, 0, 1] + f;
    var t := Magic(0, h.magicLength - 1) + s;
    var data := Print(h, endOfMagic) + rest;
    assert data == Be16(h.magicLength) + t by { PrintThenAppends(h, endOfMagic, rest); }
    HeadAndMagicRead(h.magicLength, data, t, s);
    VersionAndFieldsRead(h, endOfMagic, |data|, s, f, rest);
    BothRead(h, data, s, rest);
  }

  lemma {:induction false} MagicLength(i: nat, n: nat)
    requires i <= n
    ensures |Magic(i, n)| == n - i
    decreases n - i
  {
    if i == n {
    } else {
      MagicLength(i + 1, n);
    }
  }

  /** Where the byte that ends the magic stands in a print. */
  lemma {:induction false} EndOfMagicAt(h: Header, e: byte)
    requires ValidHeader(h)
    ensures h.magicLength + 1 < |Print(h, e)| && Print(h, e)[h.magicLength + 1] == e
  {
    var magic, f := Magic(0, h.magicLength - 1), FieldsThen(h, []);
    MagicLength(0, h.magicLength - 1);
    assert (magic + ([e, 0, 1] + f))[h.magicLength - 1] == e;
  }

  lemma {:induction false} AcceptedWasPrinted(data: seq<byte>) returns (endOfMagic: byte)
    requires |data| < UINT32 && Parse(data).Parsed?
    ensures ValidHeader(Parse(data).header) && Parse(data).headerLength <= |data|
    ensures data[..Parse(data).headerLength] == Print(Parse(data).header, endOfMagic)
  {
    var m := Num16(data[0], data[1]);
    HeadWasPrinted(data);
    assert m > 0;
    var t := data[2..];
    MagicWasPrinted(0, m - 1, t);
    var s := ReadMagic(0, m - 1, t).rest;
    VersionWasPrinted(m, |data|, s);
    endOfMagic := s[0];
    var rest := FieldsWerePrinted(m, |data|, s[3..]);
    var h := Parse(data).header;
    AssembledPrint(h, endOfMagic, data, t, s, s[3..], rest);
  }

  lemma {:induction false} AssembledPrint(
    h: Header, e: byte, data: seq<byte>, t: seq<byte>, s: seq<byte>, f: seq<byte>, rest: seq<byte>)
    requires ValidHeader(h) && data == Be16(h.magicLength) + t && t == Magic(0, h.magicLength - 1) + s
    requires s == [e, 0, 1] + f && f == FieldsThen(h, rest)
    ensures |rest| <= |data| && data[..|data| - |rest|] == Print(h, e)
  {
    PrintThenAppends(h, e, rest);
  }

  /** An accepted buffer starts with the print of the header it was accepted as, up to the
      byte that ends the magic, and the header length is the length of that print. */
  lemma {:induction false} AcceptsOnlyPrints(data: seq<byte>, h: Header, n: nat)
    requires |data| < UINT32 && Parse(data) == Parsed(h, n)
    ensures ValidHeader(h) && h.magicLength + 1 < n <= |data|
    ensures data[..n] == Print(h, data[h.magicLength + 1])
  {
    var e := AcceptedWasPrinted(data);
    EndOfMagicAt(h, e);
  }

  // --- The driver's parser ---

  /** How a part of the parser ends: at a later index, or with an early return. */
  datatype Progress = At(index: nat) | Stop(outcome: Outcome)

  ghost predicate Follows(data: seq<byte>, read: Read, p: Progress) {
    match read
    case Bad => p == Stop(Rejected)
    case Outside => p == Stop(Undefined)
    case Got(_, rest) => p.At? && p.index <= |data| && rest == data[p.index..]
  }

  method TakeMagic(data: seq<byte>, index: nat, count: nat) returns (p: Progress)
    requires index <= |data|
    ensures Follows(data, ReadMagic(0, count, data[index..]), p)
  {
    var i := 0;
    while i < count
      invariant i <= count && index + i <= |data|
      invariant ReadMagic(i, count, data[index + i..]) == ReadMagic(0, count, data[index..])
    {
      if index + i == |data| {
        return Stop(Undefined);
      }
      var tmp := data[index + i];
      if i % 2 == 0 && tmp != EVEN_MAGIC_BYTE {
        return Stop(Rejected);
      }
      if i % 2 == 1 && tmp != ODD_MAGIC_BYTE {
        return Stop(Rejected);
      }
      i := i + 1;
    }
    p := At(index + i);
  }

  /** One tagged, length-prefixed, NUL-terminated field. */
  method TakeField(data: seq<byte>, tag: byte, start: nat) returns (p: Progress, field: seq<byte>)
    requires start <= |data|
    ensures Follows(data, ReadField(tag, data[start..]), p)
    ensures p.At? ==> field == ReadField(tag, data[start..]).value
  {
    field := [];
    ghost var s := data[start..];
    if |data| - start < 1 {
      return Stop(Undefined), field;
    }
    if data[start] != tag {
      return Stop(Rejected), field;
    }
    if |data| - start < 3 {
      return Stop(Undefined), field;
    }
    var len := Num16(data[start + 1], data[start + 2]);
    assert s[1] == data[start + 1] && s[2] == data[start + 2];
    var index := start + 3;
    var i := 0;
    while i < len
      invariant i <= len && index == start + 3 + i <= |data| && |field| == i
      invariant field == data[start + 3..index]
    {
      if index == |data| {
        return Stop(Undefined), field;
      }
      field := field + [data[index]];
      index, i := index + 1, i + 1;
    }
    if len == 0 {
      return Stop(Undefined), field;
    }
    assert field[len - 1] == s[2 + len];
    if field[len - 1] != 0 {
      return Stop(Rejected), field;
    }
    assert field == s[3..3 + len];
    p := At(index);
  }

  /** Parses the header at the start of a buffer. */
  method ParseHeader(data: seq<byte>) returns (r: Outcome)
    ensures r == Parse(data)
  {
    if |data| < 2 {
      return Undefined;
    }
    var magicLength := Num16(data[0], data[1]);
    var p := TakeMagic(data, 2, MagicCount(magicLength));
    if p.Stop? {
      return p.outcome;
    }
    ghost var s := data[p.index..];
    if |data| - p.index < 3 {
      return Undefined;
    }
    assert s[1] == data[p.index + 1] && s[2] == data[p.index + 2];
    if Num16(data[p.index + 1], data[p.index + 2]) != 1 {
      return Rejected;
    }
    r := ParseFields(data, magicLength, p.index + 3);
  }

  method TakeTail(data: seq<byte>, start: nat) returns (p: Progress, length: seq<byte>)
    requires start <= |data|
    ensures Follows(data, ReadTail(data[start..]), p)
    ensures p.At? ==> |length| == 4 && length == ReadTail(data[start..]).value
  {
    length := [];
    if |data| - start < 1 {
      return Stop(Undefined), length;
    }
    if data[start] != 'e' as byte {
      return Stop(Rejected), length;
    }
    if |data| - start < 5 {
      return Stop(Undefined), length;
    }
    length := data[start + 1..start + 5];
    assert length == data[start..][1..5];
    p := At(start + 5);
  }

  method ParseFields(data: seq<byte>, magicLength: nat, start: nat) returns (r: Outcome)
    requires start <= |data|
    ensures r == Fields(magicLength, |data|, data[start..])
  {
    var a, design := TakeField(data, 'a' as byte, start);
    if a.Stop? {
      return a.outcome;
    }
    var b, part := TakeField(data, 'b' as byte, a.index);
    if b.Stop? {
      return b.outcome;
    }
    r := ParseTimes(data, magicLength, design, part, b.index);
  }

  method ParseTimes(data: seq<byte>, magicLength: nat, design: seq<byte>, part: seq<byte>, start: nat) returns (r: Outcome)
    requires start <= |data|
    ensures r == Times(magicLength, design, part, |data|, data[start..])
  {
    var c, date := TakeField(data, 'c' as byte, start);
    if c.Stop? {
      return c.outcome;
    }
    var d, time := TakeField(data, 'd' as byte, c.index);
    if d.Stop? {
      return d.outcome;
    }
    var e, length := TakeTail(data, d.index);
    if e.Stop? {
      return e.outcome;
    }
    r := Parsed(Header(magicLength, design, part, date, time, Num32(length)), e.index);
  }
}
