/** Writing to SPI NOR flash page by page, through the ASMI parallel 2 controller. */
module SpiNorWrite {
  import opened Bits
  import opened Common
  import NorFlash

  // --- Addresses ---

  /** Page size and addressing.  A part in the default address mode has pages that
      are no power of two, each placed at a multiple of a power of two. */
  datatype Geometry = Geometry(pageSize: nat, converted: bool) {
    function Unit(): nat {
      if !converted then pageSize else if pageSize > 512 then 1024 else 512
    }

    predicate Valid() {
      0 < pageSize <= Unit()
    }
  }

  type Layout = g: Geometry | g.Valid() witness Geometry(256, false)

  function Times(a: nat, b: nat): nat {
    a * b
  }

  lemma {:induction false} QuotientIsNat(a: nat, p: nat)
    requires p > 0
    ensures a / p >= 0
  {
    var q := a / p;
    assert a == q * p + a % p;
    if q < 0 {
      ScaleMonotone(q, -1, p);
    }
  }

  /** The address on the part of byte a of the device: page number times unit, plus
      offset.  The two never share a bit, so the bitwise or is a sum. */
  function Convert(g: Layout, a: nat): nat
  {
    QuotientIsNat(a, g.pageSize);
    if g.converted then Times(a / g.pageSize, g.Unit()) + a % g.pageSize else a
  }

  /** Bytes of one page keep their distance. */
  lemma {:induction false} ConvertWithinPage(g: Layout, a: nat, j: nat)
    requires a % g.pageSize + j < g.pageSize
    ensures Convert(g, a + j) == Convert(g, a) + j
    ensures (a + j) / g.pageSize == a / g.pageSize
  {
    var q, r := a / g.pageSize, a % g.pageSize;
    assert a == q * g.pageSize + r;
    QuotientUnique(q, r + j, g.pageSize);
  }

  /** No two device bytes share a cell of the part. */
  lemma {:induction false} ConvertInjective(g: Layout, a: nat, b: nat)
    requires Convert(g, a) == Convert(g, b)
    ensures a == b
  {
    if g.converted {
      var p, u := g.pageSize, g.Unit();
      QuotientUnique(a / p, a % p, u);
      QuotientUnique(b / p, b % p, u);
      assert a == a / p * p + a % p && b == b / p * p + b % p;
    }
  }

  /** The conversion visits the pages of the part in order. */
  lemma {:induction false} ConvertLocates(g: Layout, a: nat)
    ensures Convert(g, a) / g.Unit() == a / g.pageSize && Convert(g, a) % g.Unit() == a % g.pageSize
  {
    QuotientUnique(a / g.pageSize, a % g.pageSize, g.Unit());
  }

  /** The page number is shifted by 10 bits for pages above 512 bytes and by 9 otherwise; a part
      in another address mode is addressed as it is. */
  lemma {:induction false} ConvertShifts(g: Layout, page: nat, offset: nat)
    requires offset < g.pageSize
    ensures Convert(g, page * g.pageSize + offset) ==
      if !g.converted then page * g.pageSize + offset
      else if g.pageSize > 512 then page * 0x400 + offset
      else page * 0x200 + offset
  {
    QuotientUnique(page, offset, g.pageSize);
  }

  /** For the page sizes in question the or of the source is indeed a sum. */
  lemma {:induction false} OrIsSum(page: bv32, offset: bv32)
    ensures offset < 512 ==> (page << 9) | offset == (page << 9) + offset
    ensures offset < 1024 ==> (page << 10) | offset == (page << 10) + offset
  {
  }

  // --- The part ---

  /** One cell after programming data at a part address. */
  function ProgramCell(g: Layout, addr: nat, data: seq<byte>, x: nat, v: byte): byte
  {
    var u := g.Unit();
    var slot := NorFlash.Slot(g.pageSize, addr % u, x % u);
    if x / u == addr / u && x % u < g.pageSize && 0 <= slot < |data| then BitAnd(v, data[slot]) else v
  }

  /** Data that fits in the rest of the page goes to consecutive cells. */
  lemma {:induction false} ProgramWithinPage(g: Layout, a: nat, data: seq<byte>, x: nat, v: byte)
    requires a % g.pageSize + |data| <= g.pageSize
    ensures var addr := Convert(g, a);
      ProgramCell(g, addr, data, x, v) ==
        if addr <= x < addr + |data| then BitAnd(v, data[x - addr]) else v
  {
    ConvertLocates(g, a);
    SamePage(g.Unit(), Convert(g, a), |data|, x);
  }

  /** Cells of one unit: position differences are address differences. */
  lemma {:induction false} SamePage(u: nat, addr: nat, n: nat, x: nat)
    requires u > 0 && addr % u + n <= u
    ensures x / u == addr / u ==> x - addr == x % u - addr % u
    ensures addr <= x < addr + n ==> x / u == addr / u
  {
    assert addr == addr / u * u + addr % u && x == x / u * u + x % u;
    if addr <= x < addr + n {
      QuotientUnique(addr / u, addr % u + (x - addr), u);
    }
  }

  // --- Addresses on the wire ---

  /** A number in `width` bytes, most significant first. */
  function BigEndian(n: nat, width: nat): (r: seq<byte>)
    ensures |r| == width
  {
    if width == 0 then [] else BigEndian(n / 256, width - 1) + [n % 256]
  }

  function FromBigEndian(s: seq<byte>): nat {
    if s == [] then 0 else FromBigEndian(s[..|s| - 1]) * 256 + s[|s| - 1]
  }

  function Pow256(width: nat): nat {
    if width == 0 then 1 else 256 * Pow256(width - 1)
  }

  lemma {:induction false} BigEndianRoundTrip(n: nat, width: nat)
    requires n < Pow256(width)
    ensures FromBigEndian(BigEndian(n, width)) == n
  {
    if width == 0 {
    } else {
      BigEndianRoundTrip(n / 256, width - 1);
      assert BigEndian(n, width)[..width - 1] == BigEndian(n / 256, width - 1);
    }
  }

  /** A chunk handed to the controller: device address and length. */
  datatype Chunk = Chunk(start: nat, length: nat)

  /** Nonempty chunks that follow each other from a to b, none crossing a page. */
  ghost predicate Tiles(g: Layout, chunks: seq<Chunk>, a: nat, b: nat) {
    if chunks == [] then a == b
    else
      var last := chunks[|chunks| - 1];
      && 0 < last.length && last.start % g.pageSize + last.length <= g.pageSize
      && last.start + last.length == b
      && Tiles(g, chunks[..|chunks| - 1], a, last.start)
  }

  /** n bytes from a device address on stay in one page. */
  predicate InPage(g: Layout, a: nat, n: nat) {
    a % g.pageSize + n <= g.pageSize
  }

  predicate PageStart(g: Layout, a: nat) {
    a % g.pageSize == 0
  }

  /** Offset in the page, by a mask for a power of two and by a remainder otherwise. */
  function PageOffset(g: Layout, a: nat): (r: nat)
    ensures r == a % g.pageSize < g.pageSize
  {
    if PopCount(g.pageSize) == 1 then
      SingleBitMask(g.pageSize, a);
      BitAnd(a, g.pageSize - 1)
    else a % g.pageSize
  }

  /** How much of the rest of a buffer goes to the page at an address. */
  function ChunkLength(g: Layout, a: nat, left: nat): (n: nat)
    requires 0 < left
    ensures 0 < n <= left && InPage(g, a, n) && (n < left ==> PageStart(g, a + n))
  {
    var n := Min(g.pageSize - PageOffset(g, a), left);
    if n < left then
      PageEnd(g.pageSize, a, n);
      n
    else n
  }

  lemma {:induction false} InPageLess(g: Layout, a: nat, n: nat, m: nat)
    requires InPage(g, a, n) && m <= n
    ensures InPage(g, a, m)
  {
  }

  /** The cell of the part that byte k of a buffer written at a device address goes to. */
  function CellOf(g: Layout, to: nat, k: nat): nat {
    Convert(g, to + k)
  }

  /** The cell belongs to none of the first n bytes. */
  ghost predicate Outside(g: Layout, to: nat, n: nat, x: nat) {
    forall k {:trigger CellOf(g, to, k)} :: 0 <= k < n ==> x != CellOf(g, to, k)
  }

  /** Exactly the first `done` bytes of a buffer were programmed at a device address. */
  ghost predicate Exactly(g: Layout, before: nat -> byte, after: nat -> byte, to: nat, buf: seq<byte>, done: nat)
    requires done <= |buf|
  {
    && (forall k {:trigger CellOf(g, to, k)} :: 0 <= k < done ==>
          after(CellOf(g, to, k)) == BitAnd(before(CellOf(g, to, k)), buf[k]))
    && (forall x {:trigger after(x)} :: Outside(g, to, done, x) ==> after(x) == before(x))
  }

  /** The memory after some bytes of a buffer were programmed at a device address:
      the first `done` are, later ones may be, and no other cell has changed. */
  ghost predicate Written(g: Layout, before: nat -> byte, after: nat -> byte, to: nat, buf: seq<byte>, done: nat)
    requires done <= |buf|
  {
    && (forall k {:trigger CellOf(g, to, k)} :: 0 <= k < done ==>
          after(CellOf(g, to, k)) == BitAnd(before(CellOf(g, to, k)), buf[k]))
    && (forall k {:trigger CellOf(g, to, k)} :: done <= k < |buf| ==>
          || after(CellOf(g, to, k)) == before(CellOf(g, to, k))
          || after(CellOf(g, to, k)) == BitAnd(before(CellOf(g, to, k)), buf[k]))
    && (forall x {:trigger after(x)} :: Outside(g, to, |buf|, x) ==> after(x) == before(x))
  }

  // --- Chunks longer than the FIFO ---

  /** Byte i of the range and the byte `room` after it lie in one page. */
  ghost predicate LongAt(g: Layout, to: nat, n: nat, room: nat, i: nat) {
    i + room < n && (to + i) / g.pageSize == (to + i + room) / g.pageSize
  }

  /** Some page gets more than `room` bytes of the range. */
  ghost predicate LongChunk(g: Layout, to: nat, n: nat, room: nat) {
    exists i: nat :: LongAt(g, to, n, room, i)
  }

  lemma {:induction false} AcrossPage(p: nat, a: nat, m: nat, b: nat)
    requires p > 0 && a < m <= b && m % p == 0
    ensures a / p != b / p
  {
    var q := m / p;
    assert m == q * p && a == a / p * p + a % p && b == b / p * p + b % p;
    if a / p >= q {
      ScaleMonotone(q, a / p, p);
    } else if b / p <= q - 1 {
      ScaleMonotone(b / p, q - 1, p);
    }
  }

  lemma {:induction false} PageSpan(p: nat, a: nat, b: nat)
    requires p > 0 && a / p == b / p
    ensures b - a < p
  {
    assert a == a / p * p + a % p && b == b / p * p + b % p;
  }

  lemma {:induction false} PageEnd(p: nat, a: nat, n: nat)
    requires p > 0 && a % p + n == p
    ensures (a + n) % p == 0
  {
    assert a == a / p * p + a % p;
    QuotientUnique(a / p + 1, 0, p);
  }

  /** Pages no longer than the FIFO has room for always fit; of a longer page, no write that
      takes in all of it can succeed. */
  lemma {:induction false} WholePages(g: Layout, to: nat, n: nat, room: nat)
    requires 0 < room
    ensures g.pageSize <= room ==> !LongChunk(g, to, n, room)
    ensures g.pageSize > room && to % g.pageSize == 0 && g.pageSize <= n ==> LongChunk(g, to, n, room)
  {
    var p := g.pageSize;
    if p <= room {
      forall i: nat ensures !LongAt(g, to, n, room, i) {
        if LongAt(g, to, n, room, i) {
          PageSpan(p, to + i, to + i + room);
        }
      }
    }
    if p > room && to % p == 0 && p <= n {
      ConvertWithinPage(g, to, room);
      assert LongAt(g, to, n, room, 0);
    }
  }

  /** One more chunk, up to the end of its page or of the range: too long for the FIFO, or
      still no page with too many bytes. */
  lemma {:induction false} ChunkRoom(g: Layout, to: nat, i: nat, n: nat, len: nat, room: nat)
    requires !LongChunk(g, to, i, room) && i + n <= len && InPage(g, to + i, n)
    requires i == 0 || PageStart(g, to + i)
    ensures n > room ==> LongChunk(g, to, len, room)
    ensures n <= room ==> !LongChunk(g, to, i + n, room)
  {
    if n > room {
      ConvertWithinPage(g, to + i, room);
      assert LongAt(g, to, len, room, i);
    } else {
      var end := i + n;
      forall j: nat ensures !LongAt(g, to, end, room, j) {
        if j + room < i {
          assert !LongAt(g, to, i, room, j);
        } else if j + room < end {
          AcrossPage(g.pageSize, to + j, to + i, to + j + room);
        }
      }
    }
  }

  /** Within a chunk the converted addresses are consecutive. */
  lemma {:induction false} ChunkCell(g: Layout, to: nat, i: nat, n: nat, k: nat)
    requires (to + i) % g.pageSize + n <= g.pageSize
    ensures i <= k < i + n ==> CellOf(g, to, k) == CellOf(g, to, i) + (k - i)
    ensures !(i <= k < i + n) ==> !(CellOf(g, to, i) <= CellOf(g, to, k) < CellOf(g, to, i) + n)
  {
    var a, c := CellOf(g, to, i), CellOf(g, to, k);
    if i <= k < i + n {
      ConvertWithinPage(g, to + i, k - i);
    } else if a <= c < a + n {
      ConvertWithinPage(g, to + i, c - a);
      ConvertInjective(g, to + k, to + i + (c - a));
    }
  }

  /** Programming the next chunk extends the prefix. */
  lemma {:induction false} ChunkExact(
      g: Layout, before: nat -> byte, was: nat -> byte, after: nat -> byte, to: nat, buf: seq<byte>, i: nat, n: nat)
    requires i + n <= |buf| && (to + i) % g.pageSize + n <= g.pageSize
    requires Exactly(g, before, was, to, buf, i)
    requires forall x {:trigger after(x)} :: after(x) == ProgramCell(g, Convert(g, to + i), buf[i..i + n], x, was(x))
    ensures Exactly(g, before, after, to, buf, i + n)
  {
    var a, data := CellOf(g, to, i), buf[i..i + n];
    forall k {:trigger CellOf(g, to, k)} | 0 <= k < i + n
      ensures after(CellOf(g, to, k)) == BitAnd(before(CellOf(g, to, k)), buf[k])
    {
      var c := CellOf(g, to, k);
      ChunkCell(g, to, i, n, k);
      ProgramWithinPage(g, to + i, data, c, was(c));
      if k >= i {
        NotBefore(g, to, i, k);
        assert data[c - a] == buf[k];
      }
    }
    forall x {:trigger after(x)} | Outside(g, to, i + n, x)
      ensures after(x) == before(x)
    {
      ProgramWithinPage(g, to + i, data, x, was(x));
      OutsideChunk(g, to, i, n, x);
    }
  }

  lemma {:induction false} NotBefore(g: Layout, to: nat, i: nat, k: nat)
    requires i <= k
    ensures Outside(g, to, i, CellOf(g, to, k))
  {
    forall j {:trigger CellOf(g, to, j)} | 0 <= j < i
      ensures CellOf(g, to, k) != CellOf(g, to, j)
    {
      if CellOf(g, to, k) == CellOf(g, to, j) {
        ConvertInjective(g, to + k, to + j);
      }
    }
  }

  lemma {:induction false} OutsideChunk(g: Layout, to: nat, i: nat, n: nat, x: nat)
    requires Outside(g, to, i + n, x) && (to + i) % g.pageSize + n <= g.pageSize
    ensures Outside(g, to, i, x) && !(CellOf(g, to, i) <= x < CellOf(g, to, i) + n)
  {
    var a := CellOf(g, to, i);
    if a <= x < a + n {
      ChunkCell(g, to, i, n, i + (x - a));
    }
  }

  lemma {:induction false} ExactIsWritten(
      g: Layout, before: nat -> byte, after: nat -> byte, to: nat, buf: seq<byte>, exact: nat, done: nat)
    requires done <= exact <= |buf| && Exactly(g, before, after, to, buf, exact)
    ensures Written(g, before, after, to, buf, done)
  {
    forall k {:trigger CellOf(g, to, k)} | exact <= k < |buf|
      ensures after(CellOf(g, to, k)) == before(CellOf(g, to, k))
    {
      NotBefore(g, to, exact, k);
    }
    forall x {:trigger after(x)} | Outside(g, to, |buf|, x)
      ensures after(x) == before(x)
    {
      assert Outside(g, to, exact, x);
    }
  }

  /** offset >> 8 * i. */
  function ShiftRight(offset: nat, i: nat): nat {
    if i == 0 then offset else ShiftRight(offset / 256, i - 1)
  }

  lemma {:induction false} BigEndianDigit(n: nat, width: nat, i: nat)
    requires i < width
    ensures BigEndian(n, width)[width - 1 - i] == ShiftRight(n, i) % 256
  {
    if i == 0 {
    } else {
      BigEndianDigit(n / 256, width - 1, i - 1);
    }
  }
}
