/** The bitstream guard byte for byte. */
module GuardBytes {
  import opened NorFlash
  import opened FlashSchedule

  /** The guard as the FPGA's configuration logic reads it: bus width detection, the sync
      word, a watchdog setting and its enable, padded with no-operations. */
  const GUARD_BYTES: seq<(byte, byte, byte, byte)> :=
    [(0xFF, 0xFF, 0xFF, 0xFF), (0x00, 0x00, 0x00, 0xBB), (0x11, 0x22, 0x00, 0x44), (0xFF, 0xFF, 0xFF, 0xFF),
     (0xFF, 0xFF, 0xFF, 0xFF), (0xAA, 0x99, 0x55, 0x66), (0x20, 0x00, 0x00, 0x00), (0x20, 0x00, 0x00, 0x00),
     (0x30, 0x02, 0x20, 0x01), (0x40, 0x00, 0x00, 0x02), (0x20, 0x00, 0x00, 0x00), (0x20, 0x00, 0x00, 0x00)]

  /** The number four bytes stand for, least significant first. */
  function Word(b0: byte, b1: byte, b2: byte, b3: byte): nat {
    b0 + 0x100 * b1 + 0x1_0000 * b2 + 0x100_0000 * b3
  }

  /** The bytes of a word are the only ones that stand for it. */
  lemma {:induction false} WordBytes(w: nat)
    requires w < 0x1_0000_0000
    ensures Word(WordByte(w, 0), WordByte(w, 1), WordByte(w, 2), WordByte(w, 3)) == w
  {
    var a := w / 0x100;
    var b := a / 0x100;
    var c := b / 0x100;
    TwoQuotients(w);
    TwoQuotients(a);
    assert w / 0x100_0000 == c && c % 0x100 == c;
    assert w == 0x100 * a + w % 0x100 && a == 0x100 * b + a % 0x100 && b == 0x100 * c + b % 0x100;
  }

  lemma {:induction false} TwoQuotients(w: nat)
    ensures w / 0x1_0000 == w / 0x100 / 0x100 && w / 0x100_0000 == w / 0x100 / 0x1_0000
  {
  }

  lemma {:induction false} BytesOfWord(b0: byte, b1: byte, b2: byte, b3: byte)
    ensures var w := Word(b0, b1, b2, b3);
      WordByte(w, 0) == b0 && WordByte(w, 1) == b1 && WordByte(w, 2) == b2 && WordByte(w, 3) == b3
  {
    var w := Word(b0, b1, b2, b3);
    Split(b0, b1 + 0x100 * b2 + 0x1_0000 * b3, 0x100);
    Split(b0 + 0x100 * b1, b2 + 0x100 * b3, 0x1_0000);
    Split(b0 + 0x100 * b1 + 0x1_0000 * b2, b3, 0x100_0000);
    Split(b1, b2 + 0x100 * b3, 0x100);
    Split(b2, b3, 0x100);
  }

  lemma {:induction false} Split(low: nat, high: nat, unit: nat)
    requires low < unit && (unit == 0x100 || unit == 0x1_0000 || unit == 0x100_0000)
    ensures (low + unit * high) % unit == low && (low + unit * high) / unit == high
  {
  }

  /** Little-endian: each word is what its four bytes stand for. */
  lemma {:induction false} LittleEndianMeaning(words: seq<nat>, k: nat)
    requires k < |words| && words[k] < 0x1_0000_0000
    ensures var r := LittleEndian(words); Word(r[4 * k], r[4 * k + 1], r[4 * k + 2], r[4 * k + 3]) == words[k]
  {
    WordBytes(words[k]);
    Quarters(k);
  }

  lemma {:induction false} Quarters(k: nat)
    ensures 4 * k / 4 == k && (4 * k + 1) / 4 == k && (4 * k + 2) / 4 == k && (4 * k + 3) / 4 == k
    ensures 4 * k % 4 == 0 && (4 * k + 1) % 4 == 1 && (4 * k + 2) % 4 == 2 && (4 * k + 3) % 4 == 3
  {
  }

  /** Four bytes in a row. */
  ghost predicate Quad(s: seq<byte>, at: nat, b: (byte, byte, byte, byte)) {
    at + 4 <= |s| && s[at] == b.0 && s[at + 1] == b.1 && s[at + 2] == b.2 && s[at + 3] == b.3
  }

  lemma {:induction false} QuadOfWord(words: seq<nat>, k: nat, b: (byte, byte, byte, byte), rest: seq<byte>)
    requires k < |words| && words[k] == Word(b.0, b.1, b.2, b.3)
    ensures Quad(LittleEndian(words) + rest, 4 * k, b)
  {
    Quarters(k);
    BytesOfWord(b.0, b.1, b.2, b.3);
    var r := LittleEndian(words);
    assert r[4 * k] == b.0 && r[4 * k + 1] == b.1 && r[4 * k + 2] == b.2 && r[4 * k + 3] == b.3;
  }

  lemma {:induction false} GuardQuad(k: nat)
    requires k < 12
    ensures Quad(GuardPage(), 4 * k, GUARD_BYTES[k])
  {
    QuadOfWord(GUARD_WORDS, k, GUARD_BYTES[k], Blank(CHUNK - 48));
  }

  /** The sequence lies 128 bytes into the subsector, and nothing else does. */
  ghost predicate HoldsGuard(mem: seq<byte>, start: nat) {
    && start + GUARD_SIZE <= |mem|
    && (forall k :: 0 <= k < 12 ==> Quad(mem, start + 128 + 4 * k, GUARD_BYTES[k]))
    && (forall x :: start <= x < start + 128 || start + 176 <= x < start + GUARD_SIZE ==> mem[x] == 0xFF)
  }

  /** What a guarded part holds, byte for byte. */
  lemma {:induction false} GuardedBytes(mem: seq<byte>, start: nat)
    ensures Guarded(mem, start, GuardPage()) <==> HoldsGuard(mem, start)
  {
    var page := GuardPage();
    forall k | 0 <= k < 12 ensures Quad(page, 4 * k, GUARD_BYTES[k]) {
      GuardQuad(k);
    }
    if Guarded(mem, start, page) {
      forall k | 0 <= k < 12 ensures Quad(mem, start + 128 + 4 * k, GUARD_BYTES[k]) {
        QuadCells(mem, start, page, k);
      }
    }
    if HoldsGuard(mem, start) {
      forall x | start <= x < start + GUARD_SIZE ensures mem[x] == GuardCell(page, x - start) {
        if start + 128 <= x < start + 176 {
          CellInQuad(mem, start, page, x);
        }
      }
    }
  }

  lemma {:induction false} QuadCells(mem: seq<byte>, start: nat, page: seq<byte>, k: nat)
    requires |page| == CHUNK && k < 12 && Guarded(mem, start, page)
    ensures Quad(mem, start + 128 + 4 * k, (page[4 * k], page[4 * k + 1], page[4 * k + 2], page[4 * k + 3]))
  {
    var x := start + 128 + 4 * k;
    assert mem[x] == GuardCell(page, 128 + 4 * k) && mem[x + 1] == GuardCell(page, 129 + 4 * k);
    assert mem[x + 2] == GuardCell(page, 130 + 4 * k) && mem[x + 3] == GuardCell(page, 131 + 4 * k);
  }

  lemma {:induction false} CellInQuad(mem: seq<byte>, start: nat, page: seq<byte>, x: nat)
    requires start + 128 <= x < start + 176 && |page| == CHUNK
    requires forall k :: 0 <= k < 12 ==> Quad(mem, start + 128 + 4 * k, GUARD_BYTES[k])
    requires forall k :: 0 <= k < 12 ==> Quad(page, 4 * k, GUARD_BYTES[k])
    ensures x < |mem| && mem[x] == page[x - start - 128]
  {
    var k := (x - start - 128) / 4;
    assert Quad(mem, start + 128 + 4 * k, GUARD_BYTES[k]) && Quad(page, 4 * k, GUARD_BYTES[k]);
    var i := x - start - 128 - 4 * k;
    assert i == 0 || i == 1 || i == 2 || i == 3;
  }
}
