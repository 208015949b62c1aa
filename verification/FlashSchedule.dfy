/** The array operations of a guarded upgrade, as pure sequences, and what they do
    to the flash: the guard survives every interruption, and a complete run leaves
    the image behind. */
module FlashSchedule {
  import opened Bits
  import opened NorFlash

  const CHUNK := 128
  const GUARD_SIZE := 0x1000

  // --- One cell at a time ---

  function CellAfter(ops: seq<FlashOp>, x: nat, v: byte): byte {
    if ops == [] then v else Cell(ops[|ops| - 1], x, CellAfter(ops[..|ops| - 1], x, v))
  }

  lemma {:induction false} ApplyAllAt(mem: seq<byte>, ops: seq<FlashOp>, x: nat)
    requires x < |mem|
    ensures ApplyAll(mem, ops)[x] == CellAfter(ops, x, mem[x])
  {
    if ops == [] {
    } else {
      ApplyAllAt(mem, ops[..|ops| - 1], x);
    }
  }

  lemma {:induction false} CellAfterConcat(a: seq<FlashOp>, b: seq<FlashOp>, x: nat, v: byte)
    ensures CellAfter(a + b, x, v) == CellAfter(b, x, CellAfter(a, x, v))
  {
    if b == [] {
      assert a + b == a;
    } else {
      assert (a + b)[..|a + b| - 1] == a + b[..|b| - 1];
      CellAfterConcat(a, b[..|b| - 1], x, v);
    }
  }

  ghost predicate Avoids(ops: seq<FlashOp>, x: nat) {
    forall i :: 0 <= i < |ops| ==> !Touches(ops[i], x)
  }

  lemma {:induction false} AvoidedCell(ops: seq<FlashOp>, x: nat, v: byte)
    requires Avoids(ops, x)
    ensures CellAfter(ops, x, v) == v
  {
    if ops == [] {
    } else {
      AvoidedCell(ops[..|ops| - 1], x, v);
    }
  }

  lemma {:induction false} ErasesKeepErased(ops: seq<FlashOp>, x: nat)
    requires forall i :: 0 <= i < |ops| ==> ops[i].Erase?
    ensures CellAfter(ops, x, ERASED) == ERASED
  {
    if ops == [] {
    } else {
      ErasesKeepErased(ops[..|ops| - 1], x);
    }
  }

  // --- Erasing a range ---

  /** One erase per 4 KB step from start, as long as the step begins before end. */
  function EraseOps(start: nat, end: nat): seq<FlashOp>
    decreases end - start
  {
    if start < end then [Erase(start)] + EraseOps(start + SUBSECTOR_SIZE, end) else []
  }

  lemma {:induction false} EraseOpsAt(start: nat, end: nat, i: nat)
    requires i < |EraseOps(start, end)|
    ensures EraseOps(start, end)[i] == Erase(start + i * SUBSECTOR_SIZE)
    ensures start + i * SUBSECTOR_SIZE < end
    decreases i
  {
    if i == 0 {
    } else {
      EraseOpsAt(start + SUBSECTOR_SIZE, end, i - 1);
    }
  }

  lemma {:induction false} EraseOpsCount(start: nat, end: nat)
    ensures |EraseOps(start, end)| == if start < end then (end - 1 - start) / SUBSECTOR_SIZE + 1 else 0
    decreases end - start
  {
    if start >= end {
    } else {
      EraseOpsCount(start + SUBSECTOR_SIZE, end);
    }
  }

  /** Stepping by 4 KB from an unaligned start can miss the last subsector: the
      whole range is erased exactly when its last byte lies at least as deep in
      its subsector as its first byte does.  Aligned starts always qualify. */
  lemma {:induction false} ErasesCoverRangeIff(start: nat, end: nat)
    requires start < end
    ensures (forall x :: start <= x < end ==> !Avoids(EraseOps(start, end), x)) <==>
            (end - 1) % SUBSECTOR_SIZE >= start % SUBSECTOR_SIZE
  {
    var ops, last := EraseOps(start, end), end - 1;
    EraseOpsCount(start, end);
    var n := |ops|;
    if last % SUBSECTOR_SIZE >= start % SUBSECTOR_SIZE {
      forall x | start <= x < end
        ensures !Avoids(ops, x)
      {
        var i := x / SUBSECTOR_SIZE - start / SUBSECTOR_SIZE;
        EraseOpsAt(start, end, i);
        assert Touches(ops[i], x);
      }
    } else {
      forall i | 0 <= i < n
        ensures !Touches(ops[i], last)
      {
        EraseOpsAt(start, end, i);
      }
      assert Avoids(ops, last);
    }
  }

  /** It does happen: from 0x10F00 to 0x11100 the loop takes one step, and the subsector that
      holds the last 0x100 bytes is left alone. */
  lemma {:induction false} ErasesCanMiss()
    ensures EraseOps(0x1_0F00, 0x1_1100) == [Erase(0x1_0F00)]
    ensures forall x :: 0x1_1000 <= x < 0x1_1100 ==> Avoids(EraseOps(0x1_0F00, 0x1_1100), x)
  {
    assert EraseOps(0x1_1F00, 0x1_1100) == [];
  }

  /** From an aligned start the erases hit exactly the range rounded up to 4 KB. */
  lemma {:induction false} AlignedErasesTouch(start: nat, end: nat, x: nat)
    requires start % SUBSECTOR_SIZE == 0
    ensures !Avoids(EraseOps(start, end), x) <==> start < end && start <= x < SubsectorEnd(end)
  {
    var ops := EraseOps(start, end);
    EraseOpsCount(start, end);
    if start < end && start <= x < SubsectorEnd(end) {
      var i := (x - start) / SUBSECTOR_SIZE;
      EraseOpsAt(start, end, i);
      assert Touches(ops[i], x);
    } else {
      forall i | 0 <= i < |ops|
        ensures !Touches(ops[i], x)
      {
        EraseOpsAt(start, end, i);
      }
    }
  }

  lemma {:induction false} AlignedErasesErase(start: nat, end: nat, x: nat, v: byte)
    requires start % SUBSECTOR_SIZE == 0 && start <= x < end
    ensures CellAfter(EraseOps(start, end), x, v) == ERASED
    decreases end - start
  {
    var rest := EraseOps(start + SUBSECTOR_SIZE, end);
    CellAfterConcat([Erase(start)], rest, x, v);
    assert CellAfter([Erase(start)], x, v) == Cell(Erase(start), x, CellAfter([], x, v));
    if x < start + SUBSECTOR_SIZE {
      EraseOpsAllErase(start + SUBSECTOR_SIZE, end);
      ErasesKeepErased(rest, x);
    } else {
      AlignedErasesErase(start + SUBSECTOR_SIZE, end, x, CellAfter([Erase(start)], x, v));
    }
  }

  lemma {:induction false} EraseOpsAllErase(start: nat, end: nat)
    ensures forall i :: 0 <= i < |EraseOps(start, end)| ==> EraseOps(start, end)[i].Erase?
  {
    forall i | 0 <= i < |EraseOps(start, end)|
      ensures EraseOps(start, end)[i].Erase?
    {
      EraseOpsAt(start, end, i);
    }
  }

  // --- Programming pages ---

  /** One program per page, each 128 bytes further on. */
  function PageOps(start: nat, pages: seq<seq<byte>>): (r: seq<FlashOp>)
    ensures |r| == |pages|
    ensures forall i :: 0 <= i < |r| ==> r[i] == Program(start + i * CHUNK, pages[i])
  {
    seq(|pages|, i requires 0 <= i < |pages| => Program(start + i * CHUNK, pages[i]))
  }

  ghost predicate FullPages(pages: seq<seq<byte>>) {
    forall i :: 0 <= i < |pages| ==> |pages[i]| == CHUNK
  }

  /** A 128-byte program at a multiple of 128 stays inside its page. */
  lemma {:induction false} ChunkTouches(a: nat, data: seq<byte>, x: nat)
    requires a % CHUNK == 0 && |data| == CHUNK
    ensures Touches(Program(a, data), x) <==> a <= x < a + CHUNK
  {
    assert a / PAGE_SIZE == (a + CHUNK - 1) / PAGE_SIZE;
  }

  lemma {:induction false} ChunkProgram(a: nat, data: seq<byte>, x: nat, v: byte)
    requires a % CHUNK == 0 && |data| == CHUNK
    ensures Cell(Program(a, data), x, v) == if a <= x < a + CHUNK then BitAnd(v, data[x - a]) else v
  {
    ChunkTouches(a, data, x);
  }

  lemma {:induction false} AlignedErase(start: nat, x: nat, v: byte)
    requires start % SUBSECTOR_SIZE == 0
    ensures Cell(Erase(start), x, v) == if start <= x < start + SUBSECTOR_SIZE then ERASED else v
  {
  }

  /** The cell after all pages went in: only its own page has reached it. */
  lemma {:induction false} CellAfterPages(start: nat, pages: seq<seq<byte>>, i: nat, a: nat, x: nat, v: byte)
    requires start % CHUNK == 0 && FullPages(pages) && i < |pages|
    requires a == start + i * CHUNK && a <= x < a + CHUNK
    ensures CellAfter(PageOps(start, pages), x, v) == BitAnd(v, pages[i][x - a])
  {
    var op, u := Program(a, pages[i]), BitAnd(v, pages[i][x - a]);
    var before, after := PageOps(start, pages[..i]), PageOps(a + CHUNK, pages[i + 1..]);
    ChunkOffset(start, i);
    ChunkNext(a);
    PagesKeep(start, pages[..i], x, v);
    ChunkProgram(a, pages[i], x, v);
    PagesKeep(a + CHUNK, pages[i + 1..], x, u);
    SplitPages(start, pages, i, a);
    OnlyOneActs(PageOps(start, pages), before, op, after, x, v, u);
  }

  /** If the operations before and after leave the cell alone, one operation decides it. */
  lemma {:induction false} OnlyOneActs(
      all: seq<FlashOp>, before: seq<FlashOp>, op: FlashOp, after: seq<FlashOp>, x: nat, v: byte, u: byte)
    requires all == before + ([op] + after)
    requires CellAfter(before, x, v) == v && Cell(op, x, v) == u && CellAfter(after, x, u) == u
    ensures CellAfter(all, x, v) == u
  {
    CellAfterConcat(before, [op] + after, x, v);
    CellAfterConcat([op], after, x, v);
    OneOp(op, x, v);
  }

  lemma {:induction false} CellAfterBoth(a: seq<FlashOp>, b: seq<FlashOp>, x: nat, v: byte, u: byte, w: byte)
    requires CellAfter(a, x, v) == u && CellAfter(b, x, u) == w
    ensures CellAfter(a + b, x, v) == w
  {
    CellAfterConcat(a, b, x, v);
  }

  lemma {:induction false} PagesKeep(start: nat, pages: seq<seq<byte>>, x: nat, v: byte)
    requires start % CHUNK == 0 && FullPages(pages)
    requires x < start || start + |pages| * CHUNK <= x
    ensures CellAfter(PageOps(start, pages), x, v) == v
  {
    PagesTouch(start, pages, x);
    AvoidedCell(PageOps(start, pages), x, v);
  }

  lemma {:induction false} ChunkOffset(start: nat, i: nat)
    requires start % CHUNK == 0
    ensures (start + i * CHUNK) % CHUNK == 0
  {
    assert start == start / CHUNK * CHUNK;
    QuotientUnique(start / CHUNK + i, 0, CHUNK);
  }

  lemma {:induction false} ChunkNext(a: nat)
    requires a % CHUNK == 0
    ensures (a + CHUNK) % CHUNK == 0
  {
  }

  lemma {:induction false} SplitPages(start: nat, pages: seq<seq<byte>>, i: nat, a: nat)
    requires i < |pages| && a == start + i * CHUNK
    ensures PageOps(start, pages) ==
      PageOps(start, pages[..i]) + ([Program(a, pages[i])] + PageOps(a + CHUNK, pages[i + 1..]))
  {
  }

  lemma {:induction false} PagesTouch(start: nat, pages: seq<seq<byte>>, x: nat)
    requires start % CHUNK == 0 && FullPages(pages)
    requires x < start || start + |pages| * CHUNK <= x
    ensures Avoids(PageOps(start, pages), x)
  {
    forall i | 0 <= i < |pages|
      ensures !Touches(PageOps(start, pages)[i], x)
    {
      ChunkOffset(start, i);
      ChunkTouches(start + i * CHUNK, pages[i], x);
    }
  }

  // --- The whole body of an upgrade ---

  /** A record as it is written: the range to erase and the pages to program. */
  datatype Block = Block(start: nat, end: nat, pages: seq<seq<byte>>)

  function AllErases(bs: seq<Block>): seq<FlashOp> {
    if bs == [] then [] else EraseOps(bs[0].start, bs[0].end) + AllErases(bs[1..])
  }

  function AllPages(bs: seq<Block>): seq<FlashOp> {
    if bs == [] then [] else PageOps(bs[0].start, bs[0].pages) + AllPages(bs[1..])
  }

  /** Every subsector is erased before the first page goes in. */
  function Body(bs: seq<Block>): seq<FlashOp> {
    AllErases(bs) + AllPages(bs)
  }

  /** First subsector boundary at or after n. */
  function SubsectorEnd(n: nat): (r: nat)
    ensures n <= r < n + SUBSECTOR_SIZE && r % SUBSECTOR_SIZE == 0
  {
    (n + SUBSECTOR_SIZE - 1) / SUBSECTOR_SIZE * SUBSECTOR_SIZE
  }

  /** 4 KB aligned, with its pages inside the erased range. */
  ghost predicate Tidy(b: Block) {
    && b.start % SUBSECTOR_SIZE == 0
    && FullPages(b.pages)
    && b.start + |b.pages| * CHUNK <= SubsectorEnd(if b.start < b.end then b.end else b.start)
  }

  ghost predicate AllTidy(bs: seq<Block>) {
    forall i :: 0 <= i < |bs| ==> Tidy(bs[i])
  }

  /** The block's own operations leave x alone exactly when x is outside its rounded range. */
  lemma {:induction false} BlockAvoids(b: Block, x: nat)
    requires Tidy(b)
    ensures Avoids(EraseOps(b.start, b.end), x) <==> !(b.start < b.end && b.start <= x < SubsectorEnd(b.end))
    ensures Avoids(EraseOps(b.start, b.end), x) ==> Avoids(PageOps(b.start, b.pages), x)
  {
    AlignedErasesTouch(b.start, b.end, x);
    ChunkAligned(b.start);
    if Avoids(EraseOps(b.start, b.end), x) {
      PagesTouch(b.start, b.pages, x);
    }
  }

  lemma {:induction false} AvoidsConcat(a: seq<FlashOp>, b: seq<FlashOp>, x: nat)
    ensures Avoids(a + b, x) <==> Avoids(a, x) && Avoids(b, x)
  {
    if Avoids(a + b, x) {
      forall i | 0 <= i < |a| ensures !Touches(a[i], x) { assert a[i] == (a + b)[i]; }
      forall i | 0 <= i < |b| ensures !Touches(b[i], x) { assert b[i] == (a + b)[|a| + i]; }
    }
  }

  lemma {:induction false} BodyAvoidsIff(bs: seq<Block>, x: nat)
    requires AllTidy(bs)
    ensures Avoids(AllErases(bs), x) <==> forall i :: 0 <= i < |bs| ==> Avoids(EraseOps(bs[i].start, bs[i].end), x)
    ensures Avoids(AllErases(bs), x) ==> Avoids(AllPages(bs), x)
  {
    if bs == [] {
    } else {
      var rest := bs[1..];
      BodyAvoidsIff(rest, x);
      AvoidsConcat(EraseOps(bs[0].start, bs[0].end), AllErases(rest), x);
      AvoidsConcat(PageOps(bs[0].start, bs[0].pages), AllPages(rest), x);
      BlockAvoids(bs[0], x);
      assert forall i :: 0 <= i < |rest| ==> rest[i] == bs[i + 1];
      if forall i :: 0 <= i < |rest| ==> Avoids(EraseOps(rest[i].start, rest[i].end), x) {
        forall i | 1 <= i < |bs| ensures Avoids(EraseOps(bs[i].start, bs[i].end), x) { assert bs[i] == rest[i - 1]; }
      }
    }
  }

  // --- The bitstream guard ---

  const GUARD_WORDS: seq<nat> :=
    [0xFFFF_FFFF, 0xBB00_0000, 0x4400_2211, 0xFFFF_FFFF, 0xFFFF_FFFF, 0x6655_99AA,
     0x0000_0020, 0x0000_0020, 0x0120_0230, 0x0200_0040, 0x0000_0020, 0x0000_0020]

  /** Byte i of a word, counted from the least significant one. */
  function WordByte(w: nat, i: nat): byte {
    if i == 0 then w % 0x100
    else if i == 1 then w / 0x100 % 0x100
    else if i == 2 then w / 0x1_0000 % 0x100
    else w / 0x100_0000 % 0x100
  }

  /** The words in memory order, least significant byte first. */
  function LittleEndian(words: seq<nat>): (r: seq<byte>)
    ensures |r| == 4 * |words|
  {
    seq(4 * |words|, i requires 0 <= i < 4 * |words| => WordByte(words[i / 4], i % 4))
  }

  /** The fallback instruction sequence, filled up to one page. */
  function GuardPage(): (r: seq<byte>)
    ensures |r| == CHUNK
  {
    LittleEndian(GUARD_WORDS) + Blank(CHUNK - 4 * |GUARD_WORDS|)
  }

  function Blank(n: nat): (r: seq<byte>)
    ensures |r| == n && forall i :: 0 <= i < n ==> r[i] == ERASED
  {
    seq(n, _ => ERASED)
  }

  /** A guard page is put 128 bytes into its freshly erased subsector. */
  function GuardOps(start: nat, page: seq<byte>): seq<FlashOp> {
    [Erase(start), Program(start + CHUNK, page)]
  }

  /** The guard subsector while it protects: blank but for the sequence 128 bytes in. */
  function GuardCell(page: seq<byte>, offset: nat): byte
    requires |page| == CHUNK
  {
    if CHUNK <= offset < 2 * CHUNK then page[offset - CHUNK] else ERASED
  }

  ghost predicate Guarded(mem: seq<byte>, start: nat, page: seq<byte>)
    requires |page| == CHUNK
  {
    && start + GUARD_SIZE <= |mem|
    && forall x :: start <= x < start + GUARD_SIZE ==> mem[x] == GuardCell(page, x - start)
  }

  lemma {:induction false} GuardWritten(start: nat, page: seq<byte>, x: nat, v: byte)
    requires start % SUBSECTOR_SIZE == 0 && |page| == CHUNK
    ensures start <= x < start + GUARD_SIZE ==> CellAfter(GuardOps(start, page), x, v) == GuardCell(page, x - start)
    ensures !(start <= x < start + GUARD_SIZE) ==> CellAfter(GuardOps(start, page), x, v) == v
  {
    var inside := start <= x < start + GUARD_SIZE;
    var u, w := if inside then ERASED else v, if inside then GuardCell(page, x - start) else v;
    AlignedErase(start, x, v);
    GuardPageCell(start, page, x, v, u, w);
    TwoOps(Erase(start), Program(start + CHUNK, page), x, v, u, w);
  }

  lemma {:induction false} GuardPageCell(start: nat, page: seq<byte>, x: nat, v: byte, u: byte, w: byte)
    requires start % SUBSECTOR_SIZE == 0 && |page| == CHUNK
    requires u == if start <= x < start + GUARD_SIZE then ERASED else v
    requires w == if start <= x < start + GUARD_SIZE then GuardCell(page, x - start) else v
    ensures Cell(Program(start + CHUNK, page), x, u) == w
  {
    ChunkAligned(start);
    ChunkNext(start);
    ChunkProgram(start + CHUNK, page, x, u);
    if start + CHUNK <= x < start + 2 * CHUNK {
      ErasedIsNeutral(page[x - start - CHUNK]);
    }
  }

  lemma {:induction false} TwoOps(a: FlashOp, b: FlashOp, x: nat, v: byte, u: byte, w: byte)
    requires Cell(a, x, v) == u && Cell(b, x, u) == w
    ensures CellAfter([a, b], x, v) == w
  {
    assert [a, b] == [a] + [b];
    OneOp(a, x, v);
    OneOp(b, x, u);
    CellAfterBoth([a], [b], x, v, u, w);
  }

  lemma {:induction false} OneOp(op: FlashOp, x: nat, v: byte)
    ensures CellAfter([op], x, v) == Cell(op, x, v)
  {
    assert [op][..0] == [];
  }

  ghost predicate AvoidsGuard(ops: seq<FlashOp>, start: nat) {
    forall x: nat :: start <= x < start + GUARD_SIZE ==> Avoids(ops, x)
  }

  /** Writing aligned records leaves the guard alone exactly when every nonempty
      record, after the shift, begins above the guard subsector or ends below it. */
  lemma {:induction false} BodyAvoidsGuardIff(bs: seq<Block>, start: nat)
    requires AllTidy(bs) && start % SUBSECTOR_SIZE == 0
    ensures AvoidsGuard(Body(bs), start) <==> forall i :: 0 <= i < |bs| ==> ClearOf(bs[i], start)
  {
    if i :| 0 <= i < |bs| && !ClearOf(bs[i], start) {
      UnclearBodyTouches(bs, start, i);
      assert !Avoids(Body(bs), start);
    } else {
      forall x: nat | start <= x < start + GUARD_SIZE
        ensures Avoids(Body(bs), x)
      {
        ClearBodyAvoids(bs, start, x);
      }
    }
  }

  ghost predicate ClearOf(b: Block, start: nat) {
    b.start < b.end ==> start + GUARD_SIZE <= b.start || b.end <= start
  }

  lemma {:induction false} AlignedGap(a: nat, b: nat)
    requires a % SUBSECTOR_SIZE == 0 && b % SUBSECTOR_SIZE == 0 && a < b + SUBSECTOR_SIZE
    ensures a <= b
  {
  }

  lemma {:induction false} UnclearBlock(b: Block, start: nat)
    requires Tidy(b) && start % SUBSECTOR_SIZE == 0 && !ClearOf(b, start)
    ensures !Avoids(EraseOps(b.start, b.end), start)
  {
    AlignedGap(b.start, start);
    AlignedErasesTouch(b.start, b.end, start);
  }

  lemma {:induction false} ClearBlock(b: Block, start: nat, x: nat)
    requires Tidy(b) && start % SUBSECTOR_SIZE == 0 && start <= x < start + GUARD_SIZE && ClearOf(b, start)
    ensures Avoids(EraseOps(b.start, b.end), x)
  {
    AlignedErasesTouch(b.start, b.end, x);
    if b.end <= start {
      SubsectorEndBelow(b.end, start);
    }
  }

  lemma {:induction false} UnclearBodyTouches(bs: seq<Block>, start: nat, i: nat)
    requires AllTidy(bs) && start % SUBSECTOR_SIZE == 0
    requires i < |bs| && !ClearOf(bs[i], start)
    ensures !Avoids(Body(bs), start)
  {
    UnclearBlock(bs[i], start);
    BodyAvoidsIff(bs, start);
    AvoidsConcat(AllErases(bs), AllPages(bs), start);
  }

  lemma {:induction false} ClearBodyAvoids(bs: seq<Block>, start: nat, x: nat)
    requires AllTidy(bs) && start % SUBSECTOR_SIZE == 0 && start <= x < start + GUARD_SIZE
    requires forall i :: 0 <= i < |bs| ==> ClearOf(bs[i], start)
    ensures Avoids(Body(bs), x)
  {
    forall i | 0 <= i < |bs|
      ensures Avoids(EraseOps(bs[i].start, bs[i].end), x)
    {
      ClearBlock(bs[i], start, x);
    }
    BodyAvoidsIff(bs, x);
    AvoidsConcat(AllErases(bs), AllPages(bs), x);
  }

  /** All array operations of a guarded upgrade: guard, body, removal of the guard. */
  function GuardedRun(start: nat, page: seq<byte>, body: seq<FlashOp>): seq<FlashOp> {
    GuardOps(start, page) + body + [Erase(start)]
  }

  /** Crash safety.  Cut the run after any k operations past the guard write and up
      to its removal, and let the operation then under way leave anything at all in
      the cells it touches: the guard is intact. */
  lemma {:induction false} GuardSurvivesInterruption(
      mem: seq<byte>, start: nat, page: seq<byte>, body: seq<FlashOp>, k: nat, torn: seq<byte>)
    requires start % SUBSECTOR_SIZE == 0 && start + GUARD_SIZE <= |mem| && |page| == CHUNK
    requires AvoidsGuard(body, start)
    requires 2 <= k <= |body| + 2 && |torn| == |mem|
    requires forall x :: 0 <= x < |mem| && torn[x] != ApplyAll(mem, GuardedRun(start, page, body)[..k])[x] ==>
               k < |body| + 2 && Touches(GuardedRun(start, page, body)[k], x)
    ensures Guarded(torn, start, page)
  {
    var run := GuardedRun(start, page, body);
    forall x | start <= x < start + GUARD_SIZE
      ensures torn[x] == GuardCell(page, x - start)
    {
      assert Avoids(body, x);
      GuardKept(mem, start, page, body[..k - 2], x);
      assert run[..k] == GuardOps(start, page) + body[..k - 2];
      if k < |body| + 2 {
        assert run[k] == body[k - 2];
      }
    }
  }

  lemma {:induction false} GuardKept(mem: seq<byte>, start: nat, page: seq<byte>, done: seq<FlashOp>, x: nat)
    requires start % SUBSECTOR_SIZE == 0 && start <= x < start + GUARD_SIZE <= |mem| && |page| == CHUNK
    requires Avoids(done, x)
    ensures ApplyAll(mem, GuardOps(start, page) + done)[x] == GuardCell(page, x - start)
  {
    ApplyAllAt(mem, GuardOps(start, page) + done, x);
    CellAfterConcat(GuardOps(start, page), done, x, mem[x]);
    GuardWritten(start, page, x, mem[x]);
    AvoidedCell(done, x, GuardCell(page, x - start));
  }

  /** Once the guard is removed its subsector is blank and the body's work is kept. */
  lemma {:induction false} GuardRemoved(mem: seq<byte>, start: nat, page: seq<byte>, body: seq<FlashOp>, x: nat)
    requires start % SUBSECTOR_SIZE == 0 && x < |mem| && |page| == CHUNK
    ensures start <= x < start + GUARD_SIZE ==> ApplyAll(mem, GuardedRun(start, page, body))[x] == ERASED
    ensures !(start <= x < start + GUARD_SIZE) ==>
      ApplyAll(mem, GuardedRun(start, page, body))[x] == CellAfter(body, x, mem[x])
  {
    ApplyAllAt(mem, GuardedRun(start, page, body), x);
    CellAfterConcat(GuardOps(start, page) + body, [Erase(start)], x, mem[x]);
    CellAfterConcat(GuardOps(start, page), body, x, mem[x]);
    GuardWritten(start, page, x, mem[x]);
    OneOp(Erase(start), x, CellAfter(GuardOps(start, page) + body, x, mem[x]));
  }

  // --- The image ---

  /** Bytes to be stored from an address on. */
  datatype Image = Image(start: nat, data: seq<byte>)

  /** The data cut into 128-byte pages, the last one filled up with 0xFF. */
  function Paginate(data: seq<byte>): (r: seq<seq<byte>>)
    ensures forall i :: 0 <= i < |r| ==> |r[i]| == CHUNK
    ensures |data| <= |r| * CHUNK < |data| + CHUNK
    ensures forall i, j :: 0 <= i < |r| && 0 <= j < CHUNK ==> r[i][j] == PaddedByte(data, i * CHUNK + j)
  {
    seq((|data| + CHUNK - 1) / CHUNK, i requires 0 <= i => PageAt(data, i))
  }

  function PageAt(data: seq<byte>, i: nat): (r: seq<byte>)
    ensures |r| == CHUNK && forall j :: 0 <= j < CHUNK ==> r[j] == PaddedByte(data, i * CHUNK + j)
  {
    seq<byte>(CHUNK, j requires 0 <= j => PaddedByte(data, i * CHUNK + j))
  }

  function PaddedByte(data: seq<byte>, k: nat): byte {
    if k < |data| then data[k] else ERASED
  }

  function BlockOf(im: Image): Block {
    Block(im.start, im.start + |im.data|, Paginate(im.data))
  }

  function BlocksOf(ims: seq<Image>): (r: seq<Block>)
    ensures |r| == |ims| && forall i :: 0 <= i < |r| ==> r[i] == BlockOf(ims[i])
  {
    seq(|ims|, i requires 0 <= i < |ims| => BlockOf(ims[i]))
  }

  /** 4 KB aligned and in ascending order without overlap. */
  ghost predicate Layout(ims: seq<Image>) {
    && (forall i :: 0 <= i < |ims| ==> ims[i].start % SUBSECTOR_SIZE == 0)
    && (forall i, j :: 0 <= i < j < |ims| ==> ims[i].start + |ims[i].data| <= ims[j].start)
  }

  lemma {:induction false} ImageTidy(im: Image)
    requires im.start % SUBSECTOR_SIZE == 0
    ensures Tidy(BlockOf(im))
  {
    PagesFit(im.start, |im.data|, |Paginate(im.data)|);
  }

  lemma {:induction false} PagesFit(start: nat, n: nat, pages: nat)
    requires start % SUBSECTOR_SIZE == 0 && pages * CHUNK < n + CHUNK
    ensures start + pages * CHUNK <= SubsectorEnd(start + n)
  {
    var first, last := start / SUBSECTOR_SIZE, (start + n + SUBSECTOR_SIZE - 1) / SUBSECTOR_SIZE;
    assert start == first * SUBSECTOR_SIZE && SubsectorEnd(start + n) == last * SUBSECTOR_SIZE;
    assert pages <= (last - first) * (SUBSECTOR_SIZE / CHUNK);
  }

  lemma {:induction false} ChunkAligned(a: nat)
    requires a % SUBSECTOR_SIZE == 0
    ensures a % CHUNK == 0
  {
  }

  lemma {:induction false} ErasedBeforeProgramming(ims: seq<Image>, i: nat, x: nat, v: byte)
    requires Layout(ims) && i < |ims| && ims[i].start <= x < ims[i].start + |ims[i].data|
    ensures CellAfter(AllErases(BlocksOf(ims)), x, v) == ERASED
    decreases |ims|
  {
    var bs, rest := BlocksOf(ims), ims[1..];
    assert bs[1..] == BlocksOf(rest);
    var first := EraseOps(bs[0].start, bs[0].end);
    CellAfterConcat(first, AllErases(bs[1..]), x, v);
    if i == 0 {
      AlignedErasesErase(bs[0].start, bs[0].end, x, v);
      AllErasesErase(bs[1..]);
      ErasesKeepErased(AllErases(bs[1..]), x);
    } else {
      ErasedBeforeProgramming(rest, i - 1, x, CellAfter(first, x, v));
    }
  }

  lemma {:induction false} AllErasesErase(bs: seq<Block>)
    ensures forall i :: 0 <= i < |AllErases(bs)| ==> AllErases(bs)[i].Erase?
  {
    if bs == [] {
    } else {
      EraseOpsAllErase(bs[0].start, bs[0].end);
      AllErasesErase(bs[1..]);
    }
  }

  lemma {:induction false} ProgrammedOnce(ims: seq<Image>, i: nat, x: nat)
    requires Layout(ims) && i < |ims| && ims[i].start <= x < ims[i].start + |ims[i].data|
    ensures CellAfter(AllPages(BlocksOf(ims)), x, ERASED) == ims[i].data[x - ims[i].start]
    decreases |ims|
  {
    var rest, v := ims[1..], ims[i].data[x - ims[i].start];
    var first, others := PageOps(ims[0].start, Paginate(ims[0].data)), AllPages(BlocksOf(rest));
    PagesOfFirst(ims);
    LayoutTail(ims);
    if i == 0 {
      ImageStored(ims[0], x);
      LaterPagesKeep(rest, x, ims[0].start + |ims[0].data|, v);
      CellAfterBoth(first, others, x, ERASED, v, v);
    } else {
      assert rest[i - 1] == ims[i] && ims[0].start + |ims[0].data| <= ims[i].start;
      ImageStaysBelow(ims[0], ims[i].start, x, ERASED);
      ProgrammedOnce(rest, i - 1, x);
      CellAfterBoth(first, others, x, ERASED, ERASED, v);
    }
  }

  lemma {:induction false} PagesOfFirst(ims: seq<Image>)
    requires ims != []
    ensures AllPages(BlocksOf(ims)) == PageOps(ims[0].start, Paginate(ims[0].data)) + AllPages(BlocksOf(ims[1..]))
  {
    assert BlocksOf(ims)[1..] == BlocksOf(ims[1..]);
  }

  lemma {:induction false} LayoutTail(ims: seq<Image>)
    requires Layout(ims) && ims != []
    ensures Layout(ims[1..])
    ensures forall i :: 0 <= i < |ims| - 1 ==> ims[0].start + |ims[0].data| <= ims[1..][i].start
  {
  }

  lemma {:induction false} ImageStored(im: Image, x: nat)
    requires im.start % SUBSECTOR_SIZE == 0 && im.start <= x < im.start + |im.data|
    ensures CellAfter(PageOps(im.start, Paginate(im.data)), x, ERASED) == im.data[x - im.start]
  {
    var pages, k := Paginate(im.data), x - im.start;
    ChunkAligned(im.start);
    var i, j := k / CHUNK, k % CHUNK;
    assert k == i * CHUNK + j;
    CellAfterPages(im.start, pages, i, im.start + i * CHUNK, x, ERASED);
    assert pages[i][j] == PaddedByte(im.data, i * CHUNK + j);
    ErasedIsNeutral(im.data[k]);
  }

  lemma {:induction false} ImageStaysBelow(im: Image, next: nat, x: nat, v: byte)
    requires im.start % SUBSECTOR_SIZE == 0 && next % SUBSECTOR_SIZE == 0
    requires im.start + |im.data| <= next <= x
    ensures CellAfter(PageOps(im.start, Paginate(im.data)), x, v) == v
  {
    PagesFit(im.start, |im.data|, |Paginate(im.data)|);
    SubsectorEndBelow(im.start + |im.data|, next);
    ChunkAligned(im.start);
    PagesKeep(im.start, Paginate(im.data), x, v);
  }

  lemma {:induction false} SubsectorEndBelow(n: nat, bound: nat)
    requires n <= bound && bound % SUBSECTOR_SIZE == 0
    ensures SubsectorEnd(n) <= bound
  {
  }

  lemma {:induction false} LaterPagesKeep(ims: seq<Image>, x: nat, bound: nat, v: byte)
    requires Layout(ims) && x < bound && forall i :: 0 <= i < |ims| ==> bound <= ims[i].start
    ensures CellAfter(AllPages(BlocksOf(ims)), x, v) == v
    decreases |ims|
  {
    if ims == [] {
    } else {
      PagesOfFirst(ims);
      ChunkAligned(ims[0].start);
      PagesKeep(ims[0].start, Paginate(ims[0].data), x, v);
      LayoutTail(ims);
      LaterPagesKeep(ims[1..], x, bound, v);
      CellAfterBoth(PageOps(ims[0].start, Paginate(ims[0].data)), AllPages(BlocksOf(ims[1..])), x, v, v, v);
    }
  }

  /** The body stores every image byte at its place, whatever the flash held before. */
  lemma {:induction false} BodyStoresImage(ims: seq<Image>, i: nat, k: nat, x: nat, v: byte)
    requires Layout(ims) && i < |ims| && k < |ims[i].data| && x == ims[i].start + k
    ensures CellAfter(Body(BlocksOf(ims)), x, v) == ims[i].data[k]
  {
    var bs := BlocksOf(ims);
    ErasedBeforeProgramming(ims, i, x, v);
    ProgrammedOnce(ims, i, x);
    CellAfterBoth(AllErases(bs), AllPages(bs), x, v, ERASED, ims[i].data[k]);
  }
}
