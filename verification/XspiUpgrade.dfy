/** Upgrading the flash from an MCS file behind a bitstream guard. */
module XspiUpgrade {
  import opened Common
  import opened NorFlash
  import opened SpiWire
  import opened SpiTransfer
  import opened FlashCommands
  import opened XspiFlasher
  import opened FlashSession
  import opened FlashSchedule
  import opened McsFile
  import opened UpgradePlan

  datatype Outcome = Success | Failed | Crashed

  // --- Single operations ---

  method Erase4K(f: Flasher, address: nat, ghost prior: seq<Chip>, ghost ops: seq<FlashOp>) returns (ok: bool)
    requires Running(f, prior, ops)
    modifies f.spi, f.readBuffer, f.writeBuffer, f`selectedSector
    ensures ok ==> Running(f, prior, ops + [Erase(address)])
    ensures !ok ==> FailedIn(f, prior, ops + [Erase(address)], |ops|)
  {
    ghost var before := f.spi.chips;
    SameHeader(CMD_SUBSECTOR_ERASE, address);
    ok := f.SectorErase(address);
    if ok {
      SessionAdvances(f, prior, before, ops, Erase(address));
    } else {
      if GetSector(address) >= f.maxSectors {
      }
      HaltedStops(f, prior, before, ops, Erase(address));
    }
  }

  /** A 32-bit address sum that overflowed would name the same 28-bit address. */
  method ProgramPage(f: Flasher, address: nat, ghost prior: seq<Chip>, ghost ops: seq<FlashOp>, ghost op: FlashOp) returns (ok: bool)
    requires Running(f, prior, ops) && op == Program(address, f.Payload())
    modifies f.spi, f.readBuffer, f.writeBuffer, f`selectedSector
    ensures ok ==> Running(f, prior, ops + [op])
    ensures !ok ==> FailedIn(f, prior, ops + [op], |ops|)
  {
    ghost var before := f.spi.chips;
    SameHeader(CMD_SUBSECTOR_ERASE, address);
    ok := f.WritePage(address);
    if ok {
      SessionAdvances(f, prior, before, ops, op);
    } else {
      if GetSector(address) >= f.maxSectors {
      }
      HaltedStops(f, prior, before, ops, op);
    }
  }

  // --- The guard ---

  method WriteBitstreamGuard(f: Flasher, start: nat, ghost prior: seq<Chip>) returns (ok: bool, ghost k: nat)
    requires Running(f, prior, [])
    modifies f.spi, f.readBuffer, f.writeBuffer, f`selectedSector
    ensures ok ==> Running(f, prior, GuardOps(start, GuardPage()))
    ensures !ok ==> FailedIn(f, prior, GuardOps(start, GuardPage()), k)
  {
    k := 0;
    ok := Erase4K(f, start, prior, []);
    if !ok {
      FailedExtends(f, prior, [Erase(start)], GuardOps(start, GuardPage()), 0);
      return;
    }
    FillGuardPage(f);
    ok := ProgramGuardPage(f, start, prior, GuardPage());
    k := 1;
  }

  method ProgramGuardPage(f: Flasher, start: nat, ghost prior: seq<Chip>, ghost page: seq<byte>) returns (ok: bool)
    requires Running(f, prior, [Erase(start)]) && f.Payload() == page
    modifies f.spi, f.readBuffer, f.writeBuffer, f`selectedSector
    ensures ok ==> Running(f, prior, GuardOps(start, page))
    ensures !ok ==> FailedIn(f, prior, GuardOps(start, page), 1)
  {
    assert [Erase(start)] + [Program(start + CHUNK, page)] == GuardOps(start, page);
    ok := ProgramPage(f, start + CHUNK, prior, [Erase(start)], Program(start + CHUNK, page));
  }

  method FillGuardPage(f: Flasher)
    requires f.Valid()
    modifies f.writeBuffer
    ensures f.Payload() == GuardPage()
  {
    var words, i, b := LittleEndian(GUARD_WORDS), 0, f.writeBuffer;
    while i < |words|
      invariant i <= |words| == 48
      invariant b[EXTRA_BYTES..EXTRA_BYTES + i] == words[..i]
    {
      b[EXTRA_BYTES + i] := words[i];
      i := i + 1;
    }
    while i < WRITE_DATA_SIZE
      invariant |words| <= i <= WRITE_DATA_SIZE
      invariant b[EXTRA_BYTES..EXTRA_BYTES + i] == words + Blank(i - |words|)
    {
      b[EXTRA_BYTES + i] := ERASED;
      i := i + 1;
    }
  }

  // --- Erasing and programming one record ---

  method EraseRecord(f: Flasher, start: nat, end: nat, ghost prior: seq<Chip>, ghost ops: seq<FlashOp>)
      returns (ok: bool, ghost k: nat)
    requires Running(f, prior, ops) && end + SUBSECTOR_SIZE <= UINT32
    modifies f.spi, f.readBuffer, f.writeBuffer, f`selectedSector
    ensures ok ==> Running(f, prior, ops + EraseOps(start, end))
    ensures !ok ==> FailedIn(f, prior, ops + EraseOps(start, end), k)
  {
    ghost var plan, done := ops + EraseOps(start, end), ops;
    var j := start;
    while j < end
      invariant Running(f, prior, done) && done + EraseOps(j, end) == plan
      decreases end - j
    {
      ghost var step := done + [Erase(j)];
      ok := Erase4K(f, j, prior, done);
      if !ok {
        k := |done|;
        FailedExtends(f, prior, step, plan, k);
        return;
      }
      done := step;
      j := j + SUBSECTOR_SIZE;
    }
    ok, k := true, |plan|;
    assert done == plan;
  }

  method ClearBuffers(f: Flasher)
    requires f.Valid()
    modifies f.readBuffer, f.writeBuffer
    ensures forall i :: 0 <= i < f.readBuffer.Length ==> f.readBuffer[i] == 0
    ensures forall i :: 0 <= i < f.writeBuffer.Length ==> f.writeBuffer[i] == 0
  {
    var r, w := f.readBuffer, f.writeBuffer;
    for i := 0 to r.Length
      invariant forall j :: 0 <= j < i ==> r[j] == 0
    {
      r[i] := 0;
    }
    for i := 0 to w.Length
      modifies w
      invariant forall j :: 0 <= j < i ==> w[j] == 0
    {
      w[i] := 0;
    }
  }

  /** Copies a data line into the page buffer, stopping when the page is full. */
  method CopyPairs(f: Flasher, line: Line, used: nat) returns (ok: bool, now: nat)
    requires f.Valid() && used < CHUNK
    modifies f.writeBuffer
    ensures ok == Taken(line, CHUNK - used).Some?
    ensures ok ==> now == used + |Taken(line, CHUNK - used).value| <= CHUNK
    ensures ok ==>
      f.writeBuffer[EXTRA_BYTES..EXTRA_BYTES + now] ==
        old(f.writeBuffer[EXTRA_BYTES..EXTRA_BYTES + used]) + Taken(line, CHUNK - used).value
  {
    ok, now := line.hasData, used;
    if !ok {
      return;
    }
    var i, n := 0, Min(CHUNK - used, |line.pairs|);
    var b := f.writeBuffer;
    while i < n
      invariant 0 <= i <= n && now == used + i
      invariant Readable(line.pairs[..i])
      invariant b[EXTRA_BYTES..EXTRA_BYTES + now] == old(b[EXTRA_BYTES..EXTRA_BYTES + used]) + Values(line.pairs[..i])
    {
      if line.pairs[i].None? {
        assert line.pairs[..n][i].None?;
        return false, now;
      }
      b[EXTRA_BYTES + now] := line.pairs[i].value;
      assert Values(line.pairs[..i + 1]) == Values(line.pairs[..i]) + [line.pairs[i].value];
      now, i := now + 1, i + 1;
    }
  }

  lemma {:induction false} SessionStopsAtPage(
      f: Flasher, prior: seq<Chip>, ops: seq<FlashOp>, start: nat, pages: seq<seq<byte>>, page: nat,
      done: seq<FlashOp>, plan: seq<FlashOp>)
    requires AtPage(done, ops, start, pages, page) && plan == ops + PageOps(start, pages) && Running(f, prior, done)
    ensures StoppedIn(f, prior, plan, |done|)
  {
    SessionStops(f, prior, done, plan);
  }

  /** Programs the buffered page as page number `page` of a record. */
  method EmitPage(f: Flasher, start: nat, page: nat, ghost pages: seq<seq<byte>>, ghost prior: seq<Chip>,
      ghost ops: seq<FlashOp>, ghost done: seq<FlashOp>, ghost plan: seq<FlashOp>)
      returns (ok: bool, ghost next: seq<FlashOp>)
    requires page < |pages| && f.Valid() && f.Payload() == pages[page]
    requires AtPage(done, ops, start, pages, page) && plan == ops + PageOps(start, pages) && Running(f, prior, done)
    modifies f.spi, f.readBuffer, f.writeBuffer, f`selectedSector
    ensures AtPage(next, ops, start, pages, page + 1)
    ensures ok ==> Running(f, prior, next)
    ensures !ok ==> FailedIn(f, prior, plan, |done|)
  {
    ghost var op := Program(start + page * CHUNK, pages[page]);
    next := done + [op];
    assert AtPage(next, ops, start, pages, page + 1);
    ok := ProgramPage(f, start + page * CHUNK, prior, done, op);
    if ok {
      ClearBuffers(f);
    } else {
      FailedExtends(f, prior, next, plan, |done|);
    }
  }

  datatype LineResult = Unreadable | Pending | PageFull

  /** One line of the page loop: its bytes go into the page buffer. */
  method ReadLine(f: Flasher, lines: seq<Line>, ghost all: Pages, ghost page: nat, i: nat, index: nat, used: nat, addressed: bool)
      returns (r: LineResult, index': nat, used': nat, addressed': bool)
    requires f.Valid() && used < CHUNK && index > 0
    requires Reading(lines, all, page, i, index, f.writeBuffer[EXTRA_BYTES..EXTRA_BYTES + used], addressed)
    modifies f.writeBuffer
    ensures !r.Unreadable? ==> i < |lines|
    ensures r.Pending? ==> used' < CHUNK
    ensures r.Pending? ==>
      Reading(lines, all, page, i + 1, index', f.writeBuffer[EXTRA_BYTES..EXTRA_BYTES + used'], addressed')
    ensures r.PageFull? ==> page < |all.pages| && f.Payload() == all.pages[page]
    ensures r.PageFull? ==> Reading(lines, all, page + 1, i + 1, index', [], true)
    ensures r.Unreadable? ==> !all.complete
  {
    r, index', used', addressed' := Unreadable, index, used, addressed;
    if i == |lines| || lines[i].len.None? || lines[i].kind.None? {
      return;
    }
    var line := lines[i];
    index' := (index - line.len.value) % UINT32;
    if line.kind.value != 0 {
      r := Pending;
      return;
    }
    var ok;
    ok, used' := CopyPairs(f, line, used);
    if ok {
      if used' < CHUNK {
        r, addressed' := Pending, line.address.Some?;
      } else if line.address.Some? {
        r := PageFull;
      }
    }
  }

  /** One round of the page loop: a line is read, and a page it completes is programmed. */
  method ProgramLine(f: Flasher, lines: seq<Line>, ghost all: Pages, i: nat, index: nat, used: nat, page: nat,
      addressed: bool, start: nat, ghost buffer: seq<byte>, ghost prior: seq<Chip>, ghost ops: seq<FlashOp>,
      ghost done: seq<FlashOp>, ghost plan: seq<FlashOp>)
      returns (outcome: Outcome, index': nat, used': nat, page': nat, addressed': bool, ghost buffer': seq<byte>, ghost done': seq<FlashOp>)
    requires AtPage(done, ops, start, all.pages, page) && plan == ops + PageOps(start, all.pages) && Running(f, prior, done)
    requires used < CHUNK && index > 0 && f.writeBuffer[EXTRA_BYTES..EXTRA_BYTES + used] == buffer
    requires Reading(lines, all, page, i, index, buffer, addressed)
    modifies f.spi, f.readBuffer, f.writeBuffer, f`selectedSector
    ensures outcome.Success? ==> i < |lines| && used' < CHUNK && AtPage(done', ops, start, all.pages, page')
    ensures outcome.Success? ==> Running(f, prior, done')
    ensures outcome.Success? ==> f.writeBuffer[EXTRA_BYTES..EXTRA_BYTES + used'] == buffer'
    ensures outcome.Success? ==> Reading(lines, all, page', i + 1, index', buffer', addressed')
    ensures outcome.Failed? ==> FailedIn(f, prior, plan, |done|)
    ensures outcome.Crashed? ==> StoppedIn(f, prior, plan, |done|) && !all.complete
  {
    outcome, page', done' := Success, page, done;
    var line;
    line, index', used', addressed' := ReadLine(f, lines, all, page, i, index, used, addressed);
    match line {
      case Pending =>
      case PageFull =>
        var ok;
        ok, done' := EmitPage(f, start, page, all.pages, prior, ops, done, plan);
        outcome := if ok then Success else Failed;
        used', page', addressed' := 0, page + 1, true;
        assert f.writeBuffer[EXTRA_BYTES..EXTRA_BYTES] == [];
      case Unreadable =>
        outcome := Crashed;
        SessionStopsAtPage(f, prior, ops, start, all.pages, page, done, plan);
    }
    buffer' := f.writeBuffer[EXTRA_BYTES..EXTRA_BYTES + if outcome.Success? then used' else 0];
  }

  /** Reads a record's data lines again and programs them page by page. */
  method ProgramRecord(f: Flasher, lines: seq<Line>, r: Record, start: nat, ghost all: Pages,
      ghost prior: seq<Chip>, ghost ops: seq<FlashOp>, ghost plan: seq<FlashOp>) returns (outcome: Outcome, next: nat, ghost k: nat)
    requires Running(f, prior, ops) && r.dataPos <= |lines| && plan == ops + PageOps(start, all.pages)
    requires all == PagesOf(lines, r)
    modifies f.spi, f.readBuffer, f.writeBuffer, f`selectedSector
    ensures outcome.Success? ==> all.complete && next == all.pos && Running(f, prior, plan)
    ensures outcome.Failed? ==> FailedIn(f, prior, plan, k)
    ensures outcome.Crashed? ==> StoppedIn(f, prior, plan, k) && !all.complete
  {
    var used, page, addressed;
    ghost var done;
    outcome, next, used, page, addressed, done, k := ProgramLines(f, lines, r.dataPos, r.count, start, all, prior, ops, plan);
    if outcome.Success? {
      outcome, k := ProgramLast(f, lines, all, next, used, page, addressed, start, prior, ops, done, plan);
    }
  }

  /** The page loop: it leaves the last page, if that is not full, in the buffer. */
  method ProgramLines(f: Flasher, lines: seq<Line>, first: nat, count: nat, start: nat, ghost all: Pages,
      ghost prior: seq<Chip>, ghost ops: seq<FlashOp>, ghost plan: seq<FlashOp>)
      returns (outcome: Outcome, next: nat, used: nat, page: nat, addressed: bool, ghost done: seq<FlashOp>, ghost k: nat)
    requires Running(f, prior, ops) && AtPage(ops, ops, start, all.pages, 0) && plan == ops + PageOps(start, all.pages)
    requires Reading(lines, all, 0, first, count, [], false)
    modifies f.spi, f.readBuffer, f.writeBuffer, f`selectedSector
    ensures outcome.Success? ==> used < CHUNK && AtPage(done, ops, start, all.pages, page) && Running(f, prior, done)
    ensures outcome.Success? ==>
      Reading(lines, all, page, next, 0, f.writeBuffer[EXTRA_BYTES..EXTRA_BYTES + used], addressed)
    ensures outcome.Failed? ==> FailedIn(f, prior, plan, k)
    ensures outcome.Crashed? ==> StoppedIn(f, prior, plan, k) && !all.complete
  {
    outcome, next, used, page, addressed, done, k := Success, first, 0, 0, false, ops, |ops|;
    var index := count;
    ghost var buffer := [];
    while index > 0
      invariant outcome.Success? && used < CHUNK && AtPage(done, ops, start, all.pages, page) && Running(f, prior, done)
      invariant f.writeBuffer[EXTRA_BYTES..EXTRA_BYTES + used] == buffer
      invariant Reading(lines, all, page, next, index, buffer, addressed)
      decreases |lines| - next
    {
      k := |done|;
      outcome, index, used, page, addressed, buffer, done :=
        ProgramLine(f, lines, all, next, index, used, page, addressed, start, buffer, prior, ops, done, plan);
      if !outcome.Success? {
        return;
      }
      next := next + 1;
    }
  }

  /** The last, partly filled page, if there is one, padded with 0xFF. */
  method ProgramLast(f: Flasher, lines: seq<Line>, ghost all: Pages, i: nat, used: nat, page: nat, addressed: bool,
      start: nat, ghost prior: seq<Chip>, ghost ops: seq<FlashOp>, ghost done: seq<FlashOp>, ghost plan: seq<FlashOp>)
      returns (outcome: Outcome, ghost k: nat)
    requires AtPage(done, ops, start, all.pages, page) && plan == ops + PageOps(start, all.pages) && Running(f, prior, done)
    requires used < CHUNK
    requires Reading(lines, all, page, i, 0, f.writeBuffer[EXTRA_BYTES..EXTRA_BYTES + used], addressed)
    modifies f.spi, f.readBuffer, f.writeBuffer, f`selectedSector
    ensures outcome.Success? ==> all.complete && all.pos == i && Running(f, prior, plan)
    ensures outcome.Failed? ==> FailedIn(f, prior, plan, k)
    ensures outcome.Crashed? ==> StoppedIn(f, prior, plan, k) && !all.complete
  {
    ghost var buffer := f.writeBuffer[EXTRA_BYTES..EXTRA_BYTES + used];
    k := |done|;
    ReadingEnds(lines, all, page, i, buffer, addressed);
    if used == 0 {
      return Success, k;
    } else if !addressed {
      SessionStopsAtPage(f, prior, ops, start, all.pages, page, done, plan);
      return Crashed, k;
    }
    PadPage(f, used);
    var ok;
    ghost var next;
    ok, next := EmitPage(f, start, page, all.pages, prior, ops, done, plan);
    outcome := if ok then Success else Failed;
  }

  method PadPage(f: Flasher, used: nat)
    requires f.Valid() && used < CHUNK
    modifies f.writeBuffer
    ensures f.Payload() == Pad(old(f.writeBuffer[EXTRA_BYTES..EXTRA_BYTES + used]))
  {
    var b := f.writeBuffer;
    for i := used to WRITE_DATA_SIZE
      invariant b[EXTRA_BYTES..EXTRA_BYTES + i] == old(b[EXTRA_BYTES..EXTRA_BYTES + used]) + Blank(i - used)
    {
      b[EXTRA_BYTES + i] := ERASED;
    }
  }

  // --- All records ---

  method EraseAll(f: Flasher, recs: seq<Record>, shift: nat, ghost prior: seq<Chip>, ghost ops: seq<FlashOp>)
      returns (ok: bool, ghost k: nat)
    requires Running(f, prior, ops) && In32Bits(recs, shift)
    modifies f.spi, f.readBuffer, f.writeBuffer, f`selectedSector
    ensures ok ==> Running(f, prior, ops + AllErases(Bare(recs, shift)))
    ensures !ok ==> FailedIn(f, prior, ops + AllErases(Bare(recs, shift)), k)
  {
    ghost var plan, done := ops + AllErases(Bare(recs, shift)), ops;
    var rest := recs;
    ok, k := true, |plan|;
    while rest != []
      invariant Running(f, prior, done) && ok && Erasing(rest, shift, done, plan)
      decreases |rest|
    {
      ghost var step := done + EraseOps(rest[0].start + shift, rest[0].end + shift);
      ErasingMoves(rest, shift, done, step, plan);
      ok, k := EraseNext(f, rest[0], shift, prior, done, step, plan);
      if !ok {
        return;
      }
      done, rest := step, rest[1..];
    }
    ErasingEnds(shift, done, plan);
  }

  /** The next record of the erasing loop. */
  method EraseNext(f: Flasher, r: Record, shift: nat, ghost prior: seq<Chip>, ghost done: seq<FlashOp>,
      ghost step: seq<FlashOp>, ghost plan: seq<FlashOp>) returns (ok: bool, ghost k: nat)
    requires Running(f, prior, done) && r.end + shift + SUBSECTOR_SIZE <= UINT32
    requires step == done + EraseOps(r.start + shift, r.end + shift) && step <= plan
    modifies f.spi, f.readBuffer, f.writeBuffer, f`selectedSector
    ensures ok ==> Running(f, prior, step)
    ensures !ok ==> FailedIn(f, prior, plan, k)
  {
    ok, k := EraseRecord(f, r.start + shift, r.end + shift, prior, done);
    if !ok {
      FailedExtends(f, prior, step, plan, k);
    }
  }

  method Await(f: Flasher, ghost prior: seq<Chip>, ghost ops: seq<FlashOp>, ghost plan: seq<FlashOp>) returns (ok: bool)
    requires Running(f, prior, ops) && ops <= plan
    modifies f.spi, f.readBuffer, f.writeBuffer
    ensures ok ==> Running(f, prior, ops)
    ensures !ok ==> FailedIn(f, prior, plan, |ops|)
  {
    ghost var before := f.spi.chips;
    ok := f.IsFlashReady();
    if !ok {
      HaltedHarmless(f, prior, before, ops, plan);
    }
  }

  /** The next record of the programming loop. */
  method ProgramNext(f: Flasher, lines: seq<Line>, pos: nat, r: Record, shift: nat, ghost read: Pages,
      ghost prior: seq<Chip>, ghost done: seq<FlashOp>, ghost step: seq<FlashOp>, ghost plan: seq<FlashOp>)
      returns (outcome: Outcome, next: nat, ghost k: nat)
    requires Running(f, prior, done) && r.dataPos <= |lines|
    requires read == PagesOf(lines, r) && done <= plan && step == done + PageOps(r.start + shift, read.pages)
    requires pos < r.dataPos ==> step <= plan
    modifies f.spi, f.readBuffer, f.writeBuffer, f`selectedSector
    ensures outcome.Success? ==> pos < r.dataPos && read.complete && next == read.pos
    ensures outcome.Success? ==> Running(f, prior, step)
    ensures outcome.Failed? ==> FailedIn(f, prior, plan, k)
    ensures outcome.Crashed? ==> StoppedIn(f, prior, plan, k) && (pos >= r.dataPos || !read.complete)
  {
    next, k := pos, |done|;
    var ready := Await(f, prior, done, plan);
    if !ready {
      return Failed, pos, k;
    }
    ClearBuffers(f);
    if pos >= r.dataPos {
      SessionStops(f, prior, done, plan);
      return Crashed, pos, k;
    }
    outcome, next, k := ProgramRecord(f, lines, r, r.start + shift, read, prior, done, step);
    if outcome.Failed? {
      FailedExtends(f, prior, step, plan, k);
    } else if outcome.Crashed? {
      StoppedExtends(f, prior, step, plan, k);
    }
  }

  /** The loop over all records. */
  method ProgramAll(f: Flasher, lines: seq<Line>, recs: seq<Record>, shift: nat, ghost prior: seq<Chip>,
      ghost ops: seq<FlashOp>, ghost plan: seq<FlashOp>, ghost complete: bool) returns (outcome: Outcome, ghost k: nat)
    requires Running(f, prior, ops)
    requires Programming(lines, 0, recs, shift, ops, plan, complete)
    modifies f.spi, f.readBuffer, f.writeBuffer, f`selectedSector
    ensures outcome.Success? ==> complete && Running(f, prior, plan)
    ensures outcome.Failed? ==> FailedIn(f, prior, plan, k)
    ensures outcome.Crashed? ==> StoppedIn(f, prior, plan, k) && !complete
  {
    ghost var done := ops;
    var rest, pos: nat := recs, 0;
    outcome, k := Success, |plan|;
    while rest != []
      invariant Running(f, prior, done) && outcome.Success?
      invariant Programming(lines, pos, rest, shift, done, plan, complete)
      decreases |rest|
    {
      outcome, pos, done, k := ProgramFirst(f, lines, pos, rest, shift, prior, done, plan, complete);
      if !outcome.Success? {
        return;
      }
      rest := rest[1..];
    }
    ProgrammingEnds(lines, pos, shift, done, plan, complete);
  }

  /** The first of the records that are left. */
  method ProgramFirst(f: Flasher, lines: seq<Line>, pos: nat, rest: seq<Record>, shift: nat, ghost prior: seq<Chip>,
      ghost done: seq<FlashOp>, ghost plan: seq<FlashOp>, ghost complete: bool)
      returns (outcome: Outcome, next: nat, ghost step: seq<FlashOp>, ghost k: nat)
    requires Running(f, prior, done) && rest != []
    requires Programming(lines, pos, rest, shift, done, plan, complete)
    modifies f.spi, f.readBuffer, f.writeBuffer, f`selectedSector
    ensures outcome.Success? ==> Running(f, prior, step)
    ensures outcome.Success? ==> Programming(lines, next, rest[1..], shift, step, plan, complete)
    ensures outcome.Failed? ==> FailedIn(f, prior, plan, k)
    ensures outcome.Crashed? ==> StoppedIn(f, prior, plan, k) && !complete
  {
    ProgrammingMoves(lines, pos, rest, shift, done, plan, complete);
    ghost var read := PagesOf(lines, rest[0]);
    step := done + PageOps(rest[0].start + shift, read.pages);
    outcome, next, k := ProgramNext(f, lines, pos, rest[0], shift, read, prior, done, step, plan);
  }

  // --- The run ---

  /** Programs all records behind the guard: prepare, write the guard, erase
      everything, program everything, remove the guard.  `settled` is what the first
      status poll leaves of the parts, whatever state the controller was in; the run
      has begun once that poll has gone through. */
  method ProgramXSpi(f: Flasher, lines: seq<Line>, recs: seq<Record>, start: nat)
      returns (outcome: Outcome, ghost k: nat, ghost first: Chip, ghost settled: seq<Chip>, ghost begun: bool)
    requires f.Valid() && Located(lines, recs) && In32Bits(recs, Shift(start))
    modifies f.spi, f.readBuffer, f.writeBuffer, f`selectedSector, f`maxSectors, f`vendor, f`since, f`forecast
    ensures f.since == old(f.spi.faults) && f.forecast == old(f.spi.fault)
    ensures !begun ==> MayFail(f.forecast, f.spi.fault, Carried(old(f.spi.selection), old(f.spi.shifted), f.slave))
    ensures FirstPoll(old(f.spi.chips), old(f.spi.selection), old(f.spi.shifted), f.slave, first, settled, old(f.writeBuffer[1]))
    ensures outcome.Success? ==>
      begun && PlanFrom(lines, 0, recs, Shift(start)).complete && Running(f, settled, RunPlan(lines, recs, start))
    ensures !begun ==> f.since < f.spi.faults && f.Valid() && BrokenOff(
      f.spi, old(f.spi.chips), old(f.spi.selection), old(f.spi.shifted), f.slave, first, Probe(old(f.writeBuffer[1])))
    ensures begun && outcome.Failed? ==> FailedIn(f, settled, RunPlan(lines, recs, start), k)
    ensures begun && outcome.Crashed? ==>
      StoppedIn(f, settled, RunPlan(lines, recs, start), k) && !PlanFrom(lines, 0, recs, Shift(start)).complete
    ensures begun && !outcome.Success? ==> k <= |GuardFor(start) + Body(PlanFrom(lines, 0, recs, Shift(start)).blocks)|
  {
    f.since, f.forecast := f.spi.faults, f.spi.fault;
    k := 0;
    var ok;
    ok, first, settled, begun := f.Prepare();
    if !ok {
      if begun {
      }
      return Failed, k, first, settled, begun;
    }
    outcome, k := RunSession(f, lines, recs, start, settled);
  }

  /** The run once the session is open. */
  method RunSession(f: Flasher, lines: seq<Line>, recs: seq<Record>, start: nat, ghost prior: seq<Chip>)
      returns (outcome: Outcome, ghost k: nat)
    requires Running(f, prior, []) && Located(lines, recs) && In32Bits(recs, Shift(start))
    modifies f.spi, f.readBuffer, f.writeBuffer, f`selectedSector
    ensures outcome.Success? ==>
      PlanFrom(lines, 0, recs, Shift(start)).complete && Running(f, prior, RunPlan(lines, recs, start))
    ensures outcome.Failed? ==> FailedIn(f, prior, RunPlan(lines, recs, start), k)
    ensures outcome.Crashed? ==>
      StoppedIn(f, prior, RunPlan(lines, recs, start), k) && !PlanFrom(lines, 0, recs, Shift(start)).complete
    ensures !outcome.Success? ==> k <= |GuardFor(start) + Body(PlanFrom(lines, 0, recs, Shift(start)).blocks)|
  {
    ghost var plan, guarded := RunPlan(lines, recs, start), GuardFor(start);
    ghost var erased, programmed, complete := RunPlanStages(lines, recs, start);
    k := 0;
    var ok;
    if start != 0 {
      ok, k := WriteBitstreamGuard(f, start, prior);
      if !ok {
        FailedExtends(f, prior, guarded, plan, k);
        return Failed, k;
      }
    }
    ok, k := EraseAll(f, recs, Shift(start), prior, guarded);
    if !ok {
      FailedExtends(f, prior, erased, plan, k);
      return Failed, k;
    }
    outcome, k := ProgramAll(f, lines, recs, Shift(start), prior, erased, programmed, complete);
    if outcome.Failed? {
      FailedExtends(f, prior, programmed, plan, k);
      return;
    } else if outcome.Crashed? {
      StoppedExtends(f, prior, programmed, plan, k);
      return;
    }
    if start != 0 {
      k := |programmed|;
      ok := Erase4K(f, start, prior, programmed);
      outcome := if ok then Success else Failed;
    }
  }
}
