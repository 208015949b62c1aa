/** The wire between the SPI controller and its two parts: which part is selected, what it
    has been sent, and what is still in the FIFOs. */
module SpiWire {
  import opened NorFlash

  datatype Selection = NoSlave | Slave(index: nat)

  /** `pending` is what the selected part had taken before this transfer: nothing, unless an
      earlier transfer broke off and left it selected.  `queued` and `received` are all bytes
      written to the transmit FIFO, and read from the receive FIFO, in this transfer. */
  datatype Wire = Wire(
    chips: seq<Chip>, selection: Selection, pending: seq<byte>, shifted: seq<byte>,
    tx: seq<byte>, rx: seq<byte>, queued: seq<byte>, received: seq<byte>)

  /** Nothing is lost on the way: what was queued has been shifted or waits, and each byte
      shifted in this transfer has its reply. */
  ghost predicate Consistent(w: Wire) {
    && |w.chips| == 2 && w.chips[0].Valid() && w.chips[1].Valid()
    && w.pending <= w.shifted
    && w.shifted + w.tx == w.pending + w.queued
    && match w.selection
       case NoSlave => w.shifted == [] && w.rx == [] && w.received == []
       case Slave(i) => i < 2 && w.received + w.rx == Replies(w.chips[i], w.shifted)[|w.pending|..]
  }

  lemma {:induction false} RepliesMore(c: Chip, shifted: seq<byte>, b: byte, k: nat)
    requires k <= |shifted|
    ensures Replies(c, shifted + [b])[k..] == Replies(c, shifted)[k..] + [ReplyByte(c, shifted)]
  {
    var more := shifted + [b];
    assert more[..|more| - 1] == shifted;
  }

  /** One byte goes out and its reply comes in. */
  lemma {:induction false} ShiftKeeps(w: Wire, reply: byte)
    requires Consistent(w) && w.selection.Slave? && w.tx != []
    requires reply == ReplyByte(w.chips[w.selection.index], w.shifted)
    ensures Consistent(w.(shifted := w.shifted + [w.tx[0]], tx := w.tx[1..], rx := w.rx + [reply]))
  {
    RepliesMore(w.chips[w.selection.index], w.shifted, w.tx[0], |w.pending|);
    assert w.received + (w.rx + [reply]) == w.received + w.rx + [reply];
    assert w.shifted + [w.tx[0]] + w.tx[1..] == w.shifted + w.tx;
  }

  lemma {:induction false} QueueKeeps(w: Wire, b: byte)
    requires Consistent(w)
    ensures Consistent(w.(tx := w.tx + [b], queued := w.queued + [b]))
  {
    assert w.shifted + (w.tx + [b]) == w.shifted + w.tx + [b];
    assert w.pending + (w.queued + [b]) == w.pending + w.queued + [b];
  }

  lemma {:induction false} ReadKeeps(w: Wire)
    requires Consistent(w) && w.rx != []
    ensures Consistent(w.(rx := w.rx[1..], received := w.received + [w.rx[0]]))
  {
    assert w.received + [w.rx[0]] + w.rx[1..] == w.received + w.rx;
  }

  /** Resetting the FIFOs starts a new transfer; the selected part keeps what it has taken. */
  lemma {:induction false} ResetKeeps(w: Wire)
    requires Consistent(w)
    ensures Consistent(w.(tx := [], rx := [], pending := w.shifted, queued := [], received := []))
  {
  }

  /** What a part has already been sent when it is selected now. */
  function Carried(selection: Selection, shifted: seq<byte>, index: nat): seq<byte> {
    if selection == Slave(index) then shifted else []
  }

  /** The parts once any other part is released. */
  function Released(chips: seq<Chip>, selection: Selection, shifted: seq<byte>, index: nat): (r: seq<Chip>)
    requires |chips| == 2 && chips[0].Valid() && chips[1].Valid() && index < 2
    ensures |r| == 2 && r[index] == chips[index] && r[0].Valid() && r[1].Valid()
  {
    if selection.Slave? && selection.index < 2 && selection.index != index
    then chips[selection.index := Execute(chips[selection.index], shifted)] else chips
  }

  lemma {:induction false} SelectKeeps(w: Wire, index: nat, seen: Chip)
    requires Consistent(w) && w.rx == [] && w.received == [] && w.shifted == w.pending && index < 2
    requires w.selection == Slave(index) ==> seen == w.chips[index]
    requires seen == w.chips[index].(busy := seen.busy)
    ensures var carried := Carried(w.selection, w.shifted, index);
      Consistent(w.(chips := Released(w.chips, w.selection, w.shifted, index)[index := seen],
                    selection := Slave(index), shifted := carried, pending := carried))
  {
    assert w.tx == w.queued by {
      assert (w.shifted + w.tx)[|w.shifted|..] == w.tx && (w.pending + w.queued)[|w.pending|..] == w.queued;
    }
    assert w.chips == w.chips[index := w.chips[index]];
  }

  // --- Where a transfer can stop ---

  /** m is a multiple of d. */
  predicate Multiple(m: nat, d: nat)
    requires d > 0
  {
    m == 0 || (m >= d && Multiple(m - d, d))
  }

  /** The FIFO has run empty after m of n bytes: at the end, or at a multiple of its depth. */
  predicate AtBoundary(m: nat, n: nat, depth: nat)
    requires depth > 0
  {
    m == n || Multiple(m, depth)
  }

  // --- What can go wrong ---

  /** The environment: it may do anything; or nothing goes wrong; or nothing but one thing, a
      data read that fails once a part that has carried out `ops` operations has been sent at
      least `bytes` bytes of an erase command.  Parts are then ready whenever selected. */
  datatype Fault = Anything | Calm | CutErase(ops: nat, bytes: nat)

  /** Whether the one fault comes up while a part is sent these bytes. */
  predicate Strikes(fault: Fault, c: Chip, sent: seq<byte>) {
    && fault.CutErase? && |c.history| == fault.ops
    && sent != [] && sent[0] == CMD_SUBSECTOR_ERASE && |sent| >= fault.bytes
  }

  /** How a read of replies ended that the part gave for what it had been sent. */
  predicate FaultAfter(was: Fault, now: Fault, c: Chip, sent: seq<byte>, replies: bool, ok: bool) {
    if was.Anything? then now == was
    else ok == !(replies && Strikes(was, c, sent)) && now == if ok then was else Calm
  }

  /** Unless anything may happen, a transfer of `sent` after `base` fails exactly when the one
      fault strikes, at the first boundary where it can; `taken` bytes are then out. */
  predicate AsForecast(was: Fault, now: Fault, c: Chip, base: seq<byte>, sent: seq<byte>, taken: nat, depth: nat, ok: bool) {
    if was.Anything? then now == was
    else
      && ok == !Strikes(was, c, base + sent) && now == (if ok then was else Calm)
      && (!ok ==> was.bytes <= taken && (|base| < was.bytes ==> taken < was.bytes + depth))
  }

  /** Nothing has struck; unless anything may happen, the step has succeeded. */
  predicate Smooth(was: Fault, now: Fault, ok: bool) {
    now == was && (ok || was.Anything?)
  }

  /** A status poll after `base` may have failed: anything may happen, or an erase had begun. */
  predicate MayFail(was: Fault, now: Fault, base: seq<byte>) {
    (was.Anything? && now == was) || (was.CutErase? && base != [])
  }

  lemma {:induction false} Struck(
      was: Fault, now: Fault, c: Chip, base: seq<byte>, sent: seq<byte>, passed: nat, tried: nat, depth: nat)
    requires passed < tried <= |sent| && tried <= passed + depth
    requires passed > 0 && !was.Anything? ==> !Strikes(was, c, base + sent[..passed])
    requires FaultAfter(was, now, c, base + sent[..tried], true, false)
    ensures AsForecast(was, now, c, base, sent, |base| + tried, depth, false)
  {
    if !was.Anything? {
      FirstByte(base, sent, tried);
      if passed > 0 {
        FirstByte(base, sent, passed);
      }
    }
  }

  lemma {:induction false} FirstByte(base: seq<byte>, sent: seq<byte>, m: nat)
    requires 0 < m <= |sent|
    ensures |base + sent[..m]| == |base| + m && (base + sent[..m])[0] == (base + sent)[0]
  {
  }

  lemma {:induction false} Unstruck(was: Fault, c: Chip, base: seq<byte>, sent: seq<byte>, taken: nat, depth: nat)
    requires !was.Anything? ==> !Strikes(was, c, base + sent)
    ensures AsForecast(was, was, c, base, sent, taken, depth, true)
  {
  }

  /** The selected part has taken `sent` after `base` as far as the FIFO had run empty. */
  predicate CutAt(shifted: seq<byte>, base: seq<byte>, sent: seq<byte>, depth: nat) {
    && depth > 0 && base <= shifted <= base + sent
    && AtBoundary(|shifted| - |base|, |sent|, depth)
  }

  lemma {:induction false} CutThere(base: seq<byte>, sent: seq<byte>, m: nat, depth: nat)
    requires depth > 0 && m <= |sent| && (m == |sent| || Multiple(m, depth))
    ensures CutAt(base + sent[..m], base, sent, depth)
  {
  }
}
