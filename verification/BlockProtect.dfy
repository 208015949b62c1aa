/** Block protection of ST Micro style SPI NOR flash: locking and unlocking a range
    through the three protection bits and the top/bottom bit of the status register. */
module BlockProtect {
  import opened Bits

  // --- The status register ---

  type bits3 = x: int | 0 <= x < 8

  /** The status register, bit 7 down to bit 0: write disable, quad enable, top/bottom,
      the three protection bits as one number, write latch, write in progress. */
  datatype Sr = Sr(srwd: bool, qe: bool, tb: bool, bp: bits3, wel: bool, wip: bool)

  const BP_MASK := 0x1C  // the protection bits are bits 4 to 2

  // --- Ranges ---

  /** A half-open byte range; lo == hi means empty. */
  datatype Range = Range(lo: nat, hi: nat)

  predicate In(x: nat, r: Range) {
    r.lo <= x < r.hi
  }

  ghost predicate Within(a: Range, b: Range) {
    forall x: nat :: In(x, a) ==> In(x, b)
  }

  lemma {:induction false} WithinIff(a: Range, b: Range)
    ensures Within(a, b) <==> a.lo >= a.hi || (b.lo <= a.lo && a.hi <= b.hi)
  {
    if a.lo < a.hi && Within(a, b) {
      assert In(a.lo, a) && In(a.hi - 1, a);
    }
  }

  /** A part of 2^order bytes, with or without a top/bottom bit. */
  datatype Part = Part(order: nat, hasTb: bool) {
    function Size(): (r: nat)
      ensures r >= 1
    {
      Pow2(order)
    }
  }

  predicate Bottom(p: Part, sr: Sr) {
    p.hasTb && sr.tb
  }

  /** The range a status register value protects. */
  function Locked(p: Part, sr: Sr): (r: Range)
    ensures r.lo <= r.hi <= p.Size()
  {
    if sr.bp == 0 then Range(0, 0)
    else
      var len := Shr(p.Size(), 7 - sr.bp);
      if Bottom(p, sr) then Range(0, len) else Range(p.Size() - len, p.Size())
  }

  ghost predicate AllLocked(p: Part, sr: Sr, lo: nat, hi: nat) {
    forall x: nat :: lo <= x < hi ==> In(x, Locked(p, sr))
  }

  ghost predicate NoneLocked(p: Part, sr: Sr, lo: nat, hi: nat) {
    forall x: nat :: lo <= x < hi ==> !In(x, Locked(p, sr))
  }

  /** Whether all of a range is locked, or all of it unlocked; an empty range is both. */
  predicate CheckLockStatus(p: Part, ofs: nat, len: nat, sr: Sr, locked: bool) {
    var l := Locked(p, sr);
    if len == 0 then true
    else if locked then ofs + len <= l.hi && ofs >= l.lo
    else ofs >= l.hi || ofs + len <= l.lo
  }

  /** The comparison of end points means what it should for every byte in the range. */
  lemma {:induction false} CheckLockStatusMeaning(p: Part, ofs: nat, len: nat, sr: Sr)
    requires ofs + len <= p.Size()
    ensures CheckLockStatus(p, ofs, len, sr, true) <==> AllLocked(p, sr, ofs, ofs + len)
    ensures CheckLockStatus(p, ofs, len, sr, false) <==> NoneLocked(p, sr, ofs, ofs + len)
  {
    var l := Locked(p, sr);
    if len > 0 {
      assert In(ofs, l) <==> l.lo <= ofs < l.hi;
      assert In(ofs + len - 1, l) <==> l.lo <= ofs + len - 1 < l.hi;
      assert In(l.lo, l) <==> l.lo < l.hi;
    }
  }

  // --- Locking and unlocking ---

  datatype Decision = Keep | Refuse | Write(sr: Sr)

  /** The field value for an exponent as the driver computes it, in eight bits. */
  function EncodePow(pow: nat): byte {
    (BP_MASK - pow * 4) % 256
  }

  function Field(val: byte): bits3 {
    val / 4 % 8
  }

  predicate OutsideMask(val: byte) {
    val % 4 != 0 || val / 32 != 0
  }

  /** The test for stray bits after the eight-bit subtraction rejects exactly the
      exponents above 7; the others are encoded as 7 - pow. */
  lemma {:induction false} WrapRejectsLargeExponents(pow: nat)
    requires pow < 64
    ensures OutsideMask(EncodePow(pow)) <==> pow > 7
    ensures pow <= 7 ==> Field(EncodePow(pow)) == 7 - pow
  {
    if pow > 7 {
      assert EncodePow(pow) == 284 - pow * 4;
    }
  }

  /** The length that must end up locked, or None if the range touches neither end
      of what is locked already; the flag says whether it is anchored at the top. */
  datatype Target = NoTarget | Target(top: bool, length: nat)

  function LockTarget(p: Part, sr: Sr, ofs: nat, len: nat): Target
    requires ofs + len <= p.Size()
  {
    var end := ofs + len;
    if CheckLockStatus(p, end, p.Size() - end, sr, true) then Target(true, p.Size() - ofs)
    else if p.hasTb && CheckLockStatus(p, 0, ofs, sr, true) then Target(false, end)
    else NoTarget
  }

  function UnlockTarget(p: Part, sr: Sr, ofs: nat, len: nat): Target
    requires ofs + len <= p.Size()
  {
    var end := ofs + len;
    if CheckLockStatus(p, 0, ofs, sr, false) then Target(true, p.Size() - end)
    else if p.hasTb && CheckLockStatus(p, end, p.Size() - end, sr, false) then Target(false, ofs)
    else NoTarget
  }

  /** Smallest exponent whose fraction of the part is not longer than the target. */
  function LockPow(p: Part, length: nat): nat
    requires 1 <= length <= p.Size()
  {
    LogBelowOrder(p, length);
    p.order - FloorLog2(length)
  }

  /** Largest exponent whose fraction of the part is not shorter than the target. */
  function UnlockPow(p: Part, length: nat): nat
    requires 1 <= length <= p.Size()
  {
    LogBelowOrder(p, length);
    p.order - CeilLog2(length)
  }

  function LockDecision(p: Part, sr: Sr, ofs: nat, len: nat): Decision
    requires ofs + len <= p.Size() && p.order < 64
  {
    var t := LockTarget(p, sr, ofs, len);
    if CheckLockStatus(p, ofs, len, sr, true) then Keep
    else if t.NoTarget? then Refuse
    else LockTo(p, sr, t.top, t.length)
  }

  /** The decision once the end and the length are chosen. */
  function LockTo(p: Part, sr: Sr, top: bool, length: nat): Decision
    requires 1 <= length <= p.Size()
  {
    var val := EncodePow(LockPow(p, length));
    if OutsideMask(val) || Field(val) == 0 then Refuse
    else
      var next := sr.(bp := Field(val), tb := !top, srwd := true);
      if next == sr then Keep
      else if next.bp < sr.bp then Refuse
      else Write(next)
  }

  function UnlockDecision(p: Part, sr: Sr, ofs: nat, len: nat): Decision
    requires ofs + len <= p.Size() && p.order < 64
  {
    var t := UnlockTarget(p, sr, ofs, len);
    if CheckLockStatus(p, ofs, len, sr, false) then Keep
    else if t.NoTarget? then Refuse
    else UnlockTo(p, sr, t.top, t.length)
  }

  function UnlockTo(p: Part, sr: Sr, top: bool, length: nat): Decision
    requires length <= p.Size()
  {
    var val := if length == 0 then 0 else EncodePow(UnlockPow(p, length));
    if OutsideMask(val) then Refuse
    else
      var next := sr.(bp := Field(val), tb := !top, srwd := length != 0 && sr.srwd);
      if next == sr then Keep
      else if next.bp > sr.bp then Refuse
      else Write(next)
  }

  // --- Encoding and decoding a length ---

  lemma {:induction false} LogBelowOrder(p: Part, n: nat)
    requires 1 <= n <= p.Size()
    ensures FloorLog2(n) <= p.order && CeilLog2(n) <= p.order
  {
    FloorLog2Bounds(n);
    CeilLog2Bounds(n);
    if FloorLog2(n) > p.order {
      Pow2Monotone(p.order, FloorLog2(n));
    }
    if CeilLog2(n) > p.order {
      Pow2Monotone(p.order, CeilLog2(n) - 1);
    }
  }

  /** The field written for exponent pow protects 2^(order - pow) bytes at the chosen end. */
  lemma {:induction false} DecodeWritten(p: Part, sr: Sr, pow: nat, top: bool)
    requires pow <= p.order && pow < 7 && sr.bp == 7 - pow && Bottom(p, sr) == !top
    ensures var m := Pow2(p.order - pow);
      m <= p.Size() && Locked(p, sr) == if top then Range(p.Size() - m, p.Size()) else Range(0, m)
  {
    ShrPow2(p.order, pow);
    Pow2Monotone(p.order - pow, p.order);
  }

  /** What a written lock decision protects: the largest power of two within the target. */
  lemma {:induction false} LockWritten(p: Part, sr: Sr, ofs: nat, len: nat)
    requires ofs + len <= p.Size() && p.order < 64 && LockDecision(p, sr, ofs, len).Write?
    ensures var t, next := LockTarget(p, sr, ofs, len), LockDecision(p, sr, ofs, len).sr;
      && t.Target? && len > 0 && 1 <= t.length <= p.Size()
      && Bottom(p, next) == !t.top && sr.bp <= next.bp && next.srwd
      && var m := Pow2(FloorLog2(t.length));
         m <= t.length && Locked(p, next) == if t.top then Range(p.Size() - m, p.Size()) else Range(0, m)
  {
    var t, next := LockTarget(p, sr, ofs, len), LockDecision(p, sr, ofs, len).sr;
    LogBelowOrder(p, t.length);
    FloorLog2Bounds(t.length);
    var pow := LockPow(p, t.length);
    WrapRejectsLargeExponents(pow);
    DecodeWritten(p, next, pow, t.top);
  }

  // --- What locking guarantees ---

  /** A lock protects nothing but what was locked before or asked for. */
  lemma {:induction false} LockAddsOnlyRequest(p: Part, sr: Sr, ofs: nat, len: nat, x: nat)
    requires ofs + len <= p.Size() && p.order < 64 && LockDecision(p, sr, ofs, len).Write?
    requires In(x, Locked(p, LockDecision(p, sr, ofs, len).sr))
    ensures In(x, Locked(p, sr)) || ofs <= x < ofs + len
  {
    LockWritten(p, sr, ofs, len);
  }

  /** A lock covers the whole request exactly when the length it aims at is a power of two. */
  lemma {:induction false} LockCoversRequestIff(p: Part, sr: Sr, ofs: nat, len: nat)
    requires ofs + len <= p.Size() && p.order < 64 && LockDecision(p, sr, ofs, len).Write?
    ensures Within(Range(ofs, ofs + len), Locked(p, LockDecision(p, sr, ofs, len).sr)) <==>
      IsPow2(LockTarget(p, sr, ofs, len).length)
  {
    LockWritten(p, sr, ofs, len);
    FloorLog2Exact(LockTarget(p, sr, ofs, len).length);
    WithinIff(Range(ofs, ofs + len), Locked(p, LockDecision(p, sr, ofs, len).sr));
  }

  /** One register value locks all that another with no larger field locks, exactly
      when that is nothing, both lock at the same end, or the first locks everything. */
  lemma {:induction false} LocksMoreIff(p: Part, less: Sr, more: Sr)
    requires less.bp <= more.bp
    ensures Within(Locked(p, less), Locked(p, more)) <==>
      Locked(p, less).lo == Locked(p, less).hi || Bottom(p, less) == Bottom(p, more) || more.bp == 7
  {
    var a, b := Shr(p.Size(), 7 - less.bp), Shr(p.Size(), 7 - more.bp);
    ShrMonotone(p.Size(), 7 - more.bp, 7 - less.bp);
    WithinIff(Locked(p, less), Locked(p, more));
    if more.bp < 7 {
      ShrMonotone(p.Size(), 1, 7 - more.bp);
      assert Shr(p.Size(), 1) == Shr(p.Size(), 0) / 2;
    }
  }

  /** The comparison of protection fields is meant to keep other areas locked.  It
      does so exactly when nothing was locked, the target is anchored at the end that
      was locked, or the target is the whole part. */
  lemma {:induction false} LockKeepsLockedIff(p: Part, sr: Sr, ofs: nat, len: nat)
    requires ofs + len <= p.Size() && p.order < 64 && LockDecision(p, sr, ofs, len).Write?
    ensures var t := LockTarget(p, sr, ofs, len);
      Within(Locked(p, sr), Locked(p, LockDecision(p, sr, ofs, len).sr)) <==>
        Locked(p, sr).lo == Locked(p, sr).hi || Bottom(p, sr) == !t.top || t.length == p.Size()
  {
    var t, next := LockTarget(p, sr, ofs, len), LockDecision(p, sr, ofs, len).sr;
    LockWritten(p, sr, ofs, len);
    LocksMoreIff(p, sr, next);
    WholeTarget(p, t.length);
    WrapRejectsLargeExponents(LockPow(p, t.length));
  }

  /** Exponent 0 is the whole part. */
  lemma {:induction false} WholeTarget(p: Part, length: nat)
    requires 1 <= length <= p.Size()
    ensures LockPow(p, length) == 0 <==> length == p.Size()
    ensures LockPow(p, length) <= p.order
  {
    LogBelowOrder(p, length);
    FloorLog2Bounds(length);
    LogOfPow2(p.order);
  }

  /** On a part without a top/bottom bit no lock ever unlocks anything. */
  lemma {:induction false} LockKeepsLockedWithoutTb(p: Part, sr: Sr, ofs: nat, len: nat)
    requires ofs + len <= p.Size() && p.order < 64 && LockDecision(p, sr, ofs, len).Write? && !p.hasTb
    ensures Within(Locked(p, sr), Locked(p, LockDecision(p, sr, ofs, len).sr))
  {
    LockKeepsLockedIff(p, sr, ofs, len);
  }

  /** How the decision comes out once its target and exponent are known. */
  lemma {:induction false} LockEvaluates(p: Part, sr: Sr, ofs: nat, len: nat, t: Target, pow: nat)
    requires ofs + len <= p.Size() && p.order < 64 && !CheckLockStatus(p, ofs, len, sr, true)
    requires t == LockTarget(p, sr, ofs, len) && t.Target? && pow == LockPow(p, t.length) && pow < 7
    requires sr.bp <= 7 - pow && (sr.bp < 7 - pow || sr.tb == t.top)
    ensures LockDecision(p, sr, ofs, len) == Write(sr.(bp := 7 - pow, tb := !t.top, srwd := true))
  {
    WrapRejectsLargeExponents(pow);
  }

  lemma {:induction false} UnlockEvaluates(p: Part, sr: Sr, ofs: nat, len: nat, t: Target, pow: nat)
    requires ofs + len <= p.Size() && p.order < 64 && !CheckLockStatus(p, ofs, len, sr, false)
    requires t == UnlockTarget(p, sr, ofs, len) && t.Target? && t.length > 0 && pow == UnlockPow(p, t.length) && pow <= 7
    requires 7 - pow <= sr.bp && (7 - pow < sr.bp || sr.tb == t.top)
    ensures UnlockDecision(p, sr, ofs, len) == Write(sr.(bp := 7 - pow, tb := !t.top))
  {
    WrapRejectsLargeExponents(pow);
  }

  /** On every part with a top/bottom bit, locking the upper half while the lower
      half is locked moves the anchor and unlocks the lower half. */
  lemma {:induction false} LockCanUnlock(p: Part, sr: Sr, half: nat)
    requires p.hasTb && 1 <= p.order < 64 && sr.bp == 6 && sr.tb && half == Pow2(p.order - 1)
    ensures half + half == p.Size() && Locked(p, sr) == Range(0, half)
    ensures LockDecision(p, sr, half, half).Write?
    ensures Locked(p, LockDecision(p, sr, half, half).sr) == Range(half, half + half)
  {
    ShrPow2(p.order, 1);
    LogOfPow2(p.order - 1);
    LockEvaluates(p, sr, half, half, Target(true, half), 1);
    DecodeWritten(p, sr.(bp := 6, tb := false, srwd := true), 1, true);
  }

  /** On every part with a top/bottom bit, unlocking the lower three quarters while
      the lowest quarter is locked locks the highest quarter. */
  lemma {:induction false} UnlockCanLock(p: Part, sr: Sr, quarter: nat)
    requires p.hasTb && 2 <= p.order < 64 && sr.bp == 5 && sr.tb && quarter == Pow2(p.order - 2)
    ensures 4 * quarter == p.Size() && Locked(p, sr) == Range(0, quarter)
    ensures UnlockDecision(p, sr, 0, 3 * quarter).Write?
    ensures Locked(p, UnlockDecision(p, sr, 0, 3 * quarter).sr) == Range(3 * quarter, 4 * quarter)
  {
    assert p.Size() == 2 * Pow2(p.order - 1) == 4 * quarter;
    ShrPow2(p.order, 2);
    LogOfPow2(p.order - 2);
    UnlockEvaluates(p, sr, 0, 3 * quarter, Target(true, quarter), 2);
    DecodeWritten(p, sr.(bp := 5, tb := false), 2, true);
  }

  /** Unlocking all but the last 1/128 of a fully locked part unlocks that as well. */
  lemma {:induction false} UnlockCanDropTheRest(p: Part, sr: Sr, rest: nat)
    requires 7 <= p.order < 64 && sr.bp == 7 && rest == Pow2(p.order - 7) <= p.Size()
    ensures Locked(p, sr) == Range(0, p.Size())
    ensures UnlockDecision(p, sr, 0, p.Size() - rest).Write?
    ensures Locked(p, UnlockDecision(p, sr, 0, p.Size() - rest).sr) == Range(0, 0)
  {
    assert UnlockPow(p, rest) == 7 by { LogOfPow2(p.order - 7); }
    assert rest < p.Size() by { Pow2Monotone(p.order - 7, p.order - 1); }
    assert Shr(p.Size(), 0) == p.Size();
    UnlockEvaluates(p, sr, 0, p.Size() - rest, Target(true, rest), 7);
  }

  // --- What unlocking guarantees ---

  /** The fields a written unlock decision puts into the register. */
  lemma {:induction false} UnlockFields(p: Part, sr: Sr, ofs: nat, len: nat)
    requires ofs + len <= p.Size() && p.order < 64 && UnlockDecision(p, sr, ofs, len).Write?
    ensures var t, next := UnlockTarget(p, sr, ofs, len), UnlockDecision(p, sr, ofs, len).sr;
      && t.Target? && len > 0 && t.length <= p.Size()
      && Bottom(p, next) == !t.top && next.bp <= sr.bp
      && (t.length == 0 ==> next.bp == 0)
      && (t.length > 0 ==> UnlockPow(p, t.length) <= 7 && next.bp == 7 - UnlockPow(p, t.length))
  {
    var t := UnlockTarget(p, sr, ofs, len);
    if t.length > 0 {
      WrapRejectsLargeExponents(UnlockPow(p, t.length));
    }
  }

  /** What a written unlock decision leaves protected: the smallest power of two that
      holds the target, except that 1/128 of the part or less is encoded as nothing. */
  lemma {:induction false} UnlockWritten(p: Part, sr: Sr, ofs: nat, len: nat, next: Sr)
    requires ofs + len <= p.Size() && p.order < 64 && UnlockDecision(p, sr, ofs, len) == Write(next)
    ensures var t := UnlockTarget(p, sr, ofs, len);
      && t.Target? && len > 0 && t.length <= p.Size()
      && Bottom(p, next) == !t.top && next.bp <= sr.bp
      && (t.length == 0 || UnlockPow(p, t.length) == 7 ==> next.bp == 0)
      && (t.length > 0 && UnlockPow(p, t.length) != 7 ==>
           var m := Pow2(CeilLog2(t.length));
           t.length <= m <= p.Size() && Locked(p, next) == if t.top then Range(p.Size() - m, p.Size()) else Range(0, m))
  {
    UnlockFields(p, sr, ofs, len);
    var t := UnlockTarget(p, sr, ofs, len);
    if t.length > 0 {
      KeptLength(p, t.length);
      var pow := UnlockPow(p, t.length);
      if pow != 7 {
        DecodeWritten(p, next, pow, t.top);
      }
    }
  }

  lemma {:induction false} KeptLength(p: Part, length: nat)
    requires 1 <= length <= p.Size()
    ensures UnlockPow(p, length) <= p.order && length <= Pow2(p.order - UnlockPow(p, length))
    ensures p.order - UnlockPow(p, length) == CeilLog2(length)
  {
    LogBelowOrder(p, length);
    CeilLog2Bounds(length);
  }

  /** Exponent 7 or more is what remains of 1/128 of the part or less. */
  lemma {:induction false} SmallRemainder(p: Part, length: nat)
    requires 1 <= length <= p.Size()
    ensures UnlockPow(p, length) >= 7 <==> length <= Shr(p.Size(), 7)
  {
    LogBelowOrder(p, length);
    CeilLog2Bounds(length);
    var e := CeilLog2(length);
    if p.order >= 7 {
      ShrPow2(p.order, 7);
      if e <= p.order - 7 {
        Pow2Monotone(e, p.order - 7);
      } else {
        Pow2Monotone(p.order - 7, e - 1);
      }
    } else {
      ShrPow2(p.order, p.order);
      ShrMonotone(p.Size(), p.order + 1, 7);
      assert Shr(p.Size(), p.order + 1) == 0;
    }
  }

  /** An unlock locks nothing new exactly when the target is anchored at the end that was
      locked, so little is to stay locked that nothing does, or everything was locked. */
  lemma {:induction false} UnlockLocksNothingNewIff(p: Part, sr: Sr, ofs: nat, len: nat)
    requires ofs + len <= p.Size() && p.order < 64 && UnlockDecision(p, sr, ofs, len).Write?
    ensures var t := UnlockTarget(p, sr, ofs, len);
      Within(Locked(p, UnlockDecision(p, sr, ofs, len).sr), Locked(p, sr)) <==>
        Bottom(p, sr) == !t.top || t.length <= Shr(p.Size(), 7) || sr.bp == 7
  {
    var t, next := UnlockTarget(p, sr, ofs, len), UnlockDecision(p, sr, ofs, len).sr;
    UnlockFields(p, sr, ofs, len);
    UnlockWritten(p, sr, ofs, len, next);
    LocksMoreIff(p, next, sr);
    if t.length > 0 {
      SmallRemainder(p, t.length);
    }
  }

  ghost predicate LockedOutside(p: Part, sr: Sr, ofs: nat, len: nat) {
    exists x: nat :: In(x, Locked(p, sr)) && !(ofs <= x < ofs + len)
  }

  /** An unlock keeps every locked byte outside the request locked exactly when there
      is none, or the length to be kept is more than 1/128 of the part. */
  lemma {:induction false} UnlockKeepsRestIff(p: Part, sr: Sr, ofs: nat, len: nat)
    requires ofs + len <= p.Size() && p.order < 64 && UnlockDecision(p, sr, ofs, len).Write?
    ensures var next := UnlockDecision(p, sr, ofs, len).sr;
      (forall x: nat :: In(x, Locked(p, sr)) && !(ofs <= x < ofs + len) ==> In(x, Locked(p, next))) <==>
        !LockedOutside(p, sr, ofs, len) || UnlockTarget(p, sr, ofs, len).length > Shr(p.Size(), 7)
  {
    var t, next := UnlockTarget(p, sr, ofs, len), UnlockDecision(p, sr, ofs, len).sr;
    UnlockWritten(p, sr, ofs, len, next);
    if t.length > 0 {
      SmallRemainder(p, t.length);
      WrapRejectsLargeExponents(UnlockPow(p, t.length));
    }
  }

  /** An unlock frees the whole request exactly when what remains is a power of two,
      nothing, or so little that it is dropped. */
  lemma {:induction false} UnlockFreesRequestIff(p: Part, sr: Sr, ofs: nat, len: nat)
    requires ofs + len <= p.Size() && p.order < 64 && UnlockDecision(p, sr, ofs, len).Write?
    ensures var t, next := UnlockTarget(p, sr, ofs, len), UnlockDecision(p, sr, ofs, len).sr;
      (forall x: nat :: ofs <= x < ofs + len ==> !In(x, Locked(p, next))) <==>
        t.length <= Shr(p.Size(), 7) || IsPow2(t.length)
  {
    var t, next := UnlockTarget(p, sr, ofs, len), UnlockDecision(p, sr, ofs, len).sr;
    UnlockWritten(p, sr, ofs, len, next);
    if t.length > 0 {
      SmallRemainder(p, t.length);
      WrapRejectsLargeExponents(UnlockPow(p, t.length));
      CeilLog2Exact(t.length);
      assert In(if t.top then ofs + len - 1 else ofs, Locked(p, next)) ==> UnlockPow(p, t.length) != 7;
    }
  }
}
