/** Locking and unlocking stated on the bytes of the part: when a request is met, when it is
    refused, and what is locked afterwards. */
module LockRules {
  import opened Bits
  import opened BlockProtect

  datatype Status = Ok | InvalidArgument | IoError

  function LockedBytes(p: Part, sr: Sr): nat {
    Locked(p, sr).hi - Locked(p, sr).lo
  }

  /** The register locks n bytes at one end of the part, and no others. */
  ghost predicate Protects(p: Part, sr: Sr, top: bool, n: nat) {
    forall x: nat :: In(x, Locked(p, sr)) <==> if top then p.Size() - n <= x < p.Size() else x < n
  }

  /** The largest power of two that is not above n. */
  ghost function RoundedDown(n: nat): (m: nat)
    ensures n > 0 ==> IsPow2(m) && m <= n < 2 * m
  {
    if n == 0 then 0 else
      FloorLog2Bounds(n);
      Pow2(FloorLog2(n))
  }

  /** The smallest power of two that is not below n. */
  ghost function RoundedUp(n: nat): (m: nat)
    ensures n > 0 ==> IsPow2(m) && n <= m && (m > 1 ==> m < 2 * n)
  {
    if n == 0 then 0 else
      CeilLog2Bounds(n);
      Pow2(CeilLog2(n))
  }

  /** What a lock does, byte for byte.  A request that is all locked already changes nothing.
      Otherwise what is locked must reach the request from the top of the part or, given the
      bit for it, from the bottom; the length aimed at must be 1/64 of the part or more; and,
      rounded down to a power of two, it must not be less than what is locked already. */
  ghost predicate LockRule(p: Part, was: Sr, ofs: nat, len: nat, status: Status, now: Sr)
    requires ofs + len <= p.Size()
  {
    var end := ofs + len;
    var top := AllLocked(p, was, end, p.Size());
    var aim := if top then p.Size() - ofs else end;
    if AllLocked(p, was, ofs, end) then status.Ok? && now == was
    else if !top && !(p.hasTb && AllLocked(p, was, 0, ofs)) then status.InvalidArgument? && now == was
    else Reaches(p, was, top, aim, status, now)
  }

  ghost predicate Reaches(p: Part, was: Sr, top: bool, aim: nat, status: Status, now: Sr) {
    if 64 * aim < p.Size() || RoundedDown(aim) < LockedBytes(p, was) then status.InvalidArgument? && now == was
    else
      && status.Ok? && now == was.(bp := now.bp, tb := !top, srwd := true)
      && Protects(p, now, top, RoundedDown(aim))
  }

  /** What an unlock does, byte for byte.  What is to stay locked must be all above or, given
      the bit for it, all below the request; it is rounded up to a power of two, or dropped if
      it is 1/128 of the part or less, but refused if it is 1/256 or less; and no more may be
      locked than before.  Nothing left to lock clears the write disable bit. */
  ghost predicate UnlockRule(p: Part, was: Sr, ofs: nat, len: nat, status: Status, now: Sr)
    requires ofs + len <= p.Size()
  {
    var end := ofs + len;
    var top := NoneLocked(p, was, 0, ofs);
    var keep := if top then p.Size() - end else ofs;
    if NoneLocked(p, was, ofs, end) then status.Ok? && now == was
    else if !top && !(p.hasTb && NoneLocked(p, was, end, p.Size())) then status.InvalidArgument? && now == was
    else Keeps(p, was, top, keep, status, now)
  }

  ghost predicate Keeps(p: Part, was: Sr, top: bool, keep: nat, status: Status, now: Sr) {
    var kept := if 128 * keep <= p.Size() then 0 else RoundedUp(keep);
    if (keep > 0 && 256 * keep <= p.Size()) || kept > LockedBytes(p, was) then status.InvalidArgument? && now == was
    else
      && status.Ok? && now == was.(bp := now.bp, tb := !top, srwd := keep > 0 && was.srwd)
      && Protects(p, now, top, kept) && (kept == 0 ==> now.bp == 0)
  }

  lemma {:induction false} TimesEight(e: nat)
    ensures Pow2(e + 3) == 8 * Pow2(e)
  {
    assert Pow2(e + 1) == 2 * Pow2(e) && Pow2(e + 2) == 2 * Pow2(e + 1);
  }

  lemma {:induction false} ShrSeven(n: nat)
    ensures Shr(n, 7) == n / 128
  {
    assert Shr(n, 0) == n && Shr(n, 1) == n / 2;
    assert Shr(n, 2) == n / 4;
    assert Shr(n, 3) == n / 8;
    assert Shr(n, 4) == n / 16;
    assert Shr(n, 5) == n / 32;
    assert Shr(n, 6) == n / 64;
  }

  lemma {:induction false} LockPowBound(p: Part, length: nat)
    requires 1 <= length <= p.Size()
    ensures LockPow(p, length) <= 6 <==> 64 * length >= p.Size()
  {
    LogBelowOrder(p, length);
    FloorLog2Bounds(length);
    var e := FloorLog2(length);
    TimesEight(e);
    TimesEight(e + 3);
    if e + 6 >= p.order {
      Pow2Monotone(p.order, e + 6);
    } else {
      Pow2Monotone(e + 7, p.order);
      assert Pow2(e + 7) == 2 * Pow2(e + 6);
    }
  }

  lemma {:induction false} UnlockPowBound(p: Part, length: nat)
    requires 1 <= length <= p.Size()
    ensures UnlockPow(p, length) <= 7 <==> 256 * length > p.Size()
    ensures UnlockPow(p, length) >= 7 <==> 128 * length <= p.Size()
  {
    LogBelowOrder(p, length);
    CeilLog2Bounds(length);
    SmallRemainder(p, length);
    ShrSeven(p.Size());
    var c := CeilLog2(length);
    TimesEight(c);
    TimesEight(c + 3);
    assert Pow2(c + 7) == 2 * Pow2(c + 6) && Pow2(c + 8) == 2 * Pow2(c + 7);
    if c + 8 <= p.order {
      Pow2Monotone(c + 8, p.order);
    } else {
      Pow2Monotone(p.order, c + 7);
      assert c > 0 ==> Pow2(c) == 2 * Pow2(c - 1);
    }
  }

  /** Protection fields compare as the lengths they stand for. */
  lemma {:induction false} FieldsCompare(p: Part, sr: Sr, pow: nat)
    requires pow <= 6 && pow <= p.order
    ensures 7 - pow < sr.bp <==> Pow2(p.order - pow) < LockedBytes(p, sr)
    ensures 7 - pow > sr.bp <==> Pow2(p.order - pow) > LockedBytes(p, sr)
  {
    ShrPow2(p.order, pow);
    if sr.bp > 0 {
      var other := 7 - sr.bp;
      if other < pow {
        LongerField(p, other, pow);
      } else if other > pow {
        ShorterField(p, other, pow);
      }
    }
  }

  lemma {:induction false} LongerField(p: Part, other: nat, pow: nat)
    requires other < pow <= p.order
    ensures Pow2(p.order - pow) < Shr(p.Size(), other)
  {
    ShrPow2(p.order, other);
    Pow2Monotone(p.order - pow + 1, p.order - other);
  }

  lemma {:induction false} ShorterField(p: Part, other: nat, pow: nat)
    requires pow < other && pow <= p.order
    ensures Shr(p.Size(), other) < Pow2(p.order - pow)
  {
    ShrPow2(p.order, pow);
    ShrMonotone(p.Size(), pow + 1, other);
  }

  function Answer(d: Decision): Status {
    if d.Refuse? then InvalidArgument else Ok
  }

  function Register(sr: Sr, d: Decision): Sr {
    if d.Write? then d.sr else sr
  }

  /** The decision meets the rule, on every part, register and range. */
  lemma {:induction false} LockMeetsRule(p: Part, sr: Sr, ofs: nat, len: nat)
    requires ofs + len <= p.Size() && p.order < 64
    ensures var d := LockDecision(p, sr, ofs, len); LockRule(p, sr, ofs, len, Answer(d), Register(sr, d))
  {
    var end := ofs + len;
    CheckLockStatusMeaning(p, ofs, len, sr);
    CheckLockStatusMeaning(p, 0, ofs, sr);
    CheckLockStatusMeaning(p, end, p.Size() - end, sr);
    var t := LockTarget(p, sr, ofs, len);
    if !CheckLockStatus(p, ofs, len, sr, true) && t.Target? {
      LockOutcome(p, sr, t.top, t.length);
    }
  }

  /** The length aimed at decides, whatever the request was. */
  lemma {:induction false} LockOutcome(p: Part, sr: Sr, top: bool, aim: nat)
    requires 1 <= aim <= p.Size() && p.order < 64 && (top || p.hasTb)
    ensures var d := LockTo(p, sr, top, aim); Reaches(p, sr, top, aim, Answer(d), Register(sr, d))
  {
    LockLength(p, sr, aim);
    var pow := LockPow(p, aim);
    if pow <= 6 {
      DecodeProtects(p, sr.(bp := 7 - pow, tb := !top, srwd := true), pow, top);
    }
  }

  lemma {:induction false} DecodeProtects(p: Part, sr: Sr, pow: nat, top: bool)
    requires pow <= p.order && pow < 7 && sr.bp == 7 - pow && Bottom(p, sr) == !top
    ensures Protects(p, sr, top, Pow2(p.order - pow))
  {
    DecodeWritten(p, sr, pow, top);
  }

  lemma {:induction false} LockLength(p: Part, sr: Sr, aim: nat)
    requires 1 <= aim <= p.Size() && p.order < 64
    ensures var pow := LockPow(p, aim);
      && pow <= p.order && RoundedDown(aim) == Pow2(p.order - pow)
      && (OutsideMask(EncodePow(pow)) || Field(EncodePow(pow)) == 0 <==> 64 * aim < p.Size())
      && (64 * aim >= p.Size() ==> Field(EncodePow(pow)) == 7 - pow && (7 - pow < sr.bp <==> RoundedDown(aim) < LockedBytes(p, sr)))
  {
    LogBelowOrder(p, aim);
    LockPowBound(p, aim);
    WrapRejectsLargeExponents(LockPow(p, aim));
    if LockPow(p, aim) <= 6 {
      FieldsCompare(p, sr, LockPow(p, aim));
    }
  }

  lemma {:induction false} UnlockMeetsRule(p: Part, sr: Sr, ofs: nat, len: nat)
    requires ofs + len <= p.Size() && p.order < 64
    ensures var d := UnlockDecision(p, sr, ofs, len); UnlockRule(p, sr, ofs, len, Answer(d), Register(sr, d))
  {
    var end := ofs + len;
    CheckLockStatusMeaning(p, ofs, len, sr);
    CheckLockStatusMeaning(p, 0, ofs, sr);
    CheckLockStatusMeaning(p, end, p.Size() - end, sr);
    var t := UnlockTarget(p, sr, ofs, len);
    if !CheckLockStatus(p, ofs, len, sr, false) && t.Target? {
      UnlockOutcome(p, sr, t.top, t.length);
    }
  }

  /** The length to be kept decides, whatever the request was. */
  lemma {:induction false} UnlockOutcome(p: Part, sr: Sr, top: bool, keep: nat)
    requires keep <= p.Size() && p.order < 64 && (top || p.hasTb)
    ensures var d := UnlockTo(p, sr, top, keep); Keeps(p, sr, top, keep, Answer(d), Register(sr, d))
  {
    if keep > 0 {
      UnlockLength(p, sr, keep);
      var pow := UnlockPow(p, keep);
      if pow <= 6 {
        DecodeProtects(p, sr.(bp := 7 - pow, tb := !top, srwd := sr.srwd), pow, top);
      }
    }
  }

  lemma {:induction false} UnlockLength(p: Part, sr: Sr, keep: nat)
    requires 1 <= keep <= p.Size() && p.order < 64
    ensures var pow := UnlockPow(p, keep);
      var kept := if 128 * keep <= p.Size() then 0 else RoundedUp(keep);
      && pow <= p.order && (OutsideMask(EncodePow(pow)) <==> 256 * keep <= p.Size())
      && (128 * keep > p.Size() ==> pow <= 6 && kept == Pow2(p.order - pow))
      && (256 * keep > p.Size() && 128 * keep <= p.Size() ==> pow == 7)
      && (256 * keep > p.Size() ==> Field(EncodePow(pow)) == 7 - pow && (7 - pow > sr.bp <==> kept > LockedBytes(p, sr)))
  {
    KeptLength(p, keep);
    UnlockPowBound(p, keep);
    WrapRejectsLargeExponents(UnlockPow(p, keep));
    if UnlockPow(p, keep) <= 6 {
      FieldsCompare(p, sr, UnlockPow(p, keep));
    }
  }

  /** A lock that succeeds leaves the request locked, up to the rounding down. */
  lemma {:induction false} LockOkCovers(p: Part, was: Sr, ofs: nat, len: nat, now: Sr, x: nat)
    requires ofs + len <= p.Size() && LockRule(p, was, ofs, len, Ok, now) && ofs <= x < ofs + len
    ensures AllLocked(p, was, ofs, ofs + len) ==> In(x, Locked(p, now))
    ensures !AllLocked(p, was, ofs, ofs + len) ==>
      if AllLocked(p, was, ofs + len, p.Size()) then In(x, Locked(p, now)) <==> x >= p.Size() - RoundedDown(p.Size() - ofs)
      else In(x, Locked(p, now)) <==> x < RoundedDown(ofs + len)
  {
  }

  /** The protected portions of an 8 MB part, as the driver's table gives them. */
  lemma {:induction false} EightMegabytes(sr: Sr)
    ensures var p := Part(23, true);
      && (sr.bp == 0 ==> forall x: nat :: !In(x, Locked(p, sr)))
      && (sr.bp == 1 ==> Protects(p, sr, !sr.tb, 0x2_0000))
      && (sr.bp == 2 ==> Protects(p, sr, !sr.tb, 0x4_0000))
      && (sr.bp == 3 ==> Protects(p, sr, !sr.tb, 0x8_0000))
      && (sr.bp == 4 ==> Protects(p, sr, !sr.tb, 0x10_0000))
      && (sr.bp == 5 ==> Protects(p, sr, !sr.tb, 0x20_0000))
      && (sr.bp == 6 ==> Protects(p, sr, !sr.tb, 0x40_0000))
      && (sr.bp == 7 ==> Protects(p, sr, !sr.tb, 0x80_0000))
  {
    assert Pow2(10) == 1024 && Pow2(20) == 0x10_0000 && Pow2(23) == 0x80_0000;
    var n := Part(23, true).Size();
    assert Shr(n, 0) == n && Shr(n, 1) == 0x40_0000 && Shr(n, 2) == 0x20_0000 && Shr(n, 3) == 0x10_0000;
    assert Shr(n, 4) == 0x8_0000 && Shr(n, 5) == 0x4_0000 && Shr(n, 6) == 0x2_0000;
  }
}
