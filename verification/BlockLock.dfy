/** The lock and unlock operations of the SPI NOR driver. */
module BlockLock {
  import opened Bits
  import opened BlockProtect
  import opened LockRules

  class Chip {
    const part: Part
    var sr: Sr
    ghost var faults: nat  // register accesses that failed

    constructor (part: Part, sr: Sr)
      requires part.order < 64
      ensures this.part == part && this.sr == sr && faults == 0
    {
      this.part, this.sr, faults := part, sr, 0;
    }

    /** Register accesses over the bus may fail. */
    method ReadSr() returns (ok: bool, v: Sr)
      modifies this`faults
      ensures ok ==> v == sr
      ensures faults == old(faults) + (if ok then 0 else 1)
    {
      ok, v := *, sr;
      if !ok {
        faults := faults + 1;
      }
    }

    /** A failed write may or may not have reached the register. */
    method WriteSr(v: Sr) returns (ok: bool)
      modifies this
      ensures sr == v || (!ok && sr == old(sr))
      ensures faults == old(faults) + (if ok then 0 else 1)
    {
      ok := *;
      var arrives: bool := *;
      if ok || arrives {
        sr := v;
      }
      if !ok {
        faults := faults + 1;
      }
    }

    /** Locks a range.  Unless a register access fails, the answer and the register are what
        the rule says; even then the register holds its old or its new value. */
    method StmLock(ofs: nat, len: nat) returns (status: Status)
      requires part.order < 64 && ofs + len <= part.Size()
      modifies this
      ensures status.IoError? <==> faults > old(faults)
      ensures !status.IoError? ==> LockRule(part, old(sr), ofs, len, status, sr)
      ensures status.IoError? ==> sr == old(sr) || LockRule(part, old(sr), ofs, len, Ok, sr)
    {
      LockMeetsRule(part, sr, ofs, len);
      var ok, before := ReadSr();
      if !ok {
        return IoError;
      }
      var decision := DecideLock(ofs, len, before);
      match decision {
        case Keep => status := Ok;
        case Refuse => status := InvalidArgument;
        case Write(next) =>
          ok := WriteSr(next);
          status := if ok then Ok else IoError;
      }
    }

    method DecideLock(ofs: nat, len: nat, before: Sr) returns (decision: Decision)
      requires part.order < 64 && ofs + len <= part.Size()
      ensures decision == LockDecision(part, before, ofs, len)
    {
      if CheckLockStatus(part, ofs, len, before, true) {
        return Keep;
      }
      var end := ofs + len;
      var canBeTop := CheckLockStatus(part, end, part.Size() - end, before, true);
      var canBeBottom := part.hasTb && CheckLockStatus(part, 0, ofs, before, true);
      if !canBeBottom && !canBeTop {
        return Refuse;
      }
      var useTop := canBeTop;
      var lockLen := if useTop then part.Size() - ofs else end;
      var val := EncodePow(LockPow(part, lockLen));
      if OutsideMask(val) {
        return Refuse;
      }
      if Field(val) == 0 {
        return Refuse;
      }
      var next := before.(bp := Field(val), tb := !useTop, srwd := true);
      if next == before {
        return Keep;
      }
      if next.bp < before.bp {
        return Refuse;
      }
      return Write(next);
    }

    /** Unlocks a range.  Unless a register access fails, the answer and the register are what
        the rule says; even then the register holds its old or its new value. */
    method StmUnlock(ofs: nat, len: nat) returns (status: Status)
      requires part.order < 64 && ofs + len <= part.Size()
      modifies this
      ensures status.IoError? <==> faults > old(faults)
      ensures !status.IoError? ==> UnlockRule(part, old(sr), ofs, len, status, sr)
      ensures status.IoError? ==> sr == old(sr) || UnlockRule(part, old(sr), ofs, len, Ok, sr)
    {
      UnlockMeetsRule(part, sr, ofs, len);
      var ok, before := ReadSr();
      if !ok {
        return IoError;
      }
      var decision := DecideUnlock(ofs, len, before);
      match decision {
        case Keep => status := Ok;
        case Refuse => status := InvalidArgument;
        case Write(next) =>
          ok := WriteSr(next);
          status := if ok then Ok else IoError;
      }
    }

    method DecideUnlock(ofs: nat, len: nat, before: Sr) returns (decision: Decision)
      requires part.order < 64 && ofs + len <= part.Size()
      ensures decision == UnlockDecision(part, before, ofs, len)
    {
      if CheckLockStatus(part, ofs, len, before, false) {
        return Keep;
      }
      var end := ofs + len;
      var canBeTop := CheckLockStatus(part, 0, ofs, before, false);
      var canBeBottom := part.hasTb && CheckLockStatus(part, end, part.Size() - end, before, false);
      if !canBeBottom && !canBeTop {
        return Refuse;
      }
      var useTop := canBeTop;
      var lockLen := if useTop then part.Size() - end else ofs;
      var val := 0;
      if lockLen > 0 {
        val := EncodePow(UnlockPow(part, lockLen));
        if OutsideMask(val) {
          return Refuse;
        }
      }
      var next := before.(bp := Field(val), tb := !useTop, srwd := lockLen != 0 && before.srwd);
      if next == before {
        return Keep;
      }
      if next.bp > before.bp {
        return Refuse;
      }
      return Write(next);
    }
  }
}
