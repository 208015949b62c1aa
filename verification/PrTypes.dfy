/** Answers, manager states and sizes of partial reconfiguration. */
module PrTypes {
  import opened Bits
  import opened Common

  const PR_WAIT_TIMEOUT := 8000000
  const CREDIT_FIELD := 512  // the credit field has 9 bits

  datatype Errno = EINVAL | ENOMEM | EFAULT | EIO | ETIMEDOUT | ENODEV
  datatype Status = Ok | Fail(errno: Errno)

  datatype ManagerState =
    | Unknown
    | WriteInit | WriteInitErr
    | Write | WriteErr
    | WriteComplete | WriteCompleteErr
    | Operating

  /** The state after the n-th of the three steps failed. */
  function ErrorState(n: nat): ManagerState {
    if n == 1 then WriteInitErr else if n == 2 then WriteErr else WriteCompleteErr
  }

  /** The manager's account of a load: the results of the steps taken, all but the last of them
      Ok, and the state they lead to: OPERATING exactly after all three. */
  ghost predicate Staged(stages: seq<Status>, status: Status, state: ManagerState) {
    && 1 <= |stages| <= 3 && status == stages[|stages| - 1]
    && (forall i :: 0 <= i < |stages| - 1 ==> stages[i] == Ok)
    && (state == Operating <==> stages == [Ok, Ok, Ok]) && (status == Ok <==> state == Operating)
    && (status != Ok ==> state == ErrorState(|stages|))
  }

  predicate EngineAnswer(status: Status) {
    status == Ok || status == Fail(EIO) || status == Fail(ETIMEDOUT)
  }

  /** Why a request is turned down before anything is loaded. */
  function Refusal(invalid: bool, readable: bool, bufAllocated: bool, copied: bool): Errno {
    if invalid then EINVAL else if !readable then EFAULT else if !bufAllocated then ENOMEM else if !copied then EFAULT else ENODEV
  }

  /** The last read of the error register gave this. */
  predicate Reported(reports: seq<nat>, error: nat) {
    reports != [] && reports[|reports| - 1] == error
  }

  /** Rounding a 32-bit size up to the push width, in 32-bit arithmetic. */
  function Align(size: nat, bandwidth: nat): nat
    requires bandwidth > 0
  {
    var up := (size + bandwidth - 1) % UINT32;
    up - up % bandwidth
  }

  /** Whole pushes, at one of the two widths the engine has. */
  predicate Whole(n: nat, bandwidth: nat) {
    (bandwidth == 4 && n % 4 == 0) || (bandwidth == 64 && n % 64 == 0)
  }

  function Zeros(n: nat): (r: seq<byte>)
    ensures |r| == n && forall i :: 0 <= i < n ==> r[i] == 0
  {
    seq(n, _ => 0)
  }

  /** The aligned length is the least multiple that holds the size, except for sizes so
      near 2^32 that it wraps to 0. */
  lemma {:induction false} AlignMeaning(size: nat, bandwidth: nat)
    requires bandwidth == 4 || bandwidth == 64
    requires size < UINT32
    ensures Whole(Align(size, bandwidth), bandwidth)
    ensures size + bandwidth <= UINT32 ==> size <= Align(size, bandwidth) < size + bandwidth
    ensures size + bandwidth > UINT32 ==> Align(size, bandwidth) == 0
  {
  }

  /** What is left of a whole number of pushes after a whole number of pushes is no tail. */
  lemma {:induction false} NoTail(length: nat, pushed: nat, bandwidth: nat)
    requires pushed <= length && Whole(length, bandwidth) && Whole(pushed, bandwidth)
    ensures !(0 < length - pushed < bandwidth)
  {
  }
}
