/** Binding a block of MSI-X vectors to event file descriptors, all or none. */
module Msix {
  import opened Common

  datatype Errno = EINVAL | ENOMEM | EBADF | EBUSY
  datatype Status = Ok | Fail(errno: Errno)

  /** A vector: its interrupt line and the event it signals. */
  datatype Vector = Vector(irq: nat, trigger: Option<nat>)

  function Events(t: Option<nat>): multiset<nat> {
    if t.Some? then multiset{t.value} else multiset{}
  }

  /** Events referenced by the first n vectors. */
  ghost function Held(ctx: seq<Vector>, n: nat): multiset<nat>
    requires n <= |ctx|
  {
    if n == 0 then multiset{} else Held(ctx, n - 1) + Events(ctx[n - 1].trigger)
  }

  function Rebound(ctx: seq<Vector>, v: nat, t: Option<nat>): seq<Vector>
    requires v < |ctx|
  {
    ctx[v := ctx[v].(trigger := t)]
  }

  lemma {:induction false} HeldBefore(ctx: seq<Vector>, v: nat, t: Option<nat>, n: nat)
    requires n <= v < |ctx|
    ensures Held(Rebound(ctx, v, t), n) == Held(ctx, n)
  {
    if n == 0 {
    } else {
      HeldBefore(ctx, v, t, n - 1);
    }
  }

  lemma {:induction false} Exchange(a: multiset<nat>, b: multiset<nat>, c: multiset<nat>, d: multiset<nat>, e: multiset<nat>)
    requires a + b == c + d
    ensures a + e + b == c + e + d
  {
    assert a + e + b == a + b + e && c + e + d == c + d + e;
  }

  lemma {:induction false} Swap(a: multiset<nat>, b: multiset<nat>, c: multiset<nat>)
    ensures a + b + c == a + c + b
  {
  }

  lemma {:induction false} HeldUpdate(ctx: seq<Vector>, v: nat, t: Option<nat>, n: nat)
    requires v < n <= |ctx|
    ensures Held(Rebound(ctx, v, t), n) + Events(ctx[v].trigger) == Held(ctx, n) + Events(t)
  {
    var after := Rebound(ctx, v, t);
    if n == v + 1 {
      HeldBefore(ctx, v, t, v);
      assert after[v].trigger == t;
      Swap(Held(ctx, v), Events(t), Events(ctx[v].trigger));
    } else {
      HeldUpdate(ctx, v, t, n - 1);
      assert after[n - 1] == ctx[n - 1];
      Exchange(Held(after, n - 1), Events(ctx[v].trigger), Held(ctx, n - 1), Events(t), Events(ctx[n - 1].trigger));
    }
  }

  ghost predicate HasIrq(ctx: seq<Vector>, irq: nat) {
    exists v :: 0 <= v < |ctx| && ctx[v].irq == irq
  }

  ghost predicate VectorMatches(v: Vector, requested: map<nat, nat>) {
    if v.trigger.Some? then v.irq in requested && requested[v.irq] == v.trigger.value else v.irq !in requested
  }

  /** The kernel's record of requested lines and event references agrees with the vectors. */
  ghost predicate Matched(ctx: seq<Vector>, requested: map<nat, nat>, refs: multiset<nat>) {
    && (forall i, j :: 0 <= i < j < |ctx| ==> ctx[i].irq != ctx[j].irq)
    && (forall v :: 0 <= v < |ctx| ==> VectorMatches(ctx[v], requested))
    && (forall irq :: irq in requested ==> HasIrq(ctx, irq))
    && refs == Held(ctx, |ctx|)
  }

  lemma {:induction false} IrqsStay(ctx: seq<Vector>, v: nat, t: Option<nat>, irq: nat)
    requires v < |ctx| && HasIrq(ctx, irq)
    ensures HasIrq(Rebound(ctx, v, t), irq)
  {
    var u :| 0 <= u < |ctx| && ctx[u].irq == irq;
    assert Rebound(ctx, v, t)[u].irq == irq;
  }

  lemma {:induction false} BindKeepsMatched(ctx: seq<Vector>, requested: map<nat, nat>, refs: multiset<nat>, v: nat, t: nat)
    requires Matched(ctx, requested, refs) && v < |ctx| && ctx[v].trigger.None?
    ensures Matched(Rebound(ctx, v, Some(t)), requested[ctx[v].irq := t], refs + multiset{t})
  {
    var after, lines := Rebound(ctx, v, Some(t)), requested[ctx[v].irq := t];
    assert refs + multiset{t} == Held(after, |after|) by { HeldUpdate(ctx, v, Some(t), |ctx|); }
    forall irq | irq in lines ensures HasIrq(after, irq) {
      if irq == ctx[v].irq {
        assert HasIrq(ctx, irq);
      }
      IrqsStay(ctx, v, Some(t), irq);
    }
    forall u | 0 <= u < |after| ensures VectorMatches(after[u], lines) {
      assert VectorMatches(ctx[u], requested);
    }
  }

  lemma {:induction false} UnbindKeepsMatched(ctx: seq<Vector>, requested: map<nat, nat>, refs: multiset<nat>, v: nat)
    requires Matched(ctx, requested, refs) && v < |ctx| && ctx[v].trigger.Some?
    ensures Matched(Rebound(ctx, v, None), requested - {ctx[v].irq}, refs - multiset{ctx[v].trigger.value})
    ensures ctx[v].trigger.value in refs && |refs| == |refs - multiset{ctx[v].trigger.value}| + 1
  {
    HeldUpdate(ctx, v, None, |ctx|);
    var after, lines := Rebound(ctx, v, None), requested - {ctx[v].irq};
    assert refs == Held(after, |ctx|) + multiset{ctx[v].trigger.value};
    forall irq | irq in lines ensures HasIrq(after, irq) {
      IrqsStay(ctx, v, None, irq);
    }
    forall u | 0 <= u < |after| ensures VectorMatches(after[u], lines) {
      assert VectorMatches(ctx[u], requested);
    }
  }

  class Feature {
    var ctx: seq<Vector>
    var requested: map<nat, nat>   // interrupt line to event, as the kernel has it
    var refs: multiset<nat>        // references held on events
    var names: nat                 // line names allocated
    ghost var faults: nat          // allocations and line requests refused

    ghost predicate Valid()
      reads this
    {
      Matched(ctx, requested, refs) && names == |refs|
    }

    /** The event behind a descriptor, with a reference taken. */
    method GetEvent(fd: int, open: map<int, nat>) returns (event: Option<nat>)
      modifies this`refs
      ensures event == if fd in open then Some(open[fd]) else None
      ensures refs == old(refs) + Events(event)
    {
      if fd in open {
        refs := refs + multiset{open[fd]};
        return Some(open[fd]);
      }
      event := None;
    }

    method Unbind(vector: nat)
      requires Valid() && vector < |ctx|
      modifies this
      ensures Valid() && ctx == Rebound(old(ctx), vector, None) && faults == old(faults)
    {
      if ctx[vector].trigger.Some? {
        UnbindKeepsMatched(ctx, requested, refs, vector);
        requested := requested - {ctx[vector].irq};
        refs := refs - multiset{ctx[vector].trigger.value};
        names := names - 1;
        ctx := Rebound(ctx, vector, None);
      }
      assert ctx == Rebound(old(ctx), vector, None);
    }

    method Bind(vector: nat, fd: int, open: map<int, nat>) returns (status: Status)
      requires Valid() && vector < |ctx| && ctx[vector].trigger.None?
      modifies this
      ensures Valid() && (status == Ok <==> fd in open && faults == old(faults)) && faults >= old(faults)
      ensures status == Fail(EBADF) <==> fd !in open && faults == old(faults)
      ensures status == Ok || status == Fail(EBADF) || status == Fail(ENOMEM) || status == Fail(EBUSY)
      ensures ctx == if status == Ok then Rebound(old(ctx), vector, Some(open[fd])) else old(ctx)
    {
      var named: bool := *;
      if !named {
        faults := faults + 1;
        return Fail(ENOMEM);
      }
      names := names + 1;
      var event := GetEvent(fd, open);
      if event.None? {
        names := names - 1;
        assert refs == old(refs);
        return Fail(EBADF);
      }
      var granted: bool := *;
      if !granted {
        names := names - 1;
        refs := refs - multiset{event.value};
        assert refs == old(refs);
        faults := faults + 1;
        return Fail(EBUSY);
      }
      BindKeepsMatched(ctx, requested, old(refs), vector, event.value);
      requested := requested[ctx[vector].irq := event.value];
      ctx := Rebound(ctx, vector, event);
      status := Ok;
    }

    /** Unbinds a vector, then binds it to a descriptor unless that is negative. `open` maps
        descriptors to events; allocating and requesting the line may fail. */
    method SetVector(vector: int, fd: int, open: map<int, nat>) returns (status: Status)
      requires Valid()
      modifies this
      ensures Valid() && |ctx| == |old(ctx)| && faults >= old(faults)
      ensures !(0 <= vector < |ctx|) ==> status == Fail(EINVAL) && ctx == old(ctx)
      ensures 0 <= vector < |ctx| ==>
        && (status == Ok <==> fd < 0 || (fd in open && faults == old(faults)))
        && ctx == Rebound(old(ctx), vector, if status == Ok && fd >= 0 then Some(open[fd]) else None)
    {
      if vector < 0 || vector >= |ctx| {
        return Fail(EINVAL);
      }
      Unbind(vector);
      if fd < 0 {
        return Ok;
      }
      status := Bind(vector, fd, open);
      assert status == Ok ==> ctx == Rebound(old(ctx), vector, Some(open[fd]));
    }

    /** Binds vectors from `start` until one fails; `next` is one past the last tried. */
    method BindEach(start: nat, count: nat, fds: Option<seq<int>>, open: map<int, nat>)
      returns (status: Status, next: int)
      requires Valid() && start < |ctx| && (fds.Some? ==> |fds.value| == count)
      modifies this
      ensures Valid() && SameOutside(old(ctx), ctx, start, next)
      ensures if status == Ok
              then next == start + count <= |ctx| && AllBound(ctx, fds, start, next, open)
              else start < next <= start + count && next <= |ctx| + 1 && (fds.None? ==> next == |ctx| + 1)
      ensures faults == old(faults) && AllOpen(fds, open) && status != Ok ==> next == |ctx| + 1
      ensures faults >= old(faults)
    {
      status := Ok;
      var i := 0;
      next := start;
      while i < count && status == Ok
        invariant Valid() && 0 <= i <= count && next == start + i
        invariant SameOutside(old(ctx), ctx, start, next) && faults >= old(faults)
        invariant faults == old(faults) && AllOpen(fds, open) && status != Ok ==> next == |ctx| + 1
        invariant if status == Ok then next <= |ctx| && AllBound(ctx, fds, start, next, open)
                  else i > 0 && next <= |ctx| + 1 && (fds.None? ==> next == |ctx| + 1)
      {
        var fd := if fds.Some? then fds.value[i] else -1;
        ghost var before := ctx;
        status := SetVector(next, fd, open);
        if next < |before| {
        }
        if status == Ok {
          assert next < |before|;
          assert BoundAs(ctx[next], fds, i, open);
        }
        i, next := i + 1, next + 1;
      }
    }

    /** Unbinds vectors from `last` down to `start`. */
    method Rollback(start: nat, last: int, open: map<int, nat>)
      requires Valid() && start <= last <= |ctx|
      modifies this
      ensures Valid() && SameOutside(old(ctx), ctx, start, last + 1)
      ensures forall v :: start <= v < |ctx| && v <= last ==> ctx[v].trigger == None
      ensures faults >= old(faults)
    {
      var j := last;
      while j >= start
        invariant Valid() && start - 1 <= j <= last && faults >= old(faults)
        invariant SameOutside(old(ctx), ctx, j + 1, last + 1)
        invariant forall v :: start <= v < |ctx| && j < v <= last ==> ctx[v].trigger == None
      {
        var ignored := SetVector(j, -1, open);
        j := j - 1;
      }
    }

    /** Binds `count` vectors from `start` to the given descriptors, or unbinds them if none
        are given. Success binds each as asked; a failure at vector `failed` leaves that one
        and those before it unbound and those after it as they were. */
    method SetBlock(start: nat, count: nat, fds: Option<seq<int>>, open: map<int, nat>)
      returns (status: Status, ghost failed: nat)
      requires Valid() && start < UINT32 && count < UINT32 && |ctx| < UINT32
      requires fds.Some? ==> |fds.value| == count
      modifies this
      ensures Valid()
      ensures Refuses(start, count, |old(ctx)|) ==> status == Fail(EINVAL) && ctx == old(ctx)
      ensures status == Ok ==>
        start + count <= |ctx| && SameOutside(old(ctx), ctx, start, start + count) && AllBound(ctx, fds, start, start + count, open)
      ensures status != Ok && !Refuses(start, count, |old(ctx)|) ==>
        && start <= failed && SameOutside(old(ctx), ctx, start, failed + 1)
        && forall v :: start <= v < |ctx| && v <= failed ==> ctx[v].trigger == None
      ensures fds.None? ==> (status == Ok <==> start < |old(ctx)| && start + count <= |old(ctx)|)
      ensures start < |old(ctx)| && start + count <= |old(ctx)| && AllOpen(fds, open) && status != Ok ==> faults > old(faults)
    {
      failed := start;
      RefusesMeaning(start, count, |ctx|);
      if start >= |ctx| || (start + count) % UINT32 > |ctx| {
        return Fail(EINVAL), failed;
      }
      var next: int;
      status, next := BindEach(start, count, fds, open);
      if status != Ok {
        failed := next - 1;
        Rollback(start, next - 1, open);
      }
    }
  }

  /** The bounds check, in 32-bit arithmetic. */
  predicate Refuses(start: nat, count: nat, vectors: nat) {
    start >= vectors || (start + count) % UINT32 > vectors
  }

  /** Every block inside the vectors passes the check; what passes beyond them wrapped. */
  lemma {:induction false} RefusesMeaning(start: nat, count: nat, vectors: nat)
    requires start < UINT32 && count < UINT32
    ensures start < vectors && start + count <= vectors && start + count < UINT32 ==> !Refuses(start, count, vectors)
    ensures !Refuses(start, count, vectors) && start + count > vectors ==> start + count >= UINT32
  {
  }

  /** Interrupt lines stay, and so does everything outside [lo, hi). */
  ghost predicate SameOutside(before: seq<Vector>, now: seq<Vector>, lo: int, hi: int) {
    && |now| == |before|
    && forall v :: 0 <= v < |now| ==> now[v].irq == before[v].irq && (v < lo || hi <= v ==> now[v] == before[v])
  }

  ghost predicate AllBound(ctx: seq<Vector>, fds: Option<seq<int>>, start: nat, next: int, open: map<int, nat>)
    requires next <= |ctx|
  {
    forall v :: start <= v < next ==> BoundAs(ctx[v], fds, v - start, open)
  }

  /** Every descriptor given is negative or open. */
  ghost predicate AllOpen(fds: Option<seq<int>>, open: map<int, nat>) {
    fds.Some? ==> forall i :: 0 <= i < |fds.value| ==> fds.value[i] < 0 || fds.value[i] in open
  }

  /** Vector bound to the i-th descriptor, or unbound if that is negative or absent. */
  ghost predicate BoundAs(v: Vector, fds: Option<seq<int>>, i: nat, open: map<int, nat>) {
    if fds.None? then v.trigger == None
    else
      && i < |fds.value|
      && if fds.value[i] < 0 then v.trigger == None
         else fds.value[i] in open && v.trigger == Some(open[fds.value[i]])
  }
}
