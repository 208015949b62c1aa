/** What the last close of the device does to the regions that are still mapped: the order in
    which each is unmapped for DMA and its pages are given back. */
module Teardown {
  import opened DmaRegions
  import opened AfuMemory

  datatype Event = DmaUnmapped(region: Region) | Unpinned(region: Region)

  /** One region: the DMA unmap is skipped for a region at bus address 0. */
  function RegionTeardown(r: Region): seq<Event> {
    (if r.iova != 0 then [DmaUnmapped(r)] else []) + [Unpinned(r)]
  }

  function TeardownOf(rs: seq<Region>): seq<Event> {
    if rs == [] then [] else RegionTeardown(rs[0]) + TeardownOf(rs[1..])
  }

  /** No pages were given back while the device could still reach them. */
  ghost predicate UnmappedFirst(events: seq<Event>) {
    forall i :: 0 <= i < |events| && events[i].Unpinned? ==> DmaUnmapped(events[i].region) in events[..i]
  }

  predicate NoneAtZero(rs: seq<Region>) {
    forall i :: 0 <= i < |rs| ==> rs[i].iova != 0
  }

  /** With these events behind it, the teardown of `all` goes on with `rest`. */
  ghost predicate Tearing(events: seq<Event>, rest: seq<Region>, all: seq<Region>) {
    events + TeardownOf(rest) == TeardownOf(all)
  }

  lemma {:induction false} TearingEnds(events: seq<Event>, all: seq<Region>)
    requires Tearing(events, [], all)
    ensures Regained(events) == all && (UnmappedFirst(events) <==> NoneAtZero(all))
  {
    assert events + [] == events;
    UnmappedFirstIff(all);
    RegainsAll(all);
  }

  lemma {:induction false} NoneUnmappedAtZero(rs: seq<Region>, r: Region)
    requires r.iova == 0
    ensures DmaUnmapped(r) !in TeardownOf(rs)
    decreases |rs|
  {
    if rs == [] {
    } else {
      NoneUnmappedAtZero(rs[1..], r);
    }
  }

  lemma {:induction false} AllUnpinned(rs: seq<Region>, i: nat)
    requires i < |rs|
    ensures Unpinned(rs[i]) in TeardownOf(rs)
    decreases |rs|
  {
    if i == 0 {
      assert Unpinned(rs[0]) in RegionTeardown(rs[0]);
    } else {
      AllUnpinned(rs[1..], i - 1);
    }
  }

  lemma {:induction false} UnmappedFirstConcat(a: seq<Event>, b: seq<Event>)
    requires UnmappedFirst(a) && UnmappedFirst(b)
    ensures UnmappedFirst(a + b)
  {
    var all := a + b;
    forall i | 0 <= i < |all| && all[i].Unpinned? ensures DmaUnmapped(all[i].region) in all[..i] {
      if i < |a| {
        assert all[..i] == a[..i];
      } else {
        assert all[..i] == a + b[..i - |a|];
      }
    }
  }

  lemma {:induction false} NonzeroUnmappedFirst(rs: seq<Region>)
    requires NoneAtZero(rs)
    ensures UnmappedFirst(TeardownOf(rs))
    decreases |rs|
  {
    if rs == [] {
    } else {
      var one := RegionTeardown(rs[0]);
      assert one[..1] == [DmaUnmapped(rs[0])];
      assert UnmappedFirst(one);
      NonzeroUnmappedFirst(rs[1..]);
      UnmappedFirstConcat(one, TeardownOf(rs[1..]));
    }
  }

  /** Every region is unmapped before its pages are given back exactly when none of them is
      at bus address 0. */
  lemma {:induction false} UnmappedFirstIff(rs: seq<Region>)
    ensures UnmappedFirst(TeardownOf(rs)) <==> NoneAtZero(rs)
  {
    if NoneAtZero(rs) {
      NonzeroUnmappedFirst(rs);
    } else {
      var i :| 0 <= i < |rs| && rs[i].iova == 0;
      var events := TeardownOf(rs);
      AllUnpinned(rs, i);
      NoneUnmappedAtZero(rs, rs[i]);
      var k :| 0 <= k < |events| && events[k] == Unpinned(rs[i]);
      assert DmaUnmapped(events[k].region) !in events[..k];
    }
  }

  /** The regions' pages are given back once each, in the order of the tree. */
  function Regained(events: seq<Event>): seq<Region> {
    if events == [] then []
    else (if events[0].Unpinned? then [events[0].region] else []) + Regained(events[1..])
  }

  lemma {:induction false} RegainedConcat(a: seq<Event>, b: seq<Event>)
    ensures Regained(a + b) == Regained(a) + Regained(b)
    decreases |a|
  {
    if a == [] {
      assert a + b == b;
    } else {
      var all, head := a + b, if a[0].Unpinned? then [a[0].region] else [];
      assert all[0] == a[0] && all[1..] == a[1..] + b;
      RegainedConcat(a[1..], b);
    }
  }

  lemma {:induction false} RegainsAll(rs: seq<Region>)
    ensures Regained(TeardownOf(rs)) == rs
    decreases |rs|
  {
    if rs == [] {
    } else {
      RegainedConcat(RegionTeardown(rs[0]), TeardownOf(rs[1..]));
      RegainedOne(rs[0]);
      RegainsAll(rs[1..]);
    }
  }

  lemma {:induction false} RegainedOne(r: Region)
    ensures Regained(RegionTeardown(r)) == [r]
  {
    assert Regained([]) == [];
    var last := [Unpinned(r)];
    assert last[1..] == [] && Regained(last) == [r];
    if r.iova != 0 {
      assert RegionTeardown(r)[1..] == last;
    }
  }

  /** Halting the engine moves no region. */
  lemma {:induction false} HaltKeepsZero(c: Config, s: State)
    ensures NoneAtZero(Halt(c, s).regions) <==> NoneAtZero(s.regions)
  {
    var after := Halt(c, s).regions;
    assert |after| == |s.regions| && forall i :: 0 <= i < |after| ==> after[i].iova == s.regions[i].iova;
  }

  /** A map call can put a region at bus address 0, and the last close then gives its pages
      back while it is mapped. */
  lemma {:induction false} RegionAtZero(c: Config, baseline: nat, s: State, t: nat, length: nat)
    requires Init(c, baseline, s) && t < |s.threads| && 0 < length <= BUS_LIMIT && MayCharge(c, baseline, Pages(length))
    ensures var r := Region(0, length, false);
      var after := s.(regions := [r], locked := s.locked + Pages(length));
      && Reaches(c, s, [Charge(t, length), MapDma(t, 0), Publish(t)], after)
      && Can(c, after, Release) && !UnmappedFirst(TeardownOf(after.regions))
  {
    var r := Region(0, length, false);
    var charged := Do(c, s, Charge(t, length));
    var mapped := Do(c, charged, MapDma(t, 0));
    var after := Do(c, mapped, Publish(t));
    assert after.regions == [r] && after.threads == s.threads;
    assert after == s.(regions := [r], locked := s.locked + Pages(length));
    var steps := [Charge(t, length), MapDma(t, 0), Publish(t)];
    assert steps[1..] == [MapDma(t, 0), Publish(t)] && steps[1..][1..] == [Publish(t)] && steps[1..][1..][1..] == [];
    assert Reaches(c, after, [], after);
    assert Reaches(c, mapped, [Publish(t)], after);
    assert Reaches(c, charged, [MapDma(t, 0), Publish(t)], after);
    assert after.regions[0].iova == 0;
    UnmappedFirstIff(after.regions);
  }
}
