/** The user-message base register and engine, stated on the list of live regions. */
module UmsgBase {
  import opened Common
  import opened DmaRegions
  import opened AfuMemory

  /** The region holds [iova, iova + size), or starts at iova if the size is 0. */
  predicate Offers(r: Region, iova: nat, size: nat) {
    if size == 0 then r.iova == iova else r.iova <= iova && iova + size <= r.End()
  }

  /** The same regions, with those that offer the range marked in use or not. */
  ghost predicate Remarked(was: seq<Region>, now: seq<Region>, iova: nat, size: nat, inUse: bool) {
    |now| == |was| && forall i :: 0 <= i < |was| ==> now[i] == if Offers(was[i], iova, size) then was[i].(inUse := inUse) else was[i]
  }

  ghost predicate SomeOffers(rs: seq<Region>, iova: nat, size: nat) {
    exists i :: 0 <= i < |rs| && Offers(rs[i], iova, size)
  }

  /** What writing the base does.  It is refused while the engine is on.  Address 0 clears the
      base and the mark of its region; any other must be page aligned and start a window that
      one live region offers, which is then marked. */
  ghost predicate SetRule(c: Config, was: State, iova: nat, status: Status, now: State) {
    if was.enabled then status == Fail(EIO) && now == was
    else if iova == 0 then
      && status == Ok && now == was.(base := 0, regions := now.regions)
      && if was.base == 0 then now.regions == was.regions else Remarked(was.regions, now.regions, was.base, c.Window(), false)
    else if iova % PAGE_SIZE == 0 && SomeOffers(was.regions, iova, c.Window()) then
      && status == Ok && now == was.(base := iova, regions := now.regions)
      && Remarked(was.regions, now.regions, iova, c.Window(), true)
    else status == Fail(EINVAL) && now == was
  }

  lemma {:induction false} OffersIsCheck(r: Region, iova: nat, size: nat)
    requires r.Valid() && iova + size < UINT64
    ensures Offers(r, iova, size) <==> CheckIova(r, iova, size)
  {
    CheckIovaMeaning(r, iova, size);
  }

  lemma {:induction false} SearchOffers(rs: seq<Region>, iova: nat, size: nat)
    requires Sorted(rs) && iova + size < UINT64
    ensures Search(rs, iova, size).Some? <==> SomeOffers(rs, iova, size)
  {
    SearchFails(rs, iova, size);
    forall i | 0 <= i < |rs| ensures Offers(rs[i], iova, size) <==> CheckIova(rs[i], iova, size) {
      OffersIsCheck(rs[i], iova, size);
    }
  }

  lemma {:induction false} PointMeets(c: Config, baseline: nat, s: State, iova: nat)
    requires c.Valid() && Inv(c, baseline, s) && !s.enabled && 0 < iova < UINT64
    ensures SetRule(c, s, iova, Point(c, s, iova).0, Point(c, s, iova).1)
  {
    var size := c.Window();
    NoWrap(iova, size);
    if Wraps(iova, size) {
      forall i | 0 <= i < |s.regions| ensures !Offers(s.regions[i], iova, size) {
        assert s.regions[i].Valid();
      }
    } else {
      SearchOffers(s.regions, iova, size);
      if Point(c, s, iova).0 == Ok {
        var n := PointedAt(c, baseline, s, iova);
        OffersIsCheck(s.regions[n], iova, size);
      }
    }
  }

  lemma {:induction false} ClearMeets(c: Config, baseline: nat, s: State)
    requires c.Valid() && Inv(c, baseline, s) && !s.enabled
    ensures SetRule(c, s, 0, Clear(c, s).0, Clear(c, s).1)
  {
    ClearSucceeds(c, baseline, s);
    if s.base != 0 {
      NoWrap(s.base, c.Window());
      var n := SearchFound(s.regions, s.base, c.Window());
      OffersIsCheck(s.regions[n], s.base, c.Window());
    }
  }

  lemma {:induction false} SetMeetsRule(c: Config, baseline: nat, s: State, iova: nat)
    requires c.Valid() && Inv(c, baseline, s) && iova < UINT64
    ensures SetRule(c, s, iova, SetBase(c, s, iova).0, SetBase(c, s, iova).1)
  {
    if !s.enabled {
      if iova != 0 {
        PointMeets(c, baseline, s, iova);
      } else {
        ClearMeets(c, baseline, s);
      }
    }
  }

  /** The engine can be reached: charge, map, publish, set the base, switch on. */
  lemma {:induction false} EngineRuns(c: Config, baseline: nat, s: State, t: nat, iova: nat)
    requires c.Valid() && Init(c, baseline, s) && t < |s.threads| && c.hasUmsg && c.numUmsgs > 0
    requires 0 < iova && iova % PAGE_SIZE == 0 && iova + c.Window() <= BUS_LIMIT && MayCharge(c, baseline, c.numUmsgs)
    ensures var r := Region(iova, c.Window(), true);
      Reaches(c, s, [Charge(t, c.Window()), MapDma(t, iova), Publish(t), WriteBase(iova), Switch(true)],
        State([r], iova, true, baseline + c.numUmsgs, s.threads))
  {
    var size, r := c.Window(), Region(iova, c.Window(), false);
    assert Pages(size) == c.numUmsgs;
    InitHolds(c, baseline, s);
    var charged := Do(c, s, Charge(t, size));
    var mapped := Do(c, charged, MapDma(t, iova));
    var live := Do(c, mapped, Publish(t));
    assert live == s.(regions := [r], locked := baseline + c.numUmsgs) by { assert live.threads == s.threads; }
    var pointed := Pointed(c, live, r);
    Steps(c, s, charged, mapped, live, pointed, t, iova);
  }

  lemma {:induction false} Pointed(c: Config, s: State, r: Region) returns (after: State)
    requires c.Valid() && c.hasUmsg && c.numUmsgs > 0 && s.regions == [r] && !s.enabled && r.length == c.Window()
    requires 0 < r.iova && r.iova % PAGE_SIZE == 0 && r.End() <= BUS_LIMIT
    ensures after == SetBase(c, s, r.iova).1 == s.(base := r.iova, regions := [r.(inUse := true)])
  {
    NoWrap(r.iova, c.Window());
    CheckIovaMeaning(r, r.iova, c.Window());
    SearchOne(r, r.iova, c.Window());
    BaseTruncates(r.iova);
    after := SetBase(c, s, r.iova).1;
    assert Mark([r], r.iova, true) == [r.(inUse := true)];
  }

  lemma {:induction false} Steps(c: Config, s: State, charged: State, mapped: State, live: State, pointed: State, t: nat, iova: nat)
    requires Can(c, s, Charge(t, c.Window())) && charged == Do(c, s, Charge(t, c.Window()))
    requires Can(c, charged, MapDma(t, iova)) && mapped == Do(c, charged, MapDma(t, iova))
    requires Can(c, mapped, Publish(t)) && live == Do(c, mapped, Publish(t))
    requires c.hasUmsg && iova < UINT64 && pointed == SetBase(c, live, iova).1 && pointed.base != 0
    ensures Reaches(c, s, [Charge(t, c.Window()), MapDma(t, iova), Publish(t), WriteBase(iova), Switch(true)], pointed.(enabled := true))
  {
    var after := pointed.(enabled := true);
    var steps := [Charge(t, c.Window()), MapDma(t, iova), Publish(t), WriteBase(iova), Switch(true)];
    assert Reaches(c, after, [], after);
    assert steps[4..] == [Switch(true)] && steps[4..][1..] == [];
    assert Reaches(c, pointed, steps[4..], after);
    assert steps[3..][1..] == steps[4..] && steps[3..][0] == WriteBase(iova);
    assert Reaches(c, live, steps[3..], after);
    assert steps[2..][1..] == steps[3..] && steps[2..][0] == Publish(t);
    assert Reaches(c, mapped, steps[2..], after);
    assert steps[1..][1..] == steps[2..] && steps[1..][0] == MapDma(t, iova);
    assert Reaches(c, charged, steps[1..], after);
  }

  /** Mapping a region and unmapping it again leaves everything as it was. */
  lemma {:induction false} MapThenUnmap(c: Config, baseline: nat, s: State, t: nat, iova: nat, length: nat)
    requires Init(c, baseline, s) && t < |s.threads| && 0 < length && iova + length <= BUS_LIMIT && MayCharge(c, baseline, Pages(length))
    ensures var live := s.(regions := [Region(iova, length, false)], locked := baseline + Pages(length));
      && Reaches(c, s, [Charge(t, length), MapDma(t, iova), Publish(t)], live)
      && Reaches(c, live, [Take(t, iova), UnmapDma(t), Refund(t)], s)
  {
    var r := Region(iova, length, false);
    var charged := Do(c, s, Charge(t, length));
    var mapped := Do(c, charged, MapDma(t, iova));
    var live := Do(c, mapped, Publish(t));
    assert live == s.(regions := [r], locked := baseline + Pages(length)) by { assert live.threads == s.threads; }
    ThreeSteps(c, s, Charge(t, length), charged, MapDma(t, iova), mapped, Publish(t), live);
    SearchOne(r, iova, 0);
    CheckIovaMeaning(r, iova, 0);
    var taken := Do(c, live, Take(t, iova));
    assert [r][1..] == [] && Without([], iova) == [] && Without([r], iova) == [];
    var unmapped := Do(c, taken, UnmapDma(t));
    var back := Do(c, unmapped, Refund(t));
    assert back == s by { assert back.threads == s.threads; }
    ThreeSteps(c, live, Take(t, iova), taken, UnmapDma(t), unmapped, Refund(t), back);
  }

  lemma {:induction false} ThreeSteps(c: Config, s: State, a: Step, s1: State, b: Step, s2: State, d: Step, s3: State)
    requires Can(c, s, a) && s1 == Do(c, s, a) && Can(c, s1, b) && s2 == Do(c, s1, b) && Can(c, s2, d) && s3 == Do(c, s2, d)
    ensures Reaches(c, s, [a, b, d], s3)
  {
    var steps := [a, b, d];
    assert steps[1..] == [b, d] && [b, d][1..] == [d] && [d][1..] == [];
    assert Reaches(c, s3, [], s3);
    assert Reaches(c, s2, [d], s3);
    assert Reaches(c, s1, [b, d], s3);
  }

  // --- Pages and bytes ---

  function RegionBytes(rs: seq<Region>): nat {
    if rs == [] then 0 else rs[0].length + RegionBytes(rs[1..])
  }

  /** The pages charged for regions of whole pages are all their bytes. */
  lemma {:induction false} PagesAreBytes(rs: seq<Region>)
    requires forall i :: 0 <= i < |rs| ==> rs[i].length % PAGE_SIZE == 0
    ensures RegionPages(rs) * PAGE_SIZE == RegionBytes(rs)
  {
    if rs == [] {
    } else {
      PagesAreBytes(rs[1..]);
    }
  }

}
