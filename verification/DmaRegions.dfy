/** DMA regions of an accelerator function: the search tree over their bus addresses
    and the sorted list it stands for. */
module DmaRegions {
  import opened Common

  const UINT64 := 0x1_0000_0000_0000_0000
  const BUS_LIMIT := 0x1_0000_0000_0000  // bus addresses have 48 bits
  const PAGE_SIZE := 0x1000

  /** A pinned and mapped stretch of user memory. */
  datatype Region = Region(iova: nat, length: nat, inUse: bool) {
    function End(): nat {
      iova + length
    }

    ghost predicate Valid() {
      0 < length && End() <= BUS_LIMIT
    }
  }

  // --- Regions as a sorted list ---

  ghost predicate Sorted(rs: seq<Region>) {
    && (forall i :: 0 <= i < |rs| ==> rs[i].Valid())
    && (forall i, j :: 0 <= i < j < |rs| ==> rs[i].End() <= rs[j].iova)
  }

  ghost predicate Disjoint(r: Region, rs: seq<Region>) {
    forall i :: 0 <= i < |rs| ==> r.End() <= rs[i].iova || rs[i].End() <= r.iova
  }

  /** Whether a region holds [iova, iova + size), in 64-bit arithmetic; for size 0,
      whether it starts at iova. */
  predicate CheckIova(r: Region, iova: nat, size: nat) {
    if size == 0 && r.iova != iova then false
    else r.iova <= iova && (r.length + r.iova) % UINT64 >= (iova + size) % UINT64
  }

  lemma {:induction false} CheckIovaMeaning(r: Region, iova: nat, size: nat)
    requires r.Valid() && iova + size < UINT64
    ensures CheckIova(r, iova, size) <==>
      if size == 0 then r.iova == iova else r.iova <= iova && iova + size <= r.End()
  {
  }

  /** Linear search: the first region that matches. */
  function Search(rs: seq<Region>, iova: nat, size: nat): Option<Region> {
    if rs == [] then None
    else if CheckIova(rs[0], iova, size) then Some(rs[0])
    else Search(rs[1..], iova, size)
  }

  ghost predicate NoneMatch(rs: seq<Region>, iova: nat, size: nat) {
    forall i :: 0 <= i < |rs| ==> !CheckIova(rs[i], iova, size)
  }

  lemma {:induction false} SearchFails(rs: seq<Region>, iova: nat, size: nat)
    ensures Search(rs, iova, size).None? <==> NoneMatch(rs, iova, size)
  {
    if rs == [] {
    } else {
      SearchFails(rs[1..], iova, size);
      if NoneMatch(rs[1..], iova, size) && !CheckIova(rs[0], iova, size) {
        forall i | 0 <= i < |rs| ensures !CheckIova(rs[i], iova, size) { assert i > 0 ==> rs[i] == rs[1..][i - 1]; }
      }
      if NoneMatch(rs, iova, size) {
        forall i | 0 <= i < |rs[1..]| ensures !CheckIova(rs[1..][i], iova, size) { assert rs[1..][i] == rs[i + 1]; }
      }
    }
  }

  lemma {:induction false} SearchFound(rs: seq<Region>, iova: nat, size: nat) returns (i: nat)
    requires Search(rs, iova, size).Some?
    ensures i < |rs| && Search(rs, iova, size) == Some(rs[i]) && CheckIova(rs[i], iova, size)
  {
    if CheckIova(rs[0], iova, size) {
      i := 0;
    } else {
      var j := SearchFound(rs[1..], iova, size);
      i := j + 1;
    }
  }

  /** At most one region of a sorted list matches, so the search returns it. */
  lemma {:induction false} SearchUnique(rs: seq<Region>, iova: nat, size: nat, i: nat)
    requires Sorted(rs) && iova + size < UINT64 && i < |rs| && CheckIova(rs[i], iova, size)
    ensures Search(rs, iova, size) == Some(rs[i])
  {
    SearchFails(rs, iova, size);
    var j := SearchFound(rs, iova, size);
    CheckIovaMeaning(rs[i], iova, size);
    CheckIovaMeaning(rs[j], iova, size);
  }

  lemma {:induction false} SearchConcat(a: seq<Region>, b: seq<Region>, iova: nat, size: nat)
    ensures Search(a + b, iova, size) == if Search(a, iova, size).Some? then Search(a, iova, size) else Search(b, iova, size)
  {
    if a == [] {
      assert a + b == b;
    } else {
      assert (a + b)[1..] == a[1..] + b;
      SearchConcat(a[1..], b, iova, size);
    }
  }

  // --- Changing the list ---

  function Insert(rs: seq<Region>, r: Region): seq<Region> {
    if rs == [] then [r]
    else if r.iova < rs[0].iova then [r] + rs
    else [rs[0]] + Insert(rs[1..], r)
  }

  function Without(rs: seq<Region>, iova: nat): seq<Region> {
    if rs == [] then []
    else if rs[0].iova == iova then Without(rs[1..], iova)
    else [rs[0]] + Without(rs[1..], iova)
  }

  function MarkOne(r: Region, iova: nat, inUse: bool): Region {
    if r.iova == iova then r.(inUse := inUse) else r
  }

  function Mark(rs: seq<Region>, iova: nat, inUse: bool): (r: seq<Region>)
    ensures |r| == |rs| && forall i :: 0 <= i < |r| ==> r[i] == MarkOne(rs[i], iova, inUse)
  {
    seq(|rs|, i requires 0 <= i < |rs| => MarkOne(rs[i], iova, inUse))
  }

  lemma {:induction false} SortedTail(rs: seq<Region>)
    requires Sorted(rs) && rs != []
    ensures Sorted(rs[1..]) && rs[0].Valid() && forall i :: 0 <= i < |rs| - 1 ==> rs[0].End() <= rs[1..][i].iova
  {
  }

  lemma {:induction false} SortedCons(r: Region, rs: seq<Region>)
    requires Sorted(rs) && r.Valid() && forall i :: 0 <= i < |rs| ==> r.End() <= rs[i].iova
    ensures Sorted([r] + rs)
  {
  }

  /** Inserting where the list is still sorted: the place is unique. */
  lemma {:induction false} InsertSplits(rs: seq<Region>, r: Region) returns (k: nat)
    ensures k <= |rs| && Insert(rs, r) == rs[..k] + [r] + rs[k..]
    ensures forall i :: 0 <= i < k ==> rs[i].iova <= r.iova
    ensures k < |rs| ==> r.iova < rs[k].iova
  {
    if rs == [] || r.iova < rs[0].iova {
      k := 0;
    } else {
      var j := InsertSplits(rs[1..], r);
      k := j + 1;
      assert rs[..k] == [rs[0]] + rs[1..][..j] && rs[k..] == rs[1..][j..];
    }
  }

  lemma {:induction false} InsertKeepsSorted(rs: seq<Region>, r: Region)
    requires Sorted(rs) && r.Valid() && Disjoint(r, rs)
    ensures Sorted(Insert(rs, r))
  {
    if rs == [] {
    } else {
      if r.iova < rs[0].iova {
        SortedCons(r, rs);
      } else {
        SortedTail(rs);
        assert forall i :: 0 <= i < |rs| - 1 ==> rs[1..][i] == rs[i + 1];
        InsertKeepsSorted(rs[1..], r);
        var k := InsertSplits(rs[1..], r);
        SortedCons(rs[0], Insert(rs[1..], r));
      }
    }
  }

  lemma {:induction false} WithoutKeepsSorted(rs: seq<Region>, iova: nat)
    requires Sorted(rs)
    ensures Sorted(Without(rs, iova)) && |Without(rs, iova)| <= |rs|
    ensures forall r :: r in Without(rs, iova) <==> r in rs && r.iova != iova
  {
    if rs == [] {
    } else {
      SortedTail(rs);
      WithoutKeepsSorted(rs[1..], iova);
      if rs[0].iova != iova {
        var rest := Without(rs[1..], iova);
        forall i | 0 <= i < |rest| ensures rs[0].End() <= rest[i].iova { assert rest[i] in rs[1..]; }
        SortedCons(rs[0], rest);
      }
    }
  }

  // --- Regions as a search tree ---

  datatype Tree = Leaf | Node(left: Tree, region: Region, right: Tree)

  /** The regions in address order. */
  function Regions(t: Tree): seq<Region> {
    match t
    case Leaf => []
    case Node(l, r, rt) => Regions(l) + [r] + Regions(rt)
  }

  /** Adding a region at a leaf; None if one met on the way down contains it or starts
      where it does. */
  function Add(t: Tree, r: Region): Option<Tree> {
    match t
    case Leaf => Some(Node(Leaf, r, Leaf))
    case Node(left, here, right) =>
      if CheckIova(here, r.iova, r.length) then None
      else if r.iova < here.iova then
        (match Add(left, r)
         case Some(l) => Some(Node(l, here, right))
         case None => None)
      else if r.iova > here.iova then
        (match Add(right, r)
         case Some(rt) => Some(Node(left, here, rt))
         case None => None)
      else None
  }

  /** Everything of one tree before everything of another. */
  function Join(a: Tree, b: Tree): Tree {
    match a
    case Leaf => b
    case Node(l, r, rt) => Node(l, r, Join(rt, b))
  }

  function Remove(t: Tree, iova: nat): Tree {
    match t
    case Leaf => Leaf
    case Node(l, r, rt) =>
      if iova < r.iova then Node(Remove(l, iova), r, rt)
      else if iova > r.iova then Node(l, r, Remove(rt, iova))
      else Join(l, rt)
  }

  function SetInUse(t: Tree, iova: nat, inUse: bool): Tree {
    match t
    case Leaf => Leaf
    case Node(l, r, rt) =>
      if iova < r.iova then Node(SetInUse(l, iova, inUse), r, rt)
      else if iova > r.iova then Node(l, r, SetInUse(rt, iova, inUse))
      else Node(l, r.(inUse := inUse), rt)
  }

  ghost predicate Below(rs: seq<Region>, bound: nat) {
    forall i :: 0 <= i < |rs| ==> rs[i].iova < bound && rs[i].End() <= bound
  }

  ghost predicate Above(rs: seq<Region>, r: Region) {
    forall i :: 0 <= i < |rs| ==> r.iova < rs[i].iova && r.End() <= rs[i].iova
  }

  /** What order means at a node. */
  lemma {:induction false} SortedNode(l: seq<Region>, r: Region, rt: seq<Region>)
    requires Sorted(l + [r] + rt)
    ensures Sorted(l) && Sorted(rt) && r.Valid()
    ensures Below(l, r.iova) && Above(rt, r)
  {
    var all := l + [r] + rt;
    assert all[|l|] == r;
    assert all[0..|l|] == l && all[|l| + 1..|all|] == rt;
  }

  /** One step down the tree loses no match. */
  lemma {:induction false} SearchDescends(l: seq<Region>, r: Region, rt: seq<Region>, iova: nat, size: nat)
    requires Sorted(l + [r] + rt) && iova + size < UINT64 && !CheckIova(r, iova, size)
    ensures Search(l + [r] + rt, iova, size) ==
      if iova < r.iova then Search(l, iova, size)
      else if iova > r.iova then Search(rt, iova, size)
      else None
  {
    SortedNode(l, r, rt);
    SearchConcat(l + [r], rt, iova, size);
    SearchConcat(l, [r], iova, size);
    assert Search([r], iova, size).None?;
    CheckIovaMeaning(r, iova, size);
    if iova <= r.iova {
      forall i | 0 <= i < |rt| ensures !CheckIova(rt[i], iova, size) { CheckIovaMeaning(rt[i], iova, size); }
      SearchFails(rt, iova, size);
    }
    if iova >= r.iova {
      forall i | 0 <= i < |l| ensures !CheckIova(l[i], iova, size) { CheckIovaMeaning(l[i], iova, size); }
      SearchFails(l, iova, size);
    }
  }

  /** The descent finds what linear search finds. */
  method Find(root: Tree, iova: nat, size: nat) returns (found: Option<Region>)
    requires Sorted(Regions(root)) && iova + size < UINT64
    ensures found == Search(Regions(root), iova, size)
    ensures found.Some? ==> CheckIova(found.value, iova, size) && found.value in Regions(root)
    ensures found.None? <==> NoneMatch(Regions(root), iova, size)
  {
    SearchFails(Regions(root), iova, size);
    if Search(Regions(root), iova, size).Some? {
      var i := SearchFound(Regions(root), iova, size);
    }
    var node := root;
    while node.Node?
      invariant Sorted(Regions(node))
      invariant Search(Regions(node), iova, size) == Search(Regions(root), iova, size)
      decreases node
    {
      var region := node.region;
      SortedNode(Regions(node.left), region, Regions(node.right));
      if CheckIova(region, iova, size) {
        SearchUnique(Regions(node), iova, size, |Regions(node.left)|);
        return Some(region);
      }
      SearchDescends(Regions(node.left), region, Regions(node.right), iova, size);
      if iova < region.iova {
        node := node.left;
      } else if iova > region.iova {
        node := node.right;
      } else {
        break;
      }
    }
    return None;
  }

  /** Adding is refused exactly when a region of the tree holds the new one or starts where it
      does. */
  lemma {:induction false} AddRefusesIff(t: Tree, r: Region)
    requires Sorted(Regions(t)) && 0 < r.length && r.iova + r.length < UINT64
    ensures Add(t, r).None? <==> exists i :: 0 <= i < |Regions(t)| && Clashes(Regions(t)[i], r)
  {
    AddRefuses(t, r);
    var rs := Regions(t);
    SearchFails(rs, r.iova, r.length);
    SearchFails(rs, r.iova, 0);
    forall i | 0 <= i < |rs| ensures Clashes(rs[i], r) <==> CheckIova(rs[i], r.iova, r.length) || CheckIova(rs[i], r.iova, 0) {
      CheckIovaMeaning(rs[i], r.iova, r.length);
      CheckIovaMeaning(rs[i], r.iova, 0);
    }
  }

  /** One region holds another, or they start at the same address. */
  predicate Clashes(here: Region, r: Region) {
    (here.iova <= r.iova && r.End() <= here.End()) || here.iova == r.iova
  }

  lemma {:induction false} AddRefuses(t: Tree, r: Region)
    requires Sorted(Regions(t)) && 0 < r.length && r.iova + r.length < UINT64
    ensures Add(t, r).None? <==> Search(Regions(t), r.iova, r.length).Some? || Search(Regions(t), r.iova, 0).Some?
  {
    match t
    case Leaf =>
    case Node(left, here, right) =>
      var l, rt := Regions(left), Regions(right);
      SortedNode(l, here, rt);
      CheckIovaMeaning(here, r.iova, 0);
      assert (l + [here] + rt)[|l|] == here;
      if CheckIova(here, r.iova, r.length) {
        SearchUnique(Regions(t), r.iova, r.length, |l|);
      } else if r.iova == here.iova {
        SearchUnique(Regions(t), r.iova, 0, |l|);
      } else {
        SearchDescends(l, here, rt, r.iova, r.length);
        SearchDescends(l, here, rt, r.iova, 0);
        if r.iova < here.iova {
          AddRefuses(left, r);
        } else {
          AddRefuses(right, r);
        }
      }
  }

  // --- The tree operations are the list operations ---

  lemma {:induction false} InsertAfter(a: seq<Region>, b: seq<Region>, r: Region)
    requires forall i :: 0 <= i < |a| ==> a[i].iova <= r.iova
    ensures Insert(a + b, r) == a + Insert(b, r)
  {
    if a == [] {
      assert a + b == b && a + Insert(b, r) == Insert(b, r);
    } else {
      assert (a + b)[1..] == a[1..] + b;
      InsertAfter(a[1..], b, r);
      assert a + Insert(b, r) == [a[0]] + (a[1..] + Insert(b, r));
    }
  }

  lemma {:induction false} InsertBefore(a: seq<Region>, b: seq<Region>, r: Region)
    requires b != [] && r.iova < b[0].iova
    ensures Insert(a + b, r) == Insert(a, r) + b
  {
    if a == [] {
      assert a + b == b;
    } else {
      assert (a + b)[1..] == a[1..] + b && (a + b)[0] == a[0];
      InsertBefore(a[1..], b, r);
      assert [r] + (a + b) == [r] + a + b;
      assert [a[0]] + (Insert(a[1..], r) + b) == [a[0]] + Insert(a[1..], r) + b;
    }
  }

  lemma {:induction false} DisjointNode(r: Region, l: seq<Region>, here: Region, rt: seq<Region>)
    requires Disjoint(r, l + [here] + rt)
    ensures Disjoint(r, l) && Disjoint(r, rt) && (r.End() <= here.iova || here.End() <= r.iova)
  {
    var all := l + [here] + rt;
    assert all[|l|] == here;
    assert forall i :: 0 <= i < |l| ==> l[i] == all[i];
    assert forall i :: 0 <= i < |rt| ==> rt[i] == all[|l| + 1 + i];
  }

  lemma {:induction false} InsertLeft(l: seq<Region>, here: Region, rt: seq<Region>, r: Region)
    requires r.iova < here.iova
    ensures Insert(l + [here] + rt, r) == Insert(l, r) + [here] + rt
  {
    InsertBefore(l, [here] + rt, r);
    assert l + [here] + rt == l + ([here] + rt);
    assert Insert(l, r) + ([here] + rt) == Insert(l, r) + [here] + rt;
  }

  lemma {:induction false} InsertRight(l: seq<Region>, here: Region, rt: seq<Region>, r: Region)
    requires Below(l, here.iova) && here.iova < r.iova
    ensures Insert(l + [here] + rt, r) == l + [here] + Insert(rt, r)
  {
    InsertAfter(l + [here], rt, r);
  }

  /** A region that overlaps no other is always accepted, in its place. */
  lemma {:induction false} AddIsInsert(t: Tree, r: Region)
    requires Sorted(Regions(t)) && r.Valid() && Disjoint(r, Regions(t))
    ensures Add(t, r).Some? && Regions(Add(t, r).value) == Insert(Regions(t), r)
  {
    if t.Leaf? {
    } else {
      var l, here, rt := Regions(t.left), t.region, Regions(t.right);
      SortedNode(l, here, rt);
      DisjointNode(r, l, here, rt);
      CheckIovaMeaning(here, r.iova, r.length);
      if r.iova < here.iova {
        AddIsInsert(t.left, r);
        InsertLeft(l, here, rt, r);
      } else {
        AddIsInsert(t.right, r);
        InsertRight(l, here, rt, r);
      }
    }
  }

  lemma {:induction false} WithoutConcat(a: seq<Region>, b: seq<Region>, iova: nat)
    ensures Without(a + b, iova) == Without(a, iova) + Without(b, iova)
  {
    if a == [] {
      assert a + b == b;
    } else {
      assert (a + b)[1..] == a[1..] + b;
      WithoutConcat(a[1..], b, iova);
    }
  }

  lemma {:induction false} WithoutAbsent(rs: seq<Region>, iova: nat)
    requires forall i :: 0 <= i < |rs| ==> rs[i].iova != iova
    ensures Without(rs, iova) == rs
  {
    if rs == [] {
    } else {
      WithoutAbsent(rs[1..], iova);
    }
  }

  lemma {:induction false} JoinRegions(a: Tree, b: Tree)
    ensures Regions(Join(a, b)) == Regions(a) + Regions(b)
  {
    if a.Leaf? {
    } else {
      JoinRegions(a.right, b);
    }
  }

  lemma {:induction false} WithoutNode(l: seq<Region>, r: Region, rt: seq<Region>, iova: nat)
    requires Below(l, r.iova) && Above(rt, r)
    ensures Without(l + [r] + rt, iova) ==
      if iova < r.iova then Without(l, iova) + [r] + rt
      else if iova > r.iova then l + [r] + Without(rt, iova)
      else l + rt
  {
    WithoutConcat(l + [r], rt, iova);
    WithoutConcat(l, [r], iova);
    assert Without([r], iova) == if r.iova == iova then [] else [r];
    if iova < r.iova {
      WithoutAbsent(rt, iova);
    } else if iova > r.iova {
      WithoutAbsent(l, iova);
    } else {
      WithoutAbsent(l, iova);
      WithoutAbsent(rt, iova);
      assert l + [] == l;
    }
  }

  lemma {:induction false} RemoveIsWithout(t: Tree, iova: nat)
    requires Sorted(Regions(t))
    ensures Regions(Remove(t, iova)) == Without(Regions(t), iova)
  {
    if t.Leaf? {
    } else {
      var l, r, rt := Regions(t.left), t.region, Regions(t.right);
      SortedNode(l, r, rt);
      WithoutNode(l, r, rt, iova);
      if iova < r.iova {
        RemoveIsWithout(t.left, iova);
      } else if iova > r.iova {
        RemoveIsWithout(t.right, iova);
      } else {
        JoinRegions(t.left, t.right);
      }
    }
  }

  lemma {:induction false} SetInUseIsMark(t: Tree, iova: nat, inUse: bool)
    requires Sorted(Regions(t))
    ensures Regions(SetInUse(t, iova, inUse)) == Mark(Regions(t), iova, inUse)
  {
    if t.Leaf? {
    } else {
      var l, r, rt := Regions(t.left), t.region, Regions(t.right);
      SortedNode(l, r, rt);
      SetInUseIsMark(t.left, iova, inUse);
      SetInUseIsMark(t.right, iova, inUse);
      if iova <= r.iova {
        MarkAbsent(rt, iova, inUse);
      }
      if iova >= r.iova {
        MarkAbsent(l, iova, inUse);
      }
    }
  }

  lemma {:induction false} MarkAbsent(rs: seq<Region>, iova: nat, inUse: bool)
    requires forall i :: 0 <= i < |rs| ==> rs[i].iova != iova
    ensures Mark(rs, iova, inUse) == rs
  {
  }
}
