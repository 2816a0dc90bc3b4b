// Whole allocations entering and leaving the region list.

module Allocations {
  import opened MachineTypes
  import opened Backing
  import opened Regions
  import opened RegionEdits
  import opened Layout

  // ---- appending a region and sorting by address ----

  // What std::sort makes of the sorted list with one region appended (see SortedPermutationUnique).
  function SortedInsert(rs: seq<Region>, r: Region): seq<Region> {
    if rs == [] || r.address < rs[0].address then [r] + rs
    else [rs[0]] + SortedInsert(rs[1..], r)
  }

  ghost predicate SortedByAddress(rs: seq<Region>) {
    forall i, j :: 0 <= i < j < |rs| ==> rs[i].address < rs[j].address
  }

  lemma {:induction false} InsertSplits(rs: seq<Region>, r: Region) returns (k: nat)
    ensures k <= |rs| && SortedInsert(rs, r) == rs[..k] + [r] + rs[k..]
    ensures forall i :: 0 <= i < k ==> rs[i].address <= r.address
    ensures k < |rs| ==> r.address < rs[k].address
  {
    if rs == [] || r.address < rs[0].address {
      k := 0;
    } else {
      var j := InsertSplits(rs[1..], r);
      k := j + 1;
      assert rs[..k] == [rs[0]] + rs[1..][..j] && rs[k..] == rs[1..][j..];
      assert forall i :: 1 <= i < k ==> rs[i] == rs[1..][i - 1];
    }
  }

  lemma {:induction false} InsertContents(rs: seq<Region>, r: Region)
    ensures multiset(SortedInsert(rs, r)) == multiset(rs + [r])
  {
    var k := InsertSplits(rs, r);
    assert rs == rs[..k] + rs[k..];
  }

  // Sorting by address has one possible outcome, since all addresses differ.
  lemma {:induction false} SortedPermutationUnique(xs: seq<Region>, ys: seq<Region>)
    requires SortedByAddress(xs) && SortedByAddress(ys) && multiset(xs) == multiset(ys)
    ensures xs == ys
  {
    assert |xs| == |multiset(xs)| == |multiset(ys)| == |ys|;
    if xs != [] {
      SameHead(xs, ys);
      assert xs == [xs[0]] + xs[1..] && ys == [ys[0]] + ys[1..];
      assert multiset(xs[1..]) == multiset(xs) - multiset{xs[0]};
      assert multiset(ys[1..]) == multiset(ys) - multiset{ys[0]};
      SortedPermutationUnique(xs[1..], ys[1..]);
    }
  }

  lemma SameHead(xs: seq<Region>, ys: seq<Region>)
    requires SortedByAddress(xs) && SortedByAddress(ys) && multiset(xs) == multiset(ys) && xs != [] && ys != []
    ensures xs[0] == ys[0]
  {
    assert xs[0] in multiset(ys) && ys[0] in multiset(xs);
    assert xs[0] in ys && ys[0] in xs;
  }

  // A region over free addresses, inserted in order, changes exactly those addresses.
  lemma {:induction false} InsertLayout(rs: seq<Region>, r: Region, limit: int)
    requires ListOk(rs, limit) && RegionOk(r, limit)
    requires forall a :: r.Contains(a) ==> At(rs, a).Free?
    ensures ListOk(SortedInsert(rs, r), limit)
    ensures forall a :: At(SortedInsert(rs, r), a) == if r.Contains(a) then CellOf(r, a) else At(rs, a)
    ensures SortedByAddress(SortedInsert(rs, r)) && |SortedInsert(rs, r)| == |rs| + 1
  {
    var k := InsertSplits(rs, r);
    forall i | 0 <= i < |rs| ensures rs[i].End() <= r.address || r.End() <= rs[i].address {
      ApartFromFree(rs, i, r, limit);
    }
    InsertOrdered(rs, r, k, limit);
    forall a ensures At(SortedInsert(rs, r), a) == if r.Contains(a) then CellOf(r, a) else At(rs, a) {
      AtConcat(rs[..k] + [r], rs[k..], a);
      AtConcat(rs[..k], [r], a);
      assert rs == rs[..k] + rs[k..];
      AtConcat(rs[..k], rs[k..], a);
      assert [r][1..] == [];
    }
  }

  lemma InsertOrdered(rs: seq<Region>, r: Region, k: nat, limit: int)
    requires ListOk(rs, limit) && RegionOk(r, limit) && k <= |rs|
    requires forall i :: 0 <= i < |rs| ==> rs[i].End() <= r.address || r.End() <= rs[i].address
    requires forall i :: 0 <= i < k ==> rs[i].address <= r.address
    requires k < |rs| ==> r.address < rs[k].address
    ensures var ts := rs[..k] + [r] + rs[k..]; ListOk(ts, limit) && SortedByAddress(ts)
  {
    var ts := rs[..k] + [r] + rs[k..];
    forall i | 0 <= i < |ts| ensures RegionOk(ts[i], limit) {
      assert ts[i] == if i < k then rs[i] else if i == k then r else rs[i - 1];
    }
    forall i, j | 0 <= i < j < |ts| ensures ts[i].End() <= ts[j].address {
      var x := if i < k then rs[i] else if i == k then r else rs[i - 1];
      var y := if j < k then rs[j] else if j == k then r else rs[j - 1];
      assert ts[i] == x && ts[j] == y;
      if i == k && j > k + 1 { assert rs[k].End() <= rs[j - 1].address; }
    }
    forall i, j | 0 <= i < j < |ts| ensures ts[i].address < ts[j].address {
      assert ts[i].End() <= ts[j].address && RegionOk(ts[i], limit);
    }
  }

  lemma {:induction false} ApartFromFree(rs: seq<Region>, i: nat, r: Region, limit: int)
    requires ListOk(rs, limit) && i < |rs| && r.size > 0
    requires forall a :: r.Contains(a) ==> At(rs, a).Free?
    ensures rs[i].End() <= r.address || r.End() <= rs[i].address
  {
    assert RegionOk(rs[i], limit);
    var a := Max(rs[i].address, r.address);
    if rs[i].Contains(a) {
      AtIndex(rs, i, a);
      assert !r.Contains(a);
    }
  }

  ghost predicate RangeFree(rs: seq<Region>, lo: int, hi: int) {
    forall a :: lo <= a < hi ==> At(rs, a).Free?
  }

  // ts is rs with one new reserved allocation at [start, end).
  ghost predicate Reserving(rs: seq<Region>, ts: seq<Region>, start: int, end: int, name: string) {
    && RangeFree(rs, start, end)
    && (forall a :: !(start <= a < end) ==> At(ts, a) == At(rs, a))
    && (forall a :: start <= a < end ==> At(ts, a) == Mapped(start, Reserved, NO_FLAGS, name, Nowhere))
  }

  // The base of a new allocation is fresh, because every allocation covers its own base.
  lemma {:induction false} FreshBase(rs: seq<Region>, start: int, a: int)
    requires AllocationsTile(rs) && At(rs, start).Free? && At(rs, a).Mapped?
    ensures At(rs, a).base != start
  {
  }

  lemma {:induction false} InsertKeepsGaps(rs: seq<Region>, r: Region, limit: int)
    requires ListOk(rs, limit) && Coalesced(rs) && AllocationsTile(rs)
    requires r.size > 0 && r.base == r.address && At(rs, r.address).Free?
    ensures Coalesced(SortedInsert(rs, r))
  {
    var k := InsertSplits(rs, r);
    var ts := SortedInsert(rs, r);
    NewBase(rs, r, limit);
    hide SortedInsert, At, ListOk, AllocationsTile, Ordered, Mergeable;
    forall i, j | 0 <= i && j == i + 1 < |ts| ensures !Mergeable(ts[i], ts[j]) {
      if i == k || j == k {
        OtherBase(ts[i], ts[j]);
      } else if j < k {
        assert ts[i] == rs[i] && ts[j] == rs[j];
      } else {
        assert ts[i] == rs[i - 1] && ts[j] == rs[j - 1];
      }
    }
  }

  lemma OtherBase(l: Region, r: Region)
    requires l.base != r.base
    ensures !Mergeable(l, r)
  {
  }

  lemma {:induction false} NewBase(rs: seq<Region>, r: Region, limit: int)
    requires ListOk(rs, limit) && AllocationsTile(rs) && r.base == r.address && At(rs, r.address).Free?
    ensures forall i :: 0 <= i < |rs| ==> rs[i].base != r.base
  {
    forall i | 0 <= i < |rs| ensures rs[i].base != r.base {
      assert RegionOk(rs[i], limit);
      AtIndex(rs, i, rs[i].address);
      FreshBase(rs, r.address, rs[i].address);
    }
  }

  lemma ReservingKeeps(rs: seq<Region>, ts: seq<Region>, start: int, end: int, name: string, limit: int)
    requires AllocationsTile(rs) && NoAlias(rs) && Reserving(rs, ts, start, end, name)
    ensures AllocationsTile(ts) && NoAlias(ts) && CommittedIn(ts, 0, limit) == CommittedIn(rs, 0, limit)
    ensures Bytes(ts) == Bytes(rs)
  {
    SamePlaces(rs, ts, limit);
    forall a, c | At(ts, a).Mapped? && At(ts, a).base <= c <= a
      ensures At(ts, c).Mapped? && At(ts, c).base == At(ts, a).base && At(ts, c).name == At(ts, a).name
    {
      ReservingTile(rs, ts, start, end, name, a, c);
    }
  }

  lemma {:induction false} ReservingTile(rs: seq<Region>, ts: seq<Region>, start: int, end: int, name: string, a: int,
                                         c: int)
    requires AllocationsTile(rs) && Reserving(rs, ts, start, end, name)
    requires At(ts, a).Mapped? && At(ts, a).base <= c <= a
    ensures At(ts, c).Mapped? && At(ts, c).base == At(ts, a).base && At(ts, c).name == At(ts, a).name
  {
    if start <= a < end {
      assert At(ts, c) == Mapped(start, Reserved, NO_FLAGS, name, Nowhere);
    } else {
      assert At(ts, a) == At(rs, a);
      assert At(rs, c).Mapped?;
    }
  }

  // ---- removing an allocation ----

  // The list without the regions of one allocation.
  function Without(rs: seq<Region>, base: u64): seq<Region> {
    if rs == [] then []
    else if rs[0].base == base then Without(rs[1..], base)
    else [rs[0]] + Without(rs[1..], base)
  }

  lemma {:induction false} WithoutMember(rs: seq<Region>, base: u64, i: nat) returns (k: nat)
    requires i < |Without(rs, base)|
    ensures i <= k < |rs| && rs[k] == Without(rs, base)[i] && rs[k].base != base
    ensures i == 0 ==> forall j :: 0 <= j < k ==> rs[j].base == base
  {
    if rs[0].base == base {
      k := WithoutMember(rs[1..], base, i);
      k := k + 1;
    } else if i == 0 {
      k := 0;
    } else {
      k := WithoutMember(rs[1..], base, i - 1);
      k := k + 1;
    }
  }

  lemma {:induction false} WithoutLayout(rs: seq<Region>, base: u64, limit: int)
    requires ListOk(rs, limit)
    ensures ListOk(Without(rs, base), limit) && |Without(rs, base)| <= |rs|
    ensures forall a :: At(Without(rs, base), a) ==
                        if At(rs, a).Mapped? && At(rs, a).base == base then Free else At(rs, a)
  {
    if rs != [] {
      assert ListOk(rs[1..], limit);
      WithoutLayout(rs[1..], base, limit);
      forall a | rs[0].Contains(a) ensures At(rs[1..], a).Free? {
        TailFree(rs, a);
      }
      forall i | 0 <= i < |Without(rs[1..], base)| ensures rs[0].End() <= Without(rs[1..], base)[i].address {
        var k := WithoutMember(rs[1..], base, i);
        assert rs[1..][k] == rs[k + 1];
      }
    }
  }

  lemma {:induction false} WithoutKeepsGaps(rs: seq<Region>, base: u64, limit: int)
    requires ListOk(rs, limit) && Coalesced(rs)
    ensures Coalesced(Without(rs, base))
  {
    if rs != [] {
      assert ListOk(rs[1..], limit) && Coalesced(rs[1..]);
      WithoutKeepsGaps(rs[1..], base, limit);
      var rest := Without(rs[1..], base);
      if rs[0].base != base && rest != [] {
        var k := WithoutMember(rs[1..], base, 0);
        assert rest[0] == rs[k + 1];
        if k > 0 {
          assert rs[0].End() <= rs[1].address && rs[1].End() <= rs[k + 1].address;
        }
        assert !Mergeable(rs[0], rest[0]);
        assert Without(rs, base)[1..] == rest;
        forall i, j | 0 <= i && j == i + 1 < |rest| + 1 ensures !Mergeable(([rs[0]] + rest)[i], ([rs[0]] + rest)[j]) {
          if i > 0 { assert !Mergeable(rest[i - 1], rest[j - 1]); }
        }
      }
    }
  }

  // Removing a fresh allocation undoes its insertion.
  lemma {:induction false} WithoutInserted(rs: seq<Region>, r: Region)
    requires forall i :: 0 <= i < |rs| ==> rs[i].base != r.base
    ensures Without(SortedInsert(rs, r), r.base) == rs
  {
    if rs == [] || r.address < rs[0].address {
      assert ([r] + rs)[1..] == rs;
      WithoutAbsent(rs, r.base);
    } else {
      WithoutInserted(rs[1..], r);
      assert SortedInsert(rs, r)[1..] == SortedInsert(rs[1..], r);
    }
  }

  lemma {:induction false} WithoutAbsent(rs: seq<Region>, base: u64)
    requires forall i :: 0 <= i < |rs| ==> rs[i].base != base
    ensures Without(rs, base) == rs
  {
    if rs != [] {
      WithoutAbsent(rs[1..], base);
    }
  }

  // ts is rs with one allocation gone.
  ghost predicate Releasing(rs: seq<Region>, ts: seq<Region>, base: int) {
    forall a :: At(ts, a) == if At(rs, a).Mapped? && At(rs, a).base == base then Free else At(rs, a)
  }

  lemma ReleasingKeeps(rs: seq<Region>, ts: seq<Region>, base: int)
    requires AllocationsTile(rs) && NoAlias(rs) && Releasing(rs, ts, base)
    ensures AllocationsTile(ts) && NoAlias(ts)
  {
    forall a, c | At(ts, a).Mapped? && At(ts, a).base <= c <= a
      ensures At(ts, c).Mapped? && At(ts, c).base == At(ts, a).base && At(ts, c).name == At(ts, a).name
    {
      assert At(ts, a) == At(rs, a) && At(rs, c).Mapped? && At(rs, c).base == At(rs, a).base;
    }
    forall a, b | PlaceOf(At(ts, a)).Place? && PlaceOf(At(ts, a)) == PlaceOf(At(ts, b)) ensures a == b {
      assert PlaceOf(At(rs, a)) == PlaceOf(At(rs, b));
    }
  }

  // ---- the committed-byte counter as a sum over regions ----

  function CommittedSize(r: Region): nat {
    if r.state == Committed then r.size else 0
  }

  ghost function CommittedSum(rs: seq<Region>): nat {
    if rs == [] then 0 else CommittedSize(rs[0]) + CommittedSum(rs[1..])
  }

  lemma {:induction false} CommittedSumConcat(xs: seq<Region>, ys: seq<Region>)
    ensures CommittedSum(xs + ys) == CommittedSum(xs) + CommittedSum(ys)
  {
    if xs == [] {
      assert xs + ys == ys;
    } else {
      assert (xs + ys)[1..] == xs[1..] + ys;
      CommittedSumConcat(xs[1..], ys);
    }
  }

  lemma {:induction false} TailFree(rs: seq<Region>, a: int)
    requires Ordered(rs) && rs != [] && rs[0].Contains(a)
    ensures At(rs[1..], a).Free?
  {
    AtFree(rs[1..], a);
    assert forall i :: 0 <= i < |rs[1..]| ==> rs[0].End() <= rs[1..][i].address;
  }

  // The sum of committed region sizes is the number of committed addresses.
  lemma {:induction false} CommittedSumCounts(rs: seq<Region>, limit: int)
    requires ListOk(rs, limit)
    ensures CommittedSum(rs) == |CommittedIn(rs, 0, limit)|
  {
    if rs == [] {
      assert CommittedIn(rs, 0, limit) == {};
    } else {
      hide ListOk, CommittedIn;
      TailListOk(rs, limit);
      CommittedSumCounts(rs[1..], limit);
      HeadCommitted(rs, limit);
    }
  }

  lemma TailListOk(rs: seq<Region>, limit: int)
    requires ListOk(rs, limit) && rs != []
    ensures RegionOk(rs[0], limit) && ListOk(rs[1..], limit)
  {
  }

  // The first region's addresses come on top of those of the others.
  lemma HeadCommitted(rs: seq<Region>, limit: int)
    requires ListOk(rs, limit) && rs != []
    ensures var here := Interval(rs[0].address, rs[0].End());
            && CommittedIn(rs, 0, limit) ==
                 (if rs[0].state == Committed then here else {}) + CommittedIn(rs[1..], 0, limit)
            && here !! CommittedIn(rs[1..], 0, limit)
  {
    var r := rs[0];
    TailListOk(rs, limit);
    forall a | r.Contains(a) ensures At(rs[1..], a).Free? {
      TailFree(rs, a);
    }
  }
}
