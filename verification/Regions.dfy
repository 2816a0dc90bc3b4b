// The region list of the virtual memory manager, and its meaning: one cell per guest address.

module Regions {
  import opened MachineTypes
  import opened Backing

  const ALLOCATION_GRANULARITY: u64 := 0x1_0000
  const MAX_SINGLE_COMMIT: u64 := 128 * 1024 * 1024
  const MAX_REGIONS := 65536

  // The source's third state, free, never occurs in the list: an address is free when no region covers it.
  datatype State = Reserved | Committed

  datatype Flags = Flags(read: bool, write: bool, exec: bool, guard: bool)

  const NO_FLAGS := Flags(false, false, false, false)

  datatype Region = Region(address: u64, size: u64, base: u64, state: State, flags: Flags, name: string,
                           data: seq<Slice>)
  {
    function End(): int { address + size }
    predicate Contains(a: int) { address <= a < address + size }
  }

  // What one guest address looks like, whatever regions and windows describe it.
  datatype Cell = Free | Mapped(base: int, state: State, flags: Flags, name: string, place: Place)

  predicate IsCommitted(c: Cell) {
    c.Mapped? && c.state.Committed?
  }

  function CellOf(r: Region, a: int): Cell {
    Mapped(r.base, r.state, r.flags, r.name, SliceAt(r.data, a - r.address))
  }

  function At(rs: seq<Region>, a: int): Cell {
    if rs == [] then Free
    else if rs[0].Contains(a) then CellOf(rs[0], a)
    else At(rs[1..], a)
  }

  ghost predicate SameLayout(rs: seq<Region>, ts: seq<Region>) {
    forall a: int :: At(rs, a) == At(ts, a)
  }

  ghost predicate BackingOk(r: Region) {
    if r.state.Committed? then SlicesOk(r.data) && Total(r.data) == r.size else r.data == []
  }

  ghost predicate PageAligned(r: Region) {
    r.address % PAGE_SIZE == 0 && r.size % PAGE_SIZE == 0
  }

  ghost predicate RegionOk(r: Region, limit: int) {
    && r.size > 0 && r.End() <= limit
    && PageAligned(r)
    && BackingOk(r) && Maximal(r.data)
  }

  ghost predicate Ordered(rs: seq<Region>) {
    forall i, j :: 0 <= i < j < |rs| ==> rs[i].End() <= rs[j].address
  }

  ghost predicate ListOk(rs: seq<Region>, limit: int) {
    && limit <= U64_MAX
    && (forall i :: 0 <= i < |rs| ==> RegionOk(rs[i], limit))
    && Ordered(rs)
  }

  predicate Mergeable(l: Region, r: Region) {
    && l.address + l.size == r.address && l.base == r.base
    && l.state == r.state && l.flags == r.flags && l.name == r.name
  }

  ghost predicate Coalesced(rs: seq<Region>) {
    forall i, j :: 0 <= i && j == i + 1 < |rs| ==> !Mergeable(rs[i], rs[j])
  }

  // ---- lookups ----

  lemma {:induction false} AtConcat(xs: seq<Region>, ys: seq<Region>, a: int)
    ensures At(xs + ys, a) == if At(xs, a).Mapped? then At(xs, a) else At(ys, a)
  {
    if xs == [] {
      assert xs + ys == ys;
    } else {
      assert (xs + ys)[1..] == xs[1..] + ys;
      AtConcat(xs[1..], ys, a);
    }
  }

  lemma {:induction false} AtFree(rs: seq<Region>, a: int)
    ensures At(rs, a).Free? <==> forall i :: 0 <= i < |rs| ==> !rs[i].Contains(a)
  {
    if rs != [] {
      AtFree(rs[1..], a);
      assert forall i :: 1 <= i < |rs| ==> rs[i] == rs[1..][i - 1];
      assert forall i :: 0 <= i < |rs| - 1 ==> rs[1..][i] == rs[i + 1];
    }
  }

  lemma {:induction false} AtIndex(rs: seq<Region>, i: int, a: int)
    requires Ordered(rs) && 0 <= i < |rs| && rs[i].Contains(a)
    ensures At(rs, a) == CellOf(rs[i], a)
  {
    if i > 0 {
      assert rs[0].End() <= rs[i].address;
      AtIndex(rs[1..], i - 1, a);
    }
  }

  lemma MappedIndex(rs: seq<Region>, a: int) returns (i: nat)
    requires Ordered(rs) && At(rs, a).Mapped?
    ensures i < |rs| && rs[i].Contains(a) && At(rs, a) == CellOf(rs[i], a)
  {
    AtFree(rs, a);
    i :| 0 <= i < |rs| && rs[i].Contains(a);
    AtIndex(rs, i, a);
  }

  lemma {:induction false} AtBounds(rs: seq<Region>, limit: int, a: int)
    requires ListOk(rs, limit) && At(rs, a).Mapped?
    ensures 0 <= a < limit
    ensures At(rs, a).place.Place? <==> IsCommitted(At(rs, a))
    ensures At(rs, a).place.Place? ==> 0 <= At(rs, a).place.index < At(rs, a).place.buffer.Length
  {
    var i := MappedIndex(rs, a);
    SliceAtBound(rs[i].data, a - rs[i].address);
  }

  // Swapping one region for pieces that cover the same addresses changes only those addresses.
  lemma {:induction false} AtReplace(rs: seq<Region>, i: nat, ps: seq<Region>, a: int)
    requires Ordered(rs) && i < |rs|
    requires forall b :: At(ps, b).Mapped? <==> rs[i].Contains(b)
    ensures At(rs[..i] + ps + rs[i + 1..], a) == if rs[i].Contains(a) then At(ps, a) else At(rs, a)
  {
    AtConcat(rs[..i] + ps, rs[i + 1..], a);
    AtConcat(rs[..i], ps, a);
    assert rs == rs[..i] + [rs[i]] + rs[i + 1..];
    AtConcat(rs[..i] + [rs[i]], rs[i + 1..], a);
    AtConcat(rs[..i], [rs[i]], a);
    assert At([rs[i]], a).Mapped? == rs[i].Contains(a);
    AtFree(rs[..i], a);
    if rs[i].Contains(a) {
      assert forall k :: 0 <= k < i ==> !rs[..i][k].Contains(a);
    }
  }

  // ---- the list is determined by its per-address meaning ----

  lemma FirstRegion(rs: seq<Region>, limit: int, ts: seq<Region>)
    requires ListOk(rs, limit) && ListOk(ts, limit) && Coalesced(rs) && SameLayout(rs, ts)
    requires rs != [] && ts != []
    ensures ts[0].address >= rs[0].address
    ensures ts[0].address == rs[0].address ==> rs[0].size >= ts[0].size
  {
    assert At(ts, ts[0].address) == CellOf(ts[0], ts[0].address);
    var i := MappedIndex(rs, ts[0].address);
    assert rs[0].address <= rs[i].address by { assert i > 0 ==> rs[0].End() <= rs[i].address; }
    if ts[0].address == rs[0].address && rs[0].size < ts[0].size {
      var e := rs[0].End();
      AtIndex(ts, 0, e);
      AtIndex(ts, 0, ts[0].address);
      AtIndex(rs, 0, ts[0].address);
      assert At(rs, e) == At(ts, e);
      var j := MappedIndex(rs, e);
      NextIsAdjacent(rs, limit, j);
    }
  }

  lemma NextIsAdjacent(rs: seq<Region>, limit: int, j: nat)
    requires ListOk(rs, limit) && j < |rs| && rs[j].Contains(rs[0].End())
    ensures j == 1 && rs[1].address == rs[0].End()
  {
    assert j != 0;
    assert rs[0].End() <= rs[1].address;
  }

  lemma {:induction false} EmptyLayout(ts: seq<Region>, limit: int)
    requires ListOk(ts, limit)
    requires forall a :: At(ts, a).Free?
    ensures ts == []
  {
    if ts != [] {
      AtFree(ts, ts[0].address);
    }
  }

  lemma {:induction false} TailLayout(rs: seq<Region>, ts: seq<Region>, a: int)
    requires Ordered(rs) && Ordered(ts) && rs != [] && ts != [] && rs[0].address == ts[0].address
             && rs[0].size == ts[0].size
    requires At(rs, a) == At(ts, a)
    ensures At(rs[1..], a) == At(ts[1..], a)
  {
    if rs[0].Contains(a) {
      AtFree(rs[1..], a);
      AtFree(ts[1..], a);
      assert forall i :: 0 <= i < |rs[1..]| ==> rs[0].End() <= rs[1..][i].address;
      assert forall i :: 0 <= i < |ts[1..]| ==> ts[0].End() <= ts[1..][i].address;
    }
  }

  // Two coalesced lists with the same per-address meaning are equal, windows included.
  lemma {:induction false} CanonicalUnique(rs: seq<Region>, ts: seq<Region>, limit: int)
    requires ListOk(rs, limit) && ListOk(ts, limit) && Coalesced(rs) && Coalesced(ts)
    requires SameLayout(rs, ts)
    ensures rs == ts
  {
    if rs == [] {
      EmptyLayout(ts, limit);
    } else if ts == [] {
      EmptyLayout(rs, limit);
    } else {
      FirstRegion(rs, limit, ts);
      FirstRegion(ts, limit, rs);
      FirstRegionData(rs, ts, limit);
      forall a ensures At(rs[1..], a) == At(ts[1..], a) {
        TailLayout(rs, ts, a);
      }
      CanonicalUnique(rs[1..], ts[1..], limit);
    }
  }

  lemma FirstRegionData(rs: seq<Region>, ts: seq<Region>, limit: int)
    requires ListOk(rs, limit) && ListOk(ts, limit) && SameLayout(rs, ts) && rs != [] && ts != []
    requires rs[0].address == ts[0].address && rs[0].size == ts[0].size
    ensures rs[0] == ts[0]
  {
    var r, t := rs[0], ts[0];
    assert At(rs, r.address) == CellOf(r, r.address) && At(ts, r.address) == CellOf(t, r.address);
    forall k | 0 <= k ensures SliceAt(r.data, k) == SliceAt(t.data, k) {
      if k < r.size {
        assert At(rs, r.address + k) == CellOf(r, r.address + k) && At(ts, r.address + k) == CellOf(t, r.address + k);
      } else {
        SliceAtBound(r.data, k);
        SliceAtBound(t.data, k);
      }
    }
    MaximalUnique(r.data, t.data);
  }
}
