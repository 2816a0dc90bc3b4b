// Edits of a region list and what they do to the per-address layout: splitting a region, joining two
// neighbours, changing one region's state or flags, inserting and removing allocations.

module RegionEdits {
  import opened MachineTypes
  import opened Backing
  import opened Regions

  // ---- swapping a stretch of the list for another ----

  lemma AtSwap(xs: seq<Region>, ms: seq<Region>, ps: seq<Region>, ys: seq<Region>)
    requires SameLayout(ms, ps)
    ensures SameLayout(xs + ms + ys, xs + ps + ys)
  {
    forall a ensures At(xs + ms + ys, a) == At(xs + ps + ys, a) {
      AtConcat(xs + ms, ys, a);
      AtConcat(xs, ms, a);
      AtConcat(xs + ps, ys, a);
      AtConcat(xs, ps, a);
    }
  }

  lemma ListSwap(xs: seq<Region>, ms: seq<Region>, ps: seq<Region>, ys: seq<Region>, limit: int)
    requires ListOk(xs + ms + ys, limit) && ms != [] && ListOk(ps, limit)
    requires forall i :: 0 <= i < |ps| ==> ms[0].address <= ps[i].address && ps[i].End() <= ms[|ms| - 1].End()
    ensures ListOk(xs + ps + ys, limit)
  {
    forall i | 0 <= i < |xs + ps + ys| ensures RegionOk((xs + ps + ys)[i], limit) {
      var before := xs + ms + ys;
      var r := if i < |xs| then before[i] else if i < |xs| + |ps| then ps[i - |xs|] else before[i - |ps| + |ms|];
      assert (xs + ps + ys)[i] == r;
    }
    forall i, j | 0 <= i < j < |xs + ps + ys| ensures (xs + ps + ys)[i].End() <= (xs + ps + ys)[j].address {
      SwapOrder(xs, ms, ps, ys, i, j);
    }
  }

  lemma SwapOrder(xs: seq<Region>, ms: seq<Region>, ps: seq<Region>, ys: seq<Region>, i: nat, j: nat)
    requires Ordered(xs + ms + ys) && ms != [] && Ordered(ps) && i < j < |xs| + |ps| + |ys|
    requires forall k :: 0 <= k < |ps| ==> ms[0].address <= ps[k].address && ps[k].End() <= ms[|ms| - 1].End()
    ensures (xs + ps + ys)[i].End() <= (xs + ps + ys)[j].address
  {
    var before, n := xs + ms + ys, |xs|;
    assert before[n] == ms[0] && before[n + |ms| - 1] == ms[|ms| - 1];
    var x := if i < n then before[i] else if i < n + |ps| then ps[i - n] else before[i - |ps| + |ms|];
    var y := if j < n then before[j] else if j < n + |ps| then ps[j - n] else before[j - |ps| + |ms|];
    assert (xs + ps + ys)[i] == x && (xs + ps + ys)[j] == y;
  }

  // ---- splitting ----

  // p is the part [lo, hi) of r: same attributes, same bytes.
  ghost predicate IsPart(p: Region, r: Region, lo: int, hi: int) {
    && r.address <= lo < hi <= r.End()
    && p.address == lo && p.size == hi - lo
    && p.base == r.base && p.state == r.state && p.flags == r.flags && p.name == r.name
    && BackingOk(p) && Maximal(p.data)
    && forall k :: 0 <= k < hi - lo ==> SliceAt(p.data, k) == SliceAt(r.data, lo - r.address + k)
  }

  // ps are consecutive parts of r covering it from lo to its end.
  ghost predicate ArePieces(ps: seq<Region>, r: Region, lo: int) {
    if ps == [] then lo == r.End()
    else lo < ps[0].End() && IsPart(ps[0], r, lo, ps[0].End()) && ArePieces(ps[1..], r, ps[0].End())
  }

  lemma {:induction false} PiecesAt(ps: seq<Region>, r: Region, lo: int, a: int)
    requires ArePieces(ps, r, lo)
    ensures At(ps, a) == if lo <= a < r.End() then CellOf(r, a) else Free
  {
    if ps != [] {
      PiecesAt(ps[1..], r, ps[0].End(), a);
      PiecesStart(ps[1..], r, ps[0].End());
      if ps[0].Contains(a) {
        assert SliceAt(ps[0].data, a - lo) == SliceAt(r.data, lo - r.address + (a - lo));
      }
    }
  }

  lemma {:induction false} PiecesStart(ps: seq<Region>, r: Region, lo: int)
    requires ArePieces(ps, r, lo)
    ensures lo <= r.End()
    ensures forall i :: 0 <= i < |ps| ==> lo <= ps[i].address && ps[i].End() <= r.End()
  {
    if ps != [] {
      PiecesStart(ps[1..], r, ps[0].End());
      assert forall i :: 1 <= i < |ps| ==> ps[i] == ps[1..][i - 1];
    }
  }

  lemma {:induction false} PiecesOk(ps: seq<Region>, r: Region, lo: int, limit: int)
    requires ArePieces(ps, r, lo) && RegionOk(r, limit) && limit <= U64_MAX
    requires forall i :: 0 <= i < |ps| ==> PageAligned(ps[i])
    ensures ListOk(ps, limit)
  {
    if ps != [] {
      assert forall i :: 0 <= i < |ps[1..]| ==> ps[1..][i] == ps[i + 1];
      PiecesOk(ps[1..], r, ps[0].End(), limit);
      PiecesStart(ps[1..], r, ps[0].End());
      assert forall i :: 1 <= i < |ps| ==> ps[i] == ps[1..][i - 1];
    }
  }

  // A page boundary strictly inside a region whose state or flags a pending change still has to touch.
  predicate NeedsChange(r: Region, flags: Flags) {
    r.state != Committed || r.flags != flags
  }

  ghost predicate Cut(rs: seq<Region>, x: int, flags: Flags) {
    exists i :: 0 <= i < |rs| && rs[i].address < x < rs[i].End() && NeedsChange(rs[i], flags)
  }

  ghost function CutBit(rs: seq<Region>, x: int, flags: Flags): nat {
    if Cut(rs, x, flags) then 1 else 0
  }

  // Replacing region i by its pieces keeps the list well formed and changes no address.
  lemma {:induction false} SplitKeepsLayout(rs: seq<Region>, i: nat, ps: seq<Region>, limit: int)
    requires ListOk(rs, limit) && i < |rs| && ArePieces(ps, rs[i], rs[i].address)
    requires forall k :: 0 <= k < |ps| ==> PageAligned(ps[k])
    ensures ListOk(rs[..i] + ps + rs[i + 1..], limit)
    ensures SameLayout(rs, rs[..i] + ps + rs[i + 1..])
  {
    var r := rs[i];
    assert rs == rs[..i] + [r] + rs[i + 1..];
    PiecesOk(ps, r, r.address, limit);
    PiecesStart(ps, r, r.address);
    ListSwap(rs[..i], [r], ps, rs[i + 1..], limit);
    forall a ensures At([r], a) == At(ps, a) {
      PiecesAt(ps, r, r.address, a);
    }
    AtSwap(rs[..i], [r], ps, rs[i + 1..]);
  }

  lemma {:induction false} SplitCuts(rs: seq<Region>, i: nat, ps: seq<Region>, x: int, flags: Flags)
    requires i < |rs| && ArePieces(ps, rs[i], rs[i].address)
    requires Cut(rs[..i] + ps + rs[i + 1..], x, flags)
    ensures Cut(rs, x, flags)
  {
    var after := rs[..i] + ps + rs[i + 1..];
    var k :| 0 <= k < |after| && after[k].address < x < after[k].End() && NeedsChange(after[k], flags);
    if k < i {
      assert after[k] == rs[k];
    } else if k < i + |ps| {
      assert after[k] == ps[k - i];
      PieceAttributes(ps, rs[i], rs[i].address, k - i);
      assert rs[i].address < x < rs[i].End() && NeedsChange(rs[i], flags);
    } else {
      assert after[k] == rs[k - |ps| + 1];
    }
  }

  lemma {:induction false} SplitAllCuts(rs: seq<Region>, i: nat, ps: seq<Region>)
    requires i < |rs| && ArePieces(ps, rs[i], rs[i].address)
    ensures forall x, flags :: Cut(rs[..i] + ps + rs[i + 1..], x, flags) ==> Cut(rs, x, flags)
  {
    forall x, flags | Cut(rs[..i] + ps + rs[i + 1..], x, flags) ensures Cut(rs, x, flags) {
      SplitCuts(rs, i, ps, x, flags);
    }
  }

  lemma {:induction false} PieceAttributes(ps: seq<Region>, r: Region, lo: int, k: nat)
    requires ArePieces(ps, r, lo) && k < |ps|
    ensures lo <= ps[k].address && ps[k].End() <= r.End() && ps[k].state == r.state && ps[k].flags == r.flags
  {
    if k == 0 {
      PiecesStart(ps, r, lo);
    } else {
      PieceAttributes(ps[1..], r, ps[0].End(), k - 1);
    }
  }

  // ---- joining two neighbours ----

  ghost predicate IsJoin(m: Region, l: Region, r: Region) {
    && m.address == l.address && m.size == l.size + r.size
    && m.base == l.base && m.state == l.state && m.flags == l.flags && m.name == l.name
    && BackingOk(m) && Maximal(m.data)
    && forall k :: 0 <= k ==> SliceAt(m.data, k) == SliceAt(l.data + r.data, k)
  }

  lemma {:induction false} JoinPair(l: Region, r: Region, m: Region, a: int)
    requires Mergeable(l, r) && IsJoin(m, l, r) && BackingOk(l) && BackingOk(r)
    ensures At([l, r], a) == At([m], a)
  {
    assert [l, r][1..] == [r] && [r][1..] == [] && [m][1..] == [];
    if m.Contains(a) {
      SliceAtConcat(l.data, r.data, a - m.address);
      if l.state.Reserved? { assert l.data == []; }
    }
  }

  lemma JoinKeepsLayout(rs: seq<Region>, i: nat, m: Region, limit: int)
    requires ListOk(rs, limit) && i + 1 < |rs| && Mergeable(rs[i], rs[i + 1]) && IsJoin(m, rs[i], rs[i + 1])
    ensures ListOk(rs[..i] + [m] + rs[i + 2..], limit)
    ensures SameLayout(rs, rs[..i] + [m] + rs[i + 2..])
  {
    var l, r := rs[i], rs[i + 1];
    assert rs == rs[..i] + [l, r] + rs[i + 2..];
    JoinOk(l, r, m, limit);
    ListSwap(rs[..i], [l, r], [m], rs[i + 2..], limit);
    forall a ensures At([l, r], a) == At([m], a) {
      JoinPair(l, r, m, a);
    }
    AtSwap(rs[..i], [l, r], [m], rs[i + 2..]);
  }

  lemma JoinOk(l: Region, r: Region, m: Region, limit: int)
    requires RegionOk(l, limit) && RegionOk(r, limit) && Mergeable(l, r) && IsJoin(m, l, r) && limit <= U64_MAX
    ensures ListOk([m], limit)
  {
  }

  // ---- changing one region in place ----

  lemma UpdateAt(rs: seq<Region>, i: nat, m: Region, limit: int)
    requires ListOk(rs, limit) && i < |rs| && RegionOk(m, limit)
    requires m.address == rs[i].address && m.size == rs[i].size
    ensures ListOk(rs[i := m], limit)
    ensures forall a {:trigger At(rs[i := m], a)} {:trigger At(rs, a)} ::
              At(rs[i := m], a) == if m.Contains(a) then CellOf(m, a) else At(rs, a)
  {
    assert rs[i := m] == rs[..i] + [m] + rs[i + 1..];
    forall a ensures At(rs[i := m], a) == if m.Contains(a) then CellOf(m, a) else At(rs, a) {
      assert forall b :: At([m], b) == if m.Contains(b) then CellOf(m, b) else Free by { assert [m][1..] == []; }
      AtReplace(rs, i, [m], a);
    }
  }

  lemma UpdateCuts(rs: seq<Region>, i: nat, m: Region, x: int, flags: Flags)
    requires i < |rs| && !NeedsChange(m, flags) && Cut(rs[i := m], x, flags)
    ensures Cut(rs, x, flags)
  {
    var k :| 0 <= k < |rs| && rs[i := m][k].address < x < rs[i := m][k].End() && NeedsChange(rs[i := m][k], flags);
    assert k != i && rs[k] == rs[i := m][k];
  }


  // ---- walking a range region by region ----

  ghost predicate OneAllocation(rs: seq<Region>, start: int, end: int) {
    At(rs, start).Mapped? && forall a :: start <= a < end ==> At(rs, a).Mapped? && At(rs, a).base == At(rs, start).base
  }

  // No region reaches across x.
  ghost predicate Boundary(rs: seq<Region>, x: int) {
    forall i :: 0 <= i < |rs| ==> !(rs[i].address < x < rs[i].End())
  }

  lemma {:induction false} RegionCells(rs: seq<Region>, i: nat)
    requires Ordered(rs) && i < |rs|
    ensures forall a :: rs[i].Contains(a) ==> At(rs, a) == CellOf(rs[i], a)
  {
    forall a | rs[i].Contains(a) ensures At(rs, a) == CellOf(rs[i], a) {
      AtIndex(rs, i, a);
    }
  }

  lemma RegionBoundaries(rs: seq<Region>, i: nat)
    requires Ordered(rs) && i < |rs| && rs[i].size > 0
    ensures Boundary(rs, rs[i].address) && Boundary(rs, rs[i].End())
  {
  }

  lemma NoCutAcross(rs: seq<Region>, x: int, flags: Flags)
    requires Boundary(rs, x)
    ensures CutBit(rs, x, flags) == 0
  {
  }

  // The splits one step of a walk needs are the pending cuts at its two ends.
  lemma PieceGrowth(rs: seq<Region>, i: nat, lo: int, hi: int, flags: Flags)
    requires Ordered(rs) && i < |rs| && rs[i].address <= lo < hi <= rs[i].End()
    ensures CutBit(rs, lo, flags) == if lo > rs[i].address && NeedsChange(rs[i], flags) then 1 else 0
    ensures CutBit(rs, hi, flags) == if hi < rs[i].End() && NeedsChange(rs[i], flags) then 1 else 0
  {
  }
}
