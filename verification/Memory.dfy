// The virtual memory manager: reserve, commit, protect and release over a sorted region list, with byte
// access through the committed regions' backing windows.

module Memory {
  import opened MachineTypes
  import opened Backing
  import opened Regions
  import opened RegionEdits
  import opened Alignment
  import opened Layout
  import opened Allocations
  import opened FlatMemory

  const MIN_ADDRESS: u64 := 0x1_0000

  function MaxAddressFor(bits: int): u64 {
    if bits == 32 then 0x7FFF_0000 else LIMIT
  }

  // A region's windows for the part [lo, hi) of it; fails on an inconsistent region or a range outside it.
  method SliceBacking(r: Region, offset: u64, size: u64) returns (ok: bool, data: seq<Slice>)
    requires forall i :: 0 <= i < |r.data| ==> r.data[i].buffer.Length <= U64_MAX
    ensures ok <==> offset + size <= r.size && BackingOk(r)
    ensures ok && r.state.Committed? ==> IsWindow(data, r.data, offset, size)
    ensures ok && r.state.Reserved? ==> data == []
  {
    data := [];
    if offset > r.size || size > r.size - offset {
      return false, [];
    }
    ok := ValidateBacking(r);
    if ok && r.state.Committed? {
      data := CutWindows(r.data, offset, size);
    }
  }

  method ValidateBacking(r: Region) returns (ok: bool)
    requires forall i :: 0 <= i < |r.data| ==> r.data[i].buffer.Length <= U64_MAX
    ensures ok <==> BackingOk(r)
  {
    if r.state != Committed {
      return r.data == [];
    }
    ok := CheckWindows(r.data, r.size);
  }

  method Part(r: Region, lo: u64, hi: u64) returns (ok: bool, p: Region)
    requires BackingOk(r) && r.address <= lo < hi <= r.End() && lo % PAGE_SIZE == 0 && hi % PAGE_SIZE == 0
    ensures ok && IsPart(p, r, lo, hi) && PageAligned(p)
  {
    var data;
    ok, data := SliceBacking(r, lo - r.address, hi - lo);
    p := r.(address := lo, size := hi - lo, data := data);
    if r.state.Reserved? {
      assert r.data == [];
    }
  }

  // The pieces a split leaves behind, and the index of the middle one.
  method Pieces(r: Region, start: u64, end: u64) returns (pieces: seq<Region>, at: nat)
    requires RegionOk(r, U64_MAX) && r.End() % PAGE_SIZE == 0 && r.address <= start < end <= r.End()
    requires start % PAGE_SIZE == 0 && end % PAGE_SIZE == 0
    ensures ArePieces(pieces, r, r.address) && at < |pieces| && IsPart(pieces[at], r, start, end)
    ensures |pieces| == 1 + (if start > r.address then 1 else 0) + (if end < r.End() then 1 else 0)
    ensures forall k :: 0 <= k < |pieces| ==> PageAligned(pieces[k])
  {
    hide IsPart, ArePieces, BackingOk, Maximal;
    var left, right := [], [];
    if start > r.address {
      var _, p := Part(r, r.address, start);
      left := [p];
    }
    var _, mid := Part(r, start, end);
    if end < r.address + r.size {
      var _, p := Part(r, end, r.address + r.size);
      right := [p];
    }
    ThreePieces(r, left, mid, right, start, end);
    pieces, at := left + [mid] + right, |left|;
  }

  lemma {:induction false} ThreePieces(r: Region, left: seq<Region>, mid: Region, right: seq<Region>, start: int,
                                       end: int)
    requires r.address <= start && IsPart(mid, r, start, end)
    requires if start == r.address then left == [] else |left| == 1 && IsPart(left[0], r, r.address, start)
    requires if end == r.End() then right == [] else |right| == 1 && IsPart(right[0], r, end, r.End())
    ensures ArePieces(left + [mid] + right, r, r.address)
  {
    assert ArePieces(right, r, mid.End()) by {
      if right != [] { assert right[1..] == []; }
    }
    assert ([mid] + right)[1..] == right;
    assert ArePieces([mid] + right, r, mid.address);
    if left == [] {
      assert left + [mid] + right == [mid] + right;
    } else {
      assert left + [mid] + right == [left[0]] + ([mid] + right);
      assert (left + [mid] + right)[1..] == [mid] + right;
    }
  }

  class MemoryManager {
    var regions: seq<Region>
    var bits: int
    var minAddress: u64
    var maxAddress: u64
    var committedBytes: u64

    ghost predicate ShapeOk()
      reads this
    {
      && (bits == 32 || bits == 64) && minAddress == MIN_ADDRESS && maxAddress == MaxAddressFor(bits)
      && ListOk(regions, maxAddress)
    }

    ghost predicate Sound()
      reads this
    {
      && ShapeOk() && |regions| <= MAX_REGIONS && NoAlias(regions) && AllocationsTile(regions)
      && committedBytes == |CommittedIn(regions, 0, maxAddress)| <= MAX_TOTAL_COMMIT
    }

    // What every public call keeps.
    ghost predicate Valid()
      reads this
    {
      Sound() && Coalesced(regions)
    }

    constructor ()
      ensures Valid() && regions == [] && bits == 64
      ensures minAddress == 0x1_0000 && maxAddress == 0x7FFF_FFFF_0000
    {
      regions, bits, committedBytes := [], 64, 0;
      minAddress, maxAddress := MIN_ADDRESS, MaxAddressFor(64);
      new;
      assert CommittedIn(regions, 0, maxAddress) == {};
    }

    method FindContainingIndex(address: u64) returns (index: int)
      requires ListOk(regions, maxAddress)
      ensures -1 <= index < |regions|
      ensures index >= 0 ==> regions[index].Contains(address) && At(regions, address) == CellOf(regions[index], address)
      ensures index < 0 ==> At(regions, address).Free?
    {
      AtFree(regions, address);
      for i := 0 to |regions|
        invariant forall k :: 0 <= k < i ==> !regions[k].Contains(address)
      {
        if address >= regions[i].address && address - regions[i].address < regions[i].size {
          AtIndex(regions, i, address);
          return i;
        }
      }
      index := -1;
    }

    // How many regions a split adds, or -1 when [start, end) is not a non-empty part of the region.
    function SplitGrowth(index: int, start: u64, end: u64): int
      reads this
    {
      if index < 0 || index >= |regions| then -1
      else
        var r := regions[index];
        if r.address > U64_MAX - r.size then -1
        else if start < r.address || end <= start || end > r.address + r.size then -1
        else (if start > r.address then 1 else 0) + (if end < r.address + r.size then 1 else 0)
    }

    // Isolates [start, end) of one region; returns the index of the middle piece, or -1.
    method Split(index: int, start: u64, end: u64) returns (mid: int)
      requires ListOk(regions, maxAddress) && start % PAGE_SIZE == 0 && end % PAGE_SIZE == 0
      modifies this`regions
      ensures ListOk(regions, maxAddress) && SameLayout(old(regions), regions)
      ensures mid >= 0 <==> 0 <= old(SplitGrowth(index, start, end)) <= MAX_REGIONS - |old(regions)|
      ensures mid < 0 ==> regions == old(regions)
      ensures mid >= 0 ==> mid < |regions| == |old(regions)| + old(SplitGrowth(index, start, end))
      ensures mid >= 0 ==> IsPart(regions[mid], old(regions)[index], start, end)
      ensures forall x, flags :: Cut(regions, x, flags) ==> Cut(old(regions), x, flags)
    {
      var growth := SplitGrowth(index, start, end);
      if growth < 0 || growth > MAX_REGIONS - |regions| {
        return -1;
      }
      var r := regions[index];
      assert RegionOk(r, maxAddress);
      var valid := ValidateBacking(r);
      var pieces, at := Pieces(r, start, end);
      SplitKeepsLayout(regions, index, pieces, maxAddress);
      SplitAllCuts(regions, index, pieces);
      regions := regions[..index] + pieces + regions[index + 1..];
      mid := index + at;
      assert regions[mid] == pieces[at];
    }

    method Join(l: Region, r: Region) returns (m: Region)
      requires RegionOk(l, maxAddress) && RegionOk(r, maxAddress) && maxAddress <= U64_MAX && Mergeable(l, r)
      ensures IsJoin(m, l, r)
    {
      m := l.(size := l.size + r.size);
      if l.state == Committed {
        var data := JoinWindows(l.data, r.data);
        m := m.(data := data);
      }
    }

    // Joins every pair of neighbours that agree in everything.
    method Coalesce()
      requires ListOk(regions, maxAddress)
      modifies this`regions
      ensures ListOk(regions, maxAddress) && Coalesced(regions) && SameLayout(old(regions), regions)
      ensures |regions| <= |old(regions)|
    {
      var i := 0;
      while i + 1 < |regions|
        invariant 0 <= i && (i < |regions| || regions == [])
        invariant ListOk(regions, maxAddress) && SameLayout(old(regions), regions) && |regions| <= |old(regions)|
        invariant forall j, k :: 0 <= j && k == j + 1 <= i && k < |regions| ==> !Mergeable(regions[j], regions[k])
        decreases |regions| - i
      {
        var l, r := regions[i], regions[i + 1];
        if !Mergeable(l, r) {
          i := i + 1;
        } else {
          var m := Join(l, r);
          JoinKeepsLayout(regions, i, m, maxAddress);
          JoinKeepsGap(regions, i, m);
          regions := regions[..i] + [m] + regions[i + 2..];
        }
      }
    }

    // One step of a dry run: the stretch of [cursor, end) inside one region, its allocation, the regions its
    // isolation would add, and the bytes it would newly commit.
    method PreflightSlice(cursor: u64, end: u64, flags: Flags)
        returns (ok: bool, base: u64, sliceEnd: u64, growth: int, newBytes: u64)
      requires ListOk(regions, maxAddress) && cursor < end <= maxAddress
      ensures ok <==> At(regions, cursor).Mapped?
      ensures ok ==> cursor < sliceEnd <= end && (sliceEnd < end ==> Boundary(regions, sliceEnd))
      ensures ok ==> forall a :: cursor <= a < sliceEnd ==> At(regions, a).Mapped? && At(regions, a).base == base
      ensures ok ==>
                growth == CutBit(regions, cursor, flags) + (if sliceEnd == end then CutBit(regions, end, flags) else 0)
      ensures ok ==> newBytes == |UncommittedIn(regions, cursor, sliceEnd)| <= sliceEnd - cursor
      ensures ok ==> newBytes == 0 || newBytes == sliceEnd - cursor
      ensures ok ==> forall a :: cursor <= a < sliceEnd ==> IsCommitted(At(regions, a)) == (newBytes == 0)
    {
      base, sliceEnd, growth, newBytes := 0, end, 0, 0;
      var index := FindContainingIndex(cursor);
      if index < 0 || regions[index].address > U64_MAX - regions[index].size {
        return false, 0, end, 0, 0;
      }
      var r := regions[index];
      base := r.base;
      sliceEnd := Min(end, r.address + r.size);
      RegionCells(regions, index);
      RegionBoundaries(regions, index);
      PieceGrowth(regions, index, cursor, sliceEnd, flags);
      if r.state != Committed || r.flags != flags {
        growth := SplitGrowth(index, cursor, sliceEnd);
      }
      assert UncommittedIn(regions, cursor, cursor) == {};
      UncommittedStep(regions, cursor, cursor, sliceEnd, r.state == Committed);
      if r.state != Committed {
        newBytes := sliceEnd - cursor;
      }
      ok := true;
    }

    // Dry run of a commit: whether the range lies in one allocation and the splits fit, how many bytes it would newly
    // commit and how many regions it would add.
    method CommitPreflight(start: u64, end: u64, flags: Flags) returns (ok: bool, newBytes: u64, growth: nat)
      requires ListOk(regions, maxAddress) && |regions| <= MAX_REGIONS
      requires start < end <= maxAddress && end - start <= MAX_SINGLE_COMMIT && At(regions, start).Mapped?
      ensures ok <==> OneAllocation(regions, start, end)
                      && |regions| + CutBit(regions, start, flags) + CutBit(regions, end, flags) <= MAX_REGIONS
      ensures ok ==> newBytes == |UncommittedIn(regions, start, end)|
      ensures ok ==> growth == CutBit(regions, start, flags) + CutBit(regions, end, flags)
    {
      var startIndex := FindContainingIndex(start);
      var base := regions[startIndex].base;
      growth := 0;
      var cursor: u64 := start;
      newBytes := 0;
      assert UncommittedIn(regions, start, start) == {};
      while cursor < end
        invariant start <= cursor <= end
        invariant forall a :: start <= a < cursor ==> At(regions, a).Mapped? && At(regions, a).base == base
        invariant newBytes == |UncommittedIn(regions, start, cursor)| <= cursor - start
        invariant start < cursor < end ==> Boundary(regions, cursor)
        invariant growth == (if cursor > start then CutBit(regions, start, flags) else 0)
                          + (if cursor == end then CutBit(regions, end, flags) else 0)
        invariant |regions| + growth <= MAX_REGIONS
      {
        var found, sliceBase, sliceEnd, added, sliceBytes := PreflightSlice(cursor, end, flags);
        if !found || sliceBase != base {
          return false, 0, 0;
        }
        if cursor > start { NoCutAcross(regions, cursor, flags); }
        if growth > MAX_REGIONS - |regions| - added {
          return false, 0, 0;
        }
        // The source's check that the running byte count stays below the total limit cannot fire here.
        assert newBytes <= MAX_TOTAL_COMMIT - sliceBytes;
        UncommittedStep(regions, start, cursor, sliceEnd, sliceBytes == 0);
        growth, newBytes, cursor := growth + added, newBytes + sliceBytes, sliceEnd;
      }
      ok := true;
    }

    // Makes the stretch of [cursor, end) inside one region a region of its own, unless that region already
    // has the wanted state and flags.
    method Isolate(cursor: u64, end: u64, flags: Flags) returns (keep: bool, mid: int, sliceEnd: u64)
      requires ListOk(regions, maxAddress) && |regions| <= MAX_REGIONS
      requires cursor < end <= maxAddress && cursor % PAGE_SIZE == 0 && end % PAGE_SIZE == 0
      requires At(regions, cursor).Mapped?
      modifies this`regions
      ensures ListOk(regions, maxAddress) && SameLayout(old(regions), regions)
      ensures cursor < sliceEnd <= end && sliceEnd % PAGE_SIZE == 0
      ensures forall a :: cursor <= a < sliceEnd ==> SameAttributes(At(old(regions), a), At(old(regions), cursor))
      ensures keep <==> IsCommitted(At(old(regions), cursor)) && At(old(regions), cursor).flags == flags
      ensures keep || mid < 0 ==> regions == old(regions)
      ensures keep || mid >= 0 ==> sliceEnd < end ==> Boundary(regions, sliceEnd)
      ensures !keep && mid < 0 ==>
                |old(regions)| + CutBit(old(regions), cursor, flags) + CutBit(old(regions), end, flags) > MAX_REGIONS
      ensures !keep && mid >= 0 ==> mid < |regions| && regions[mid].address == cursor && regions[mid].End() == sliceEnd
      ensures |regions| <= |old(regions)| + CutBit(old(regions), cursor, flags)
                           + (if sliceEnd == end then CutBit(old(regions), end, flags) else 0)
      ensures forall x :: Cut(regions, x, flags) ==> Cut(old(regions), x, flags)
    {
      var index := FindContainingIndex(cursor);
      var r := regions[index];
      sliceEnd := Min(end, r.address + r.size);
      SliceFacts(regions, index, cursor, end, flags, maxAddress);
      keep, mid := r.state == Committed && r.flags == flags, -1;
      if !keep {
        mid := Split(index, cursor, sliceEnd);
        if mid >= 0 {
          RegionBoundaries(regions, mid);
        }
      }
    }

    // Commits the stretch of [cursor, end) inside one region with the given flags.
    method CommitSlice(cursor: u64, end: u64, flags: Flags) returns (ok: bool, sliceEnd: u64)
      requires ListOk(regions, maxAddress) && NoAlias(regions) && |regions| <= MAX_REGIONS
      requires cursor < end <= maxAddress && cursor % PAGE_SIZE == 0 && end % PAGE_SIZE == 0
      requires At(regions, cursor).Mapped? && committedBytes + (end - cursor) <= U64_MAX
      modifies this`regions, this`committedBytes
      ensures |old(regions)| + CutBit(old(regions), cursor, flags) + CutBit(old(regions), end, flags) <= MAX_REGIONS ==>
                ok
      ensures !ok ==> regions == old(regions) && committedBytes == old(committedBytes)
      ensures ListOk(regions, maxAddress) && NoAlias(regions)
      ensures cursor < sliceEnd <= end && sliceEnd % PAGE_SIZE == 0
      ensures ok ==> sliceEnd < end ==> Boundary(regions, sliceEnd)
      ensures ok ==> forall a :: !(cursor <= a < sliceEnd) ==> At(regions, a) == At(old(regions), a)
      ensures ok ==> forall a :: cursor <= a < sliceEnd ==> Repainted(At(old(regions), a), At(regions, a), flags)
      ensures ok ==> forall a :: cursor <= a < sliceEnd && !IsCommitted(At(old(regions), a)) ==>
                       && Readable(PlaceOf(At(regions, a)))
                       && ByteAt(PlaceOf(At(regions, a))) == 0
      ensures forall a :: cursor <= a < sliceEnd ==> SameAttributes(At(old(regions), a), At(old(regions), cursor))
      ensures ok ==>
                committedBytes == old(committedBytes) + if IsCommitted(At(old(regions), cursor)) then 0
                                                        else sliceEnd - cursor
      ensures forall x :: Cut(regions, x, flags) ==> Cut(old(regions), x, flags)
      ensures |regions| <= |old(regions)| + CutBit(old(regions), cursor, flags)
                           + (if sliceEnd == end then CutBit(old(regions), end, flags) else 0)
    {
      var keep, mid;
      keep, mid, sliceEnd := Isolate(cursor, end, flags);
      SameLayoutKeeps(old(regions), regions, maxAddress);
      if !keep && mid >= 0 {
        RegionCells(regions, mid);
        Paint(mid, flags);
      }
      ok := keep || mid >= 0;
    }

    // Commits one whole region with the given flags, with zeroed backing unless it is committed already.
    method Paint(mid: nat, flags: Flags)
      requires ListOk(regions, maxAddress) && NoAlias(regions) && mid < |regions|
      requires committedBytes + regions[mid].size <= U64_MAX
      modifies this`regions, this`committedBytes
      ensures ListOk(regions, maxAddress) && NoAlias(regions)
      ensures |regions| == |old(regions)|
      ensures forall a :: !old(regions)[mid].Contains(a) ==> At(regions, a) == At(old(regions), a)
      ensures forall a :: old(regions)[mid].Contains(a) ==> Repainted(At(old(regions), a), At(regions, a), flags)
      ensures forall a :: old(regions)[mid].Contains(a) && !IsCommitted(At(old(regions), a)) ==>
                && Readable(PlaceOf(At(regions, a)))
                && ByteAt(PlaceOf(At(regions, a))) == 0
      ensures committedBytes == old(committedBytes) + if old(regions)[mid].state == Committed then 0
                                                      else old(regions)[mid].size
      ensures forall x :: Cut(regions, x, flags) ==> Cut(old(regions), x, flags)
      ensures forall x :: Boundary(old(regions), x) ==> Boundary(regions, x)
    {
      ghost var before := regions;
      var m := regions[mid].(state := Committed, flags := flags);
      assert RegionOk(regions[mid], maxAddress);
      ghost var used := Buffers(regions);
      PlacesUsed(regions, maxAddress);
      assert forall a: int :: PlaceOf(At(regions, a)).Place? ==> allocated(PlaceOf(At(regions, a)).buffer);
      if regions[mid].state != Committed {
        var buffer := new byte[m.size](_ => 0);
        NewBackingOk(buffer, m.size);
        m := m.(data := [Slice(buffer, 0, m.size)]);
        committedBytes := committedBytes + m.size;
        assert buffer !in used;
      }
      PaintLayout(before, mid, m, flags, maxAddress);
      PaintCuts(before, mid, m, flags);
      regions := regions[mid := m];
      forall a | m.Contains(a) && !IsCommitted(At(before, a))
        ensures Readable(PlaceOf(At(regions, a))) && ByteAt(PlaceOf(At(regions, a))) == 0
      {
        RegionCells(before, mid);
      }
    }

    // The mutating loop of a commit. With room for the splits it never reaches its rollback.
    method CommitLoop(start: u64, end: u64, flags: Flags)
      requires ListOk(regions, maxAddress) && NoAlias(regions) && |regions| <= MAX_REGIONS
      requires start < end <= maxAddress && start % PAGE_SIZE == 0 && end % PAGE_SIZE == 0
      requires OneAllocation(regions, start, end) && committedBytes + (end - start) <= U64_MAX
      requires |regions| + CutBit(regions, start, flags) + CutBit(regions, end, flags) <= MAX_REGIONS
      modifies this`regions, this`committedBytes
      ensures ListOk(regions, maxAddress) && NoAlias(regions) && |regions| <= MAX_REGIONS
      ensures forall a :: !(start <= a < end) ==> At(regions, a) == At(old(regions), a)
      ensures forall a :: start <= a < end ==> Repainted(At(old(regions), a), At(regions, a), flags)
      ensures forall a :: start <= a < end && !IsCommitted(At(old(regions), a)) ==>
                && Readable(PlaceOf(At(regions, a)))
                && ByteAt(PlaceOf(At(regions, a))) == 0
      ensures committedBytes == old(committedBytes) + |UncommittedIn(old(regions), start, end)|
    {
      hide At, Cut, Boundary, NoAlias, AllocationsTile;
      ghost var before := regions;
      var cursor: u64 := start;
      assert UncommittedIn(before, start, start) == {};
      while cursor < end
        invariant start <= cursor <= end && cursor % PAGE_SIZE == 0
        invariant ListOk(regions, maxAddress) && NoAlias(regions)
        invariant |regions| + (if cursor < end then CutBit(regions, cursor, flags) + CutBit(regions, end, flags) else 0)
                  <= MAX_REGIONS
        invariant forall a :: !(start <= a < cursor) ==> At(regions, a) == At(before, a)
        invariant forall a :: start <= a < cursor ==> Repainted(At(before, a), At(regions, a), flags)
        invariant forall a :: start <= a < cursor && !IsCommitted(At(before, a)) ==>
                    && Readable(PlaceOf(At(regions, a)))
                    && ByteAt(PlaceOf(At(regions, a))) == 0
        invariant committedBytes == old(committedBytes) + |UncommittedIn(before, start, cursor)|
        invariant |UncommittedIn(before, start, cursor)| <= cursor - start
      {
        ghost var sofar := regions;
        label step:
        var ok, sliceEnd := CommitSlice(cursor, end, flags);
        assert ok;
        forall a | start <= a < cursor && !IsCommitted(At(before, a))
          ensures Readable(PlaceOf(At(regions, a))) && ByteAt(PlaceOf(At(regions, a))) == 0
        {
          assert At(regions, a) == At(sofar, a);
          assert old@step(ByteAt(PlaceOf(At(sofar, a)))) == 0;
        }
        UncommittedStep(before, start, cursor, sliceEnd, IsCommitted(At(before, cursor)));
        if sliceEnd < end {
          NoCutAcross(regions, sliceEnd, flags);
        }
        cursor := sliceEnd;
      }
    }

    // ---- public calls ----

    // When a commit of the page range [start, end) succeeds.
    ghost predicate CommitAllowed(start: int, end: int, flags: Flags)
      reads this
    {
      && OneAllocation(regions, start, end)
      && end - start <= MAX_SINGLE_COMMIT
      && committedBytes + |UncommittedIn(regions, start, end)| <= MAX_TOTAL_COMMIT
      && |regions| + CutBit(regions, start, flags) + CutBit(regions, end, flags) <= MAX_REGIONS
    }

    ghost function PageRange(address: u64, size: u64): Option<(u64, u64)>
      reads this
    {
      NormalizePageRange(address, size, maxAddress)
    }

    // Commits every page touched by [address, address + size): all of it, or nothing.
    method Commit(address: u64, size: u64, flags: Flags) returns (ok: bool)
      requires Valid()
      modifies this`regions, this`committedBytes
      ensures Valid()
      ensures ok <==> old(PageRange(address, size).Some? &&
                          CommitAllowed(PageRange(address, size).value.0, PageRange(address, size).value.1, flags))
      ensures !ok ==> regions == old(regions) && committedBytes == old(committedBytes)
      ensures ok ==>
                Committing(old(regions), regions, PageRange(address, size).value.0, PageRange(address, size).value.1,
                           flags)
      ensures ok ==> var (start, end) := PageRange(address, size).value;
                     && committedBytes == old(committedBytes) + |UncommittedIn(old(regions), start, end)|
                     && Bytes(regions) == Zeros(start, end) + old(Bytes(regions))
    {
      var range := NormalizePageRange(address, size, maxAddress);
      if range.None? {
        return false;
      }
      NormalizeExact(address, size, maxAddress);
      ok := CommitPages(range.value.0, range.value.1, flags);
    }

    method CommitPages(start: u64, end: u64, flags: Flags) returns (ok: bool)
      requires Valid() && start < end <= maxAddress && start % PAGE_SIZE == 0 && end % PAGE_SIZE == 0
      modifies this`regions, this`committedBytes
      ensures Valid()
      ensures ok <==> old(CommitAllowed(start, end, flags))
      ensures !ok ==> regions == old(regions) && committedBytes == old(committedBytes)
      ensures ok ==> Committing(old(regions), regions, start, end, flags)
      ensures ok ==> committedBytes == old(committedBytes) + |UncommittedIn(old(regions), start, end)|
      ensures ok ==> Bytes(regions) == Zeros(start, end) + old(Bytes(regions))
    {
      ok := CommitChecks(start, end, flags);
      if ok {
        CommitRange(start, end, flags);
        Settle();
      }
    }

    // Everything a commit does before it changes anything for good; the list comes out as it was.
    method CommitChecks(start: u64, end: u64, flags: Flags) returns (ok: bool)
      requires Valid() && start < end <= maxAddress
      modifies this`regions
      ensures Valid() && regions == old(regions) && Bytes(regions) == old(Bytes(regions))
      ensures ok <==> CommitAllowed(start, end, flags)
    {
      var original := regions;
      BuffersAllocated(original);
      Coalesce();
      CanonicalUnique(original, regions, maxAddress);
      var startIndex := FindContainingIndex(start);
      ok := startIndex >= 0 && end - start <= MAX_SINGLE_COMMIT;
      if ok {
        var newBytes;
        var growth;
        ok, newBytes, growth := CommitPreflight(start, end, flags);
        ok := ok && newBytes <= MAX_TOTAL_COMMIT - Min(committedBytes, MAX_TOTAL_COMMIT);
      }
      if !ok {
        regions := original;
      }
      BytesUnchanged(original);
    }

    // The mutating half of a commit whose dry run succeeded.
    method CommitRange(start: u64, end: u64, flags: Flags)
      requires Valid() && start < end <= maxAddress && start % PAGE_SIZE == 0 && end % PAGE_SIZE == 0
      requires CommitAllowed(start, end, flags)
      modifies this`regions, this`committedBytes
      ensures Sound()
      ensures Committing(old(regions), regions, start, end, flags)
      ensures committedBytes == old(committedBytes) + |UncommittedIn(old(regions), start, end)|
      ensures Bytes(regions) == Zeros(start, end) + old(Bytes(regions))
    {
      ghost var original := regions;
      BuffersAllocated(original);
      CommitLoop(start, end, flags);
      BytesUnchanged(original);
      CommittedGrows(original, regions, start, end, maxAddress);
      TileAfterCommit(original, regions, start, end, flags);
      BytesAfterCommit(original, regions, start, end, flags, maxAddress);
    }

    // The final coalescing of a commit or protection change: the layout and the bytes stay.
    method Settle()
      requires Sound()
      modifies this`regions
      ensures Valid() && SameLayout(old(regions), regions)
      ensures Bytes(regions) == old(Bytes(regions))
    {
      ghost var painted := regions;
      BuffersAllocated(painted);
      Coalesce();
      BytesUnchanged(painted);
      SameLayoutKeeps(painted, regions, maxAddress);
    }

    method IsRangeCommitted(address: u64, size: u64) returns (ok: bool)
      requires ListOk(regions, maxAddress)
      ensures ok <==> AllCommitted(regions, address, address + size)
    {
      if size == 0 {
        return true;
      }
      if address > U64_MAX - size {
        FreeAbove(regions, maxAddress, address + size - 1);
        return false;
      }
      var end: u64 := address + size;
      var cursor: u64 := address;
      while cursor < end
        invariant address <= cursor <= end && AllCommitted(regions, address, cursor)
      {
        var index := FindContainingIndex(cursor);
        if index < 0 || regions[index].state != Committed {
          return false;
        }
        RegionCells(regions, index);
        cursor := Min(end, regions[index].address + regions[index].size);
      }
      ok := true;
    }

    method ProtectPreflight(start: u64, end: u64, flags: Flags) returns (ok: bool)
      requires ListOk(regions, maxAddress) && |regions| <= MAX_REGIONS
      requires start < end <= maxAddress && AllCommitted(regions, start, end)
      ensures ok <==> |regions| + CutBit(regions, start, flags) + CutBit(regions, end, flags) <= MAX_REGIONS
    {
      var growth := 0;
      var cursor: u64 := start;
      while cursor < end
        invariant start <= cursor <= end
        invariant start < cursor < end ==> Boundary(regions, cursor)
        invariant growth == (if cursor > start then CutBit(regions, start, flags) else 0)
                          + (if cursor == end then CutBit(regions, end, flags) else 0)
        invariant |regions| + growth <= MAX_REGIONS
      {
        var found, base, sliceEnd, added, sliceBytes := PreflightSlice(cursor, end, flags);
        if cursor > start { NoCutAcross(regions, cursor, flags); }
        if growth > MAX_REGIONS - |regions| - added {
          return false;
        }
        growth, cursor := growth + added, sliceEnd;
      }
      ok := true;
    }

    // Gives the stretch of [cursor, end) inside one committed region the given flags.
    method ProtectSlice(cursor: u64, end: u64, flags: Flags) returns (ok: bool, sliceEnd: u64)
      requires ListOk(regions, maxAddress) && NoAlias(regions) && |regions| <= MAX_REGIONS
      requires cursor < end <= maxAddress && cursor % PAGE_SIZE == 0 && end % PAGE_SIZE == 0
      requires IsCommitted(At(regions, cursor))
      modifies this`regions
      ensures |old(regions)| + CutBit(old(regions), cursor, flags) + CutBit(old(regions), end, flags) <= MAX_REGIONS ==>
                ok
      ensures ListOk(regions, maxAddress) && NoAlias(regions)
      ensures cursor < sliceEnd <= end && sliceEnd % PAGE_SIZE == 0
      ensures ok ==> sliceEnd < end ==> Boundary(regions, sliceEnd)
      ensures ok ==> Committing(old(regions), regions, cursor, sliceEnd, flags)
      ensures forall x :: Cut(regions, x, flags) ==> Cut(old(regions), x, flags)
      ensures |regions| <= |old(regions)| + CutBit(old(regions), cursor, flags)
                           + (if sliceEnd == end then CutBit(old(regions), end, flags) else 0)
    {
      var keep, mid;
      keep, mid, sliceEnd := Isolate(cursor, end, flags);
      SameLayoutKeeps(old(regions), regions, maxAddress);
      if !keep && mid >= 0 {
        RegionCells(regions, mid);
        var m := regions[mid].(flags := flags);
        assert RegionOk(regions[mid], maxAddress)
               && m == regions[mid].(state := Committed, flags := flags, data := m.data);
        PaintLayout(regions, mid, m, flags, maxAddress);
        PaintCuts(regions, mid, m, flags);
        regions := regions[mid := m];
      }
      ok := keep || mid >= 0;
    }

    // The mutating loop of a protection change. With room for the splits it never reaches its rollback.
    method ProtectLoop(start: u64, end: u64, flags: Flags)
      requires ListOk(regions, maxAddress) && NoAlias(regions) && |regions| <= MAX_REGIONS
      requires start < end <= maxAddress && start % PAGE_SIZE == 0 && end % PAGE_SIZE == 0
      requires AllCommitted(regions, start, end)
      requires |regions| + CutBit(regions, start, flags) + CutBit(regions, end, flags) <= MAX_REGIONS
      modifies this`regions
      ensures ListOk(regions, maxAddress) && NoAlias(regions) && |regions| <= MAX_REGIONS
      ensures Committing(old(regions), regions, start, end, flags)
    {
      ghost var before := regions;
      var cursor: u64 := start;
      while cursor < end
        invariant start <= cursor <= end && cursor % PAGE_SIZE == 0
        invariant ListOk(regions, maxAddress) && NoAlias(regions)
        invariant |regions| + (if cursor < end then CutBit(regions, cursor, flags) + CutBit(regions, end, flags) else 0)
                  <= MAX_REGIONS
        invariant Committing(before, regions, start, cursor, flags)
      {
        var ok, sliceEnd := ProtectSlice(cursor, end, flags);
        assert ok;
        if sliceEnd < end {
          NoCutAcross(regions, sliceEnd, flags);
        }
        cursor := sliceEnd;
      }
    }

    // When a protection change of the page range [start, end) succeeds.
    ghost predicate ProtectAllowed(start: int, end: int, flags: Flags)
      reads this
    {
      && AllCommitted(regions, start, end)
      && |regions| + CutBit(regions, start, flags) + CutBit(regions, end, flags) <= MAX_REGIONS
    }

    // Changes the flags of every page touched by [address, address + size): all of them, or none. The
    // range may span several allocations, but every page must be committed. No byte changes.
    method Protect(address: u64, size: u64, flags: Flags) returns (ok: bool)
      requires Valid()
      modifies this`regions
      ensures Valid()
      ensures ok <==> old(PageRange(address, size).Some? &&
                          ProtectAllowed(PageRange(address, size).value.0, PageRange(address, size).value.1, flags))
      ensures !ok ==> regions == old(regions)
      ensures ok ==>
                Committing(old(regions), regions, PageRange(address, size).value.0, PageRange(address, size).value.1,
                           flags)
      ensures Bytes(regions) == old(Bytes(regions))
    {
      var range := NormalizePageRange(address, size, maxAddress);
      if range.None? {
        return false;
      }
      NormalizeExact(address, size, maxAddress);
      ok := ProtectPages(range.value.0, range.value.1, flags);
    }

    method ProtectPages(start: u64, end: u64, flags: Flags) returns (ok: bool)
      requires Valid() && start < end <= maxAddress && start % PAGE_SIZE == 0 && end % PAGE_SIZE == 0
      modifies this`regions
      ensures Valid()
      ensures ok <==> old(ProtectAllowed(start, end, flags))
      ensures !ok ==> regions == old(regions)
      ensures ok ==> Committing(old(regions), regions, start, end, flags)
      ensures Bytes(regions) == old(Bytes(regions))
    {
      BuffersAllocated(regions);
      ok := IsRangeCommitted(start, end - start);
      if ok {
        ok := ProtectPreflight(start, end, flags);
      }
      BytesUnchanged(regions);
      if ok {
        ProtectRange(start, end, flags);
        Settle();
      }
    }

    method ProtectRange(start: u64, end: u64, flags: Flags)
      requires Valid() && start < end <= maxAddress && start % PAGE_SIZE == 0 && end % PAGE_SIZE == 0
      requires AllCommitted(regions, start, end)
      requires |regions| + CutBit(regions, start, flags) + CutBit(regions, end, flags) <= MAX_REGIONS
      modifies this`regions
      ensures Sound() && Committing(old(regions), regions, start, end, flags) && Bytes(regions) == old(Bytes(regions))
    {
      ghost var original := regions;
      BuffersAllocated(original);
      ProtectLoop(start, end, flags);
      BytesUnchanged(original);
      TileAfterCommit(original, regions, start, end, flags);
      BytesAfterProtect(original, regions, start, end, flags, maxAddress);
    }

    // The lowest free slot, for any alignment (0 stands for the page size); 0 when there is none.
    method FindFree(size: u64, start: u64, alignment: u64) returns (r: u64)
      requires ShapeOk()
      ensures var al := if alignment == 0 then PAGE_SIZE else alignment;
              var lo := Max(start, minAddress);
              && (r != 0 ==> size > 0 && LowestSlot(regions, maxAddress, r, size, lo, al))
              && (r == 0 ==> size == 0 || forall x :: !FreeSlot(regions, maxAddress, x, size, lo, al))
    {
      var al: u64 := if alignment == 0 then PAGE_SIZE else alignment;
      PageAlign(size);
      var alignedSize := AlignUp(size, PAGE_SIZE);
      if alignedSize == 0 || alignedSize > maxAddress {
        return 0;
      }
      var lo: u64 := Max(start, minAddress);
      var candidate := AlignUp(lo, al);
      FirstCandidate(size, lo, al);
      if candidate == 0 {
        return 0;
      }
      ghost var gap: nat := |regions|;
      for i := 0 to |regions|
        invariant lo <= candidate && candidate % al == 0 && 0 < candidate && gap == |regions|
        invariant forall k :: 0 <= k < i ==> regions[k].End() <= candidate
        invariant forall x :: x < candidate ==> !FreeSlot(regions, maxAddress, x, size, lo, al)
      {
        assert RegionOk(regions[i], maxAddress);
        var regionEnd: u64 := regions[i].address + regions[i].size;
        if regionEnd <= candidate {
          continue;
        }
        if candidate <= U64_MAX - alignedSize && regions[i].address >= candidate + alignedSize {
          gap := i;
          break;
        }
        NextCandidate(size, lo, al, candidate, i);
        candidate := AlignUp(regionEnd, al);
      }
      if candidate <= maxAddress && alignedSize <= maxAddress - candidate {
        GapIsFree(regions, gap, candidate, candidate + alignedSize);
        return candidate;
      }
      r := 0;
    }

    lemma FirstCandidate(size: u64, lo: u64, al: u64)
      requires ShapeOk() && al > 0 && lo > 0
      ensures var c := AlignUp(lo, al);
              && c % al == 0 && (c != 0 ==> lo <= c)
              && forall x :: x < c || c == 0 ==> !FreeSlot(regions, maxAddress, x, size, lo, al)
    {
      AlignUpLeast(lo, al, 0);
      forall x ensures x < AlignUp(lo, al) || AlignUp(lo, al) == 0 ==> !FreeSlot(regions, maxAddress, x, size, lo, al) {
        AlignUpLeast(lo, al, x);
      }
    }

    // Moving past a region that the candidate overlaps skips no free slot.
    lemma NextCandidate(size: u64, lo: u64, al: u64, candidate: u64, i: nat)
      requires ShapeOk() && al > 0 && size > 0 && i < |regions|
      requires candidate < regions[i].End() && regions[i].address < candidate + PageUp(size)
      requires forall x :: x < candidate ==> !FreeSlot(regions, maxAddress, x, size, lo, al)
      ensures regions[i].End() <= U64_MAX
      ensures var c := AlignUp(regions[i].End(), al);
              && c % al == 0 && regions[i].End() <= c
              && forall x :: x < c ==> !FreeSlot(regions, maxAddress, x, size, lo, al)
    {
      assert RegionOk(regions[i], maxAddress);
      var end: u64 := regions[i].End();
      AlignUpFits(end, al);
      AlignUpLeast(end, al, 0);
      forall x | x < AlignUp(end, al) ensures !FreeSlot(regions, maxAddress, x, size, lo, al) {
        AlignUpLeast(end, al, x);
        if candidate <= x && x < end {
          SlotHitsRegion(regions, i, x, x + PageUp(size));
        }
      }
    }

    // The overlap scan shared by reserve, mapFixed and isRangeFree.
    method ScanFree(start: u64, end: u64) returns (free: bool)
      requires ShapeOk() && start < end
      ensures free <==> RangeFree(regions, start, end)
    {
      for i := 0 to |regions|
        invariant forall k :: 0 <= k < i ==> regions[k].End() <= start || end <= regions[k].address
      {
        assert RegionOk(regions[i], maxAddress);
        if start < regions[i].address + regions[i].size && regions[i].address < end {
          SlotHitsRegion(regions, i, start, end);
          return false;
        }
      }
      forall a | start <= a < end ensures At(regions, a).Free? {
        AtFree(regions, a);
      }
      free := true;
    }

    method IsRangeFree(address: u64, size: u64) returns (free: bool)
      requires ShapeOk()
      ensures free <==> PageRange(address, size).Some? &&
                        RangeFree(regions, PageRange(address, size).value.0, PageRange(address, size).value.1)
    {
      var range := NormalizePageRange(address, size, maxAddress);
      if range.None? {
        return false;
      }
      NormalizeExact(address, size, maxAddress);
      free := ScanFree(range.value.0, range.value.1);
    }

    // Appends one reserved region over a free page range and sorts the list.
    method AppendReserved(start: u64, end: u64, name: string)
      requires Valid() && |regions| < MAX_REGIONS && start < end <= maxAddress
      requires start % PAGE_SIZE == 0 && end % PAGE_SIZE == 0 && RangeFree(regions, start, end)
      modifies this`regions
      ensures Valid() && Reserving(old(regions), regions, start, end, name)
      ensures Bytes(regions) == old(Bytes(regions))
      ensures |regions| == |old(regions)| + 1 && Without(regions, start) == old(regions)
      ensures ReservedRegion(start, end, name) in regions
    {
      ghost var original := regions;
      BuffersAllocated(original);
      AppendLayout(original, start, end, name, maxAddress);
      regions := SortedInsert(regions, ReservedRegion(start, end, name));
      BytesUnchanged(original);
      ReservingKeeps(original, regions, start, end, name, maxAddress);
    }

    // When a fixed reservation of [address, address + size) can be made.
    ghost predicate FixedRangeOk(address: u64, size: u64)
      reads this
    {
      && |regions| < MAX_REGIONS && PageRange(address, size).Some?
      && RangeFree(regions, PageRange(address, size).value.0, PageRange(address, size).value.1)
    }

    // Whether that many new bytes stay within both commit limits.
    ghost predicate AllocationFits(bytes: int)
      reads this
    {
      bytes <= MAX_SINGLE_COMMIT && committedBytes + bytes <= MAX_TOTAL_COMMIT
    }

    // When reserve succeeds: somewhere for address 0, else exactly on the requested pages.
    ghost predicate ReserveAllowed(address: u64, size: u64)
      reads this
    {
      && |regions| < MAX_REGIONS
      && if address == 0 then size > 0 && AnySlot(regions, maxAddress, size, minAddress, ALLOCATION_GRANULARITY)
         else FixedRangeOk(address, size) && PageDown(address) != 0
    }

    // Reserves whole pages: at the requested address, or at the lowest free 64 KiB boundary for address 0.
    method Reserve(address: u64, size: u64, name: string) returns (r: u64, ghost end: u64)
      requires Valid()
      modifies this`regions
      ensures Valid()
      ensures r != 0 <==> old(ReserveAllowed(address, size))
      ensures r == 0 ==> regions == old(regions)
      ensures r != 0 ==> r < end == r + PageSpan(address, size) <= maxAddress
      ensures r != 0 ==> r % PAGE_SIZE == 0 && end % PAGE_SIZE == 0
      ensures r != 0 ==> Reserving(old(regions), regions, r, end, name)
      ensures r != 0 ==> |regions| == |old(regions)| + 1 && Without(regions, r) == old(regions)
      ensures r != 0 ==> ReservedRegion(r, end, name) in regions
      ensures r != 0 && address != 0 ==> r == PageDown(address)
      ensures r != 0 && address == 0 ==>
                LowestSlot(old(regions), maxAddress, r, size, minAddress, ALLOCATION_GRANULARITY)
      ensures Bytes(regions) == old(Bytes(regions))
    {
      BuffersAllocated(regions);
      var range := FindRange(address, size);
      BytesUnchanged(regions);
      if range.None? {
        return 0, 0;
      }
      AppendReserved(range.value.0, range.value.1, name);
      r, end := range.value.0, range.value.1;
    }

    method FindAnywhere(size: u64) returns (range: Option<(u64, u64)>)
      requires Valid() && size > 0
      ensures range.Some? <==> AnySlot(regions, maxAddress, size, minAddress, ALLOCATION_GRANULARITY)
      ensures range.Some? ==>
                && 0 < range.value.0 && range.value.0 % PAGE_SIZE == 0 && range.value.1 % PAGE_SIZE == 0
                && range.value.1 == range.value.0 + PageUp(size)
                && LowestSlot(regions, maxAddress, range.value.0, size, minAddress, ALLOCATION_GRANULARITY)
    {
      PageAlign(size);
      var alignedSize := AlignUp(size, PAGE_SIZE);
      if alignedSize == 0 {
        return None;
      }
      PageUpTwice(size);
      var free := FindFree(alignedSize, minAddress, ALLOCATION_GRANULARITY);
      assert forall x :: FreeSlot(regions, maxAddress, x, alignedSize, minAddress, ALLOCATION_GRANULARITY)
                    <==> FreeSlot(regions, maxAddress, x, size, minAddress, ALLOCATION_GRANULARITY);
      if free == 0 {
        return None;
      }
      range := Some((free, free + alignedSize));
    }

    // The page range a reservation takes.
    method FindRange(address: u64, size: u64) returns (range: Option<(u64, u64)>)
      requires Valid()
      ensures range.Some? <==> ReserveAllowed(address, size)
      ensures range.Some? ==>
                var (start, end) := range.value;
                && 0 < start < end <= maxAddress && start % PAGE_SIZE == 0 && end % PAGE_SIZE == 0
                && end == start + PageSpan(address, size) && RangeFree(regions, start, end)
                && |regions| < MAX_REGIONS
                && (address != 0 ==> start == PageDown(address))
                && (address == 0 ==> LowestSlot(regions, maxAddress, start, size, minAddress, ALLOCATION_GRANULARITY))
    {
      if size == 0 || |regions| >= MAX_REGIONS {
        return None;
      }
      if address == 0 {
        range := FindAnywhere(size);
        return;
      }
      range := NormalizePageRange(address, size, maxAddress);
      NormalizeExact(address, size, maxAddress);
      if range.None? || range.value.0 == 0 {
        return None;
      }
      var free := ScanFree(range.value.0, range.value.1);
      if !free {
        range := None;
      }
    }

    // Frees the whole allocation that contains the address.
    method Release(address: u64) returns (ok: bool)
      requires Valid()
      modifies this`regions, this`committedBytes
      ensures Valid()
      ensures ok <==> At(old(regions), address).Mapped?
      ensures !ok ==> regions == old(regions) && committedBytes == old(committedBytes)
      ensures ok ==> var base := At(old(regions), address).base;
                     && 0 <= base <= address && regions == Without(old(regions), base)
                     && Releasing(old(regions), regions, base)
                     && (forall a :: a in Bytes(regions) <==>
                         a in old(Bytes(regions)) && At(old(regions), a).base != base)
                     && (forall a :: a in Bytes(regions) ==> Bytes(regions)[a] == old(Bytes(regions))[a])
    {
      BuffersAllocated(regions);
      var index := FindContainingIndex(address);
      if index < 0 {
        return false;
      }
      ghost var original := regions;
      RemoveAllocation(regions[index].base);
      BytesUnchanged(original);
      WithoutKeepsGaps(original, original[index].base, maxAddress);
      ReleasingKeeps(original, regions, original[index].base);
      forall a ensures a in Bytes(regions) <==> a in Bytes(original) && At(original, a).base != original[index].base {
        BytesDomain(original, maxAddress, a);
        BytesDomain(regions, maxAddress, a);
      }
      ok := true;
    }

    // The loop of release: drops every region of the allocation, from the back, and its share of the counter.
    method RemoveAllocation(base: u64)
      requires Valid()
      modifies this`regions, this`committedBytes
      ensures regions == Without(old(regions), base) && Releasing(old(regions), regions, base)
      ensures ListOk(regions, maxAddress) && |regions| <= |old(regions)|
      ensures committedBytes == |CommittedIn(regions, 0, maxAddress)| <= old(committedBytes)
    {
      CommittedSumCounts(regions, maxAddress);
      WithoutLayout(regions, base, maxAddress);
      RemoveLoop(base);
      CommittedSumCounts(regions, maxAddress);
    }

    method RemoveLoop(base: u64)
      requires committedBytes == CommittedSum(regions)
      modifies this`regions, this`committedBytes
      ensures regions == Without(old(regions), base)
      ensures committedBytes == CommittedSum(regions) <= old(committedBytes)
    {
      ghost var original := regions;
      var i := |regions| - 1;
      PartlyRemovedEnds(original, base);
      while i >= 0
        invariant -1 <= i < |original|
        invariant regions == PartlyRemoved(original, i + 1, base)
        invariant committedBytes == CommittedSum(regions) <= old(committedBytes)
      {
        RemoveStep(original, i, base);
        var r := regions[i];
        if r.base == base {
          if r.state == Committed {
            committedBytes := Max(committedBytes - r.size, 0);  // the saturation never acts
          }
          regions := regions[..i] + regions[i + 1..];
        }
        i := i - 1;
      }
    }

    // Commits a freshly reserved allocation, or takes the reservation back.
    method CommitReservation(start: u64, end: u64, flags: Flags, name: string, ghost before: seq<Region>)
        returns (ok: bool)
      requires Valid() && start < end <= maxAddress && start % PAGE_SIZE == 0 && end % PAGE_SIZE == 0
      requires Reserving(before, regions, start, end, name) && Without(regions, start) == before
      requires ReservedRegion(start, end, name) in regions
      modifies this`regions, this`committedBytes
      ensures Valid()
      ensures ok <==> old(AllocationFits(end - start))
      ensures !ok ==> regions == before
      ensures ok ==> Allocating(before, regions, start, end, flags, name)
      ensures ok ==> Bytes(regions) == Zeros(start, end) + old(Bytes(regions))
    {
      NewAllocation(before, regions, start, end, name, flags, maxAddress);
      ok := CommitAligned(start, end, flags);
      if !ok {
        var released := Release(start);
      }
    }

    // A commit of whole pages: rounding changes nothing.
    method CommitAligned(start: u64, end: u64, flags: Flags) returns (ok: bool)
      requires Valid() && start < end <= maxAddress && start % PAGE_SIZE == 0 && end % PAGE_SIZE == 0
      modifies this`regions, this`committedBytes
      ensures Valid()
      ensures ok <==> old(CommitAllowed(start, end, flags))
      ensures !ok ==> regions == old(regions) && committedBytes == old(committedBytes)
      ensures ok ==> Committing(old(regions), regions, start, end, flags)
      ensures ok ==> Bytes(regions) == Zeros(start, end) + old(Bytes(regions))
    {
      NormalizeExact(start, end - start, maxAddress);
      var range := NormalizePageRange(start, end - start, maxAddress);
      assert range == Some((start, end));
      ok := CommitPages(start, end, flags);
    }

    // Reserves and commits exactly the requested pages, address 0 included: all of it, or nothing.
    method MapFixed(address: u64, size: u64, flags: Flags, name: string) returns (ok: bool)
      requires Valid()
      modifies this`regions, this`committedBytes
      ensures Valid()
      ensures ok <==> old(FixedRangeOk(address, size) && AllocationFits(PageSpan(address, size)))
      ensures !ok ==> regions == old(regions) && committedBytes == old(committedBytes)
      ensures ok ==> var (start, end) := PageRange(address, size).value;
                     && Allocating(old(regions), regions, start, end, flags, name)
                     && Bytes(regions) == Zeros(start, end) + old(Bytes(regions))
    {
      hide NormalizePageRange, Allocating, Bytes, Filled, RangeFree, PageUp, PageDown, ListOk, NoAlias;
      if |regions| >= MAX_REGIONS {
        return false;
      }
      var range := NormalizePageRange(address, size, maxAddress);
      if range.None? {
        return false;
      }
      NormalizeExact(address, size, maxAddress);
      PageBounds(address, size);
      BuffersAllocated(regions);
      ok := ScanFree(range.value.0, range.value.1);
      BytesUnchanged(regions);
      if ok {
        ok := MapPages(range.value.0, range.value.1, flags, name);
      }
    }

    // The reservation and commit of mapFixed.
    method MapPages(start: u64, end: u64, flags: Flags, name: string) returns (ok: bool)
      requires Valid() && |regions| < MAX_REGIONS && start < end <= maxAddress
      requires start % PAGE_SIZE == 0 && end % PAGE_SIZE == 0 && RangeFree(regions, start, end)
      modifies this`regions, this`committedBytes
      ensures Valid()
      ensures ok <==> old(AllocationFits(end - start))
      ensures !ok ==> regions == old(regions) && committedBytes == old(committedBytes)
      ensures ok ==> Allocating(old(regions), regions, start, end, flags, name)
      ensures ok ==> Bytes(regions) == Zeros(start, end) + old(Bytes(regions))
    {
      ghost var before := regions;
      AppendReserved(start, end, name);
      ok := CommitReservation(start, end, flags, name, before);
    }

    // Reserve and commit in one call: all of it, or nothing.
    method Allocate(address: u64, size: u64, flags: Flags, name: string) returns (r: u64, ghost end: u64)
      requires Valid()
      modifies this`regions, this`committedBytes
      ensures Valid()
      ensures r != 0 <==> old(ReserveAllowed(address, size) && AllocationFits(PageSpan(address, size)))
      ensures r == 0 ==> regions == old(regions) && committedBytes == old(committedBytes)
      ensures r != 0 && address != 0 ==> r == PageDown(address)
      ensures r != 0 && address == 0 ==>
                LowestSlot(old(regions), maxAddress, r, size, minAddress, ALLOCATION_GRANULARITY)
      ensures r != 0 ==> r < end == r + PageSpan(address, size)
      ensures r != 0 ==> Allocating(old(regions), regions, r, end, flags, name)
      ensures r != 0 ==> Bytes(regions) == Zeros(r, end) + old(Bytes(regions))
    {
      ghost var before := regions;
      r, end := Reserve(address, size, name);
      if r == 0 {
        return;
      }
      var ok := CommitReserved(r, end, flags, name, before);
      if !ok {
        r := 0;
      }
    }

    method CommitReserved(start: u64, ghost end: u64, flags: Flags, name: string, ghost before: seq<Region>)
        returns (ok: bool)
      requires Valid() && start < end <= maxAddress && start % PAGE_SIZE == 0 && end % PAGE_SIZE == 0
      requires Reserving(before, regions, start, end, name) && Without(regions, start) == before
      requires ReservedRegion(start, end, name) in regions
      modifies this`regions, this`committedBytes
      ensures Valid()
      ensures ok <==> old(AllocationFits(end - start))
      ensures !ok ==> regions == before
      ensures ok ==> Allocating(before, regions, start, end, flags, name)
      ensures ok ==> Bytes(regions) == Zeros(start, end) + old(Bytes(regions))
    {
      hide Bytes, Zeros, At;
      BuffersAllocated(regions);
      var index := FindContainingIndex(start);
      BytesUnchanged(regions);
      ReservedIndex(regions, start, end, name, index);
      ok := CommitReservation(start, start + regions[index].size, flags, name, before);
    }

    method SetBits(newBits: int) returns (ok: bool)
      requires Valid()
      modifies this`bits, this`minAddress, this`maxAddress
      ensures Valid()
      ensures ok <==> (newBits == 32 || newBits == 64) && (regions == [] || newBits == old(bits))
      ensures bits == if ok then newBits else old(bits)
      ensures minAddress == 0x1_0000 && maxAddress == if bits == 32 then 0x7FFF_0000 else 0x7FFF_FFFF_0000
    {
      if (newBits != 32 && newBits != 64) || (regions != [] && newBits != bits) {
        return false;
      }
      bits := newBits;
      minAddress, maxAddress := MIN_ADDRESS, MaxAddressFor(newBits);
      if regions == [] {
        assert CommittedIn(regions, 0, maxAddress) == {};
        assert CommittedIn(regions, 0, old(maxAddress)) == {};
      }
      ok := true;
    }

    method Clear()
      requires Valid()
      modifies this`regions, this`committedBytes
      ensures Valid() && forall a :: At(regions, a).Free?
    {
      regions, committedBytes := [], 0;
      assert CommittedIn(regions, 0, maxAddress) == {};
    }

    // ---- byte access ----

    // Reads the bytes at [address, address + size) across regions and windows; fails as a whole.
    method Read(address: u64, size: u64) returns (ok: bool, data: seq<byte>)
      requires Valid()
      ensures ok <==> size == 0 || (size <= MAX_TOTAL_COMMIT && Has(Bytes(regions), address, size))
      ensures ok ==> Has(Bytes(regions), address, size) && data == Fetch(Bytes(regions), address, size)
      ensures !ok ==> data == []
    {
      hide At, NoAlias, AllocationsTile, CommittedIn, Coalesced;
      data := [];
      if size == 0 {
        return true, [];
      }
      BuffersAllocated(regions);
      CommittedHas(regions, maxAddress, address, size);
      var committed := IsRangeCommitted(address, size);
      BytesUnchanged(regions);
      if size > MAX_TOTAL_COMMIT || !committed {
        return false, [];
      }
      FitsAddressSpace(regions, maxAddress, address, size);
      hide Bytes;
      while |data| < size
        invariant |data| <= size
        invariant Has(Bytes(regions), address, |data|) && data == Fetch(Bytes(regions), address, |data|)
      {
        var current: u64 := address + |data|;
        var index, chunk := ChunkAt(current, size - |data|);
        var piece := ReadRegion(index, current, chunk);
        FetchStep(Bytes(regions), address, data, piece);
        data := data + piece;
      }
      ok := true;
    }

    // The region that holds a committed address, and how much of the rest of a transfer lies in it.
    method ChunkAt(current: u64, remaining: nat) returns (index: nat, chunk: nat)
      requires Valid() && remaining > 0 && IsCommitted(At(regions, current))
      ensures index < |regions| && regions[index].state == Committed && regions[index].Contains(current)
      ensures 0 < chunk <= remaining && current + chunk <= regions[index].End()
      ensures Bytes(regions) == old(Bytes(regions))
    {
      BuffersAllocated(regions);
      index := FindContainingIndex(current);
      var r := regions[index];
      assert RegionOk(r, maxAddress);
      var valid := ValidateBacking(r);
      chunk := Min(r.size - (current - r.address), remaining);
      BytesUnchanged(regions);
    }

    // The part of a read that falls into one region.
    method ReadRegion(index: nat, address: u64, count: nat) returns (piece: seq<byte>)
      requires Valid() && index < |regions| && regions[index].state == Committed
      requires regions[index].address <= address && address + count <= regions[index].End()
      ensures |piece| == count && Has(Bytes(regions), address, count) && piece == Fetch(Bytes(regions), address, count)
      ensures Bytes(regions) == old(Bytes(regions))
    {
      BuffersAllocated(regions);
      var r := regions[index];
      assert RegionOk(r, maxAddress);
      piece := ReadWindows(r.data, address - r.address, count);
      BytesUnchanged(regions);
      forall x | address <= x < address + count
        ensures x in Bytes(regions) && piece[x - address] == Bytes(regions)[x]
      {
        RegionBytes(regions, index, maxAddress, x);
        assert piece[x - r.address - (address - r.address)] == ByteAt(SliceAt(r.data, x - r.address));
      }
      FetchIs(Bytes(regions), address, piece);
    }

    // Overwrites exactly the bytes at [address, address + |data|), or nothing at all.
    method Write(address: u64, data: seq<byte>) returns (ok: bool)
      requires Valid() && |data| <= U64_MAX
      modifies Buffers(regions)
      ensures Valid()
      ensures ok <==> data == [] || (|data| <= MAX_TOTAL_COMMIT && Has(old(Bytes(regions)), address, |data|))
      ensures Bytes(regions) == if ok then Patch(old(Bytes(regions)), address, data) else old(Bytes(regions))
    {
      BuffersAllocated(regions);
      assert Bytes(regions) == Patch(Bytes(regions), address, []);
      if data == [] {
        return true;
      }
      CommittedHas(regions, maxAddress, address, |data|);
      var committed := IsRangeCommitted(address, |data|);
      BytesUnchanged(regions);
      if |data| > MAX_TOTAL_COMMIT || !committed {
        return false;
      }
      WriteLoop(address, data);
      ok := true;
    }

    method WriteLoop(address: u64, data: seq<byte>)
      requires Valid() && |data| <= MAX_TOTAL_COMMIT && AllCommitted(regions, address, address + |data|)
      modifies Buffers(regions)
      ensures Bytes(regions) == Patch(old(Bytes(regions)), address, data)
    {
      hide Bytes, Patch, At, NoAlias, AllocationsTile, Coalesced, CommittedIn, Buffers;
      FitsAddressSpace(regions, maxAddress, address, |data|);
      ghost var was := Bytes(regions);
      var done := 0;
      PatchNothing(was, address);
      assert data[..0] == [];
      while done < |data|
        invariant 0 <= done <= |data|
        invariant Bytes(regions) == Patch(was, address, data[..done])
      {
        var current: u64 := address + done;
        var index, chunk := ChunkAt(current, |data| - done);
        var piece := data[done..done + chunk];
        ghost var sofar := Bytes(regions);
        WriteRegion(index, current, piece);
        PatchStep(was, address, data, done, chunk, sofar, Bytes(regions));
        done := done + chunk;
      }
      assert data[..|data|] == data;
    }

    // The part of a write that falls into one region.
    method WriteRegion(index: nat, address: u64, data: seq<byte>)
      requires Valid() && index < |regions| && regions[index].state == Committed
      requires regions[index].address <= address && address + |data| <= regions[index].End()
      modifies Buffers(regions)
      ensures Bytes(regions) == Patch(old(Bytes(regions)), address, data)
    {
      hide Hit, DistinctPlaces, Holds, At, SliceAt, Bytes, Buffers, Patch, Maximal, NoAlias, AllocationsTile,
        CommittedIn, Coalesced;
      var r := regions[index];
      ghost var offset := address - r.address;
      assert RegionOk(r, maxAddress);
      BuffersAllocated(regions);
      WindowBuffersUsed(regions, index, maxAddress);
      RegionDistinct(regions, index, maxAddress, offset, offset + |data|);
      ghost var was := Bytes(regions);
      BytesAt(regions, maxAddress);
      WriteWindows(r.data, address - r.address, data);
      forall a | a in was && !(address <= a < address + |data|)
        ensures ByteAt(PlaceOf(At(regions, a))) == was[a]
      {
        NotHit(regions, index, maxAddress, a, offset, offset + |data|);
        ghost var p := PlaceOf(At(regions, a));
        assert p.buffer in WindowBuffers(r.data) ==> ByteAt(p) == old(ByteAt(p));
        assert p.buffer !in WindowBuffers(r.data) ==> ByteAt(p) == old(ByteAt(p));
      }
      RegionPatched(regions, index, maxAddress, offset, data, was);
    }

    // readByte, readWord, readDword and readQword: little-endian, and 0 when any byte is not committed.
    method ReadValue(address: u64, width: nat) returns (value: nat, ok: bool)
      requires Valid() && (width == 1 || width == 2 || width == 4 || width == 8)
      ensures ok <==> Has(Bytes(regions), address, width)
      ensures value == if ok then Load(Bytes(regions), address, width) else 0
    {
      var data;
      ok, data := Read(address, width);
      value := FromBytes(data);
    }

    // writeByte, writeWord, writeDword and writeQword.
    method WriteValue(address: u64, width: nat, value: nat) returns (ok: bool)
      requires Valid() && (width == 1 || width == 2 || width == 4 || width == 8) && value < Pow256(width)
      modifies Buffers(regions)
      ensures Valid()
      ensures ok <==> Has(old(Bytes(regions)), address, width)
      ensures Bytes(regions) == if ok then Store(old(Bytes(regions)), address, width, value) else old(Bytes(regions))
    {
      ok := Write(address, ToBytes(value, width));
    }

    // A split leaves no trace once the list is coalesced again: windows included, the list comes back.
    method SplitThenCoalesce(index: int, start: u64, end: u64) returns (mid: int)
      requires Valid() && start % PAGE_SIZE == 0 && end % PAGE_SIZE == 0
      modifies this`regions
      ensures regions == old(regions)
    {
      mid := Split(index, start, end);
      Coalesce();
      CanonicalUnique(old(regions), regions, maxAddress);
    }
  }

  lemma {:induction false} BytesAt(rs: seq<Region>, limit: int)
    requires ListOk(rs, limit)
    ensures forall a :: a in Bytes(rs) <==> Readable(PlaceOf(At(rs, a)))
    ensures forall a :: a in Bytes(rs) ==> Bytes(rs)[a] == ByteAt(PlaceOf(At(rs, a)))
  {
    forall a ensures a in Bytes(rs) <==> Readable(PlaceOf(At(rs, a))) {
      BytesDomain(rs, limit, a);
    }
  }

  lemma {:induction false} RegionPatched(rs: seq<Region>, i: nat, limit: int, offset: nat, data: seq<byte>,
                                         was: Bytemap)
    requires ListOk(rs, limit) && i < |rs| && rs[i].state == Committed && offset + |data| <= rs[i].size
    requires Holds(rs[i].data, offset, data)
    requires forall a :: a in was <==> Readable(PlaceOf(At(rs, a)))
    requires forall a :: a in was && !(rs[i].address + offset <= a < rs[i].address + offset + |data|) ==>
               ByteAt(PlaceOf(At(rs, a))) == was[a]
    ensures Bytes(rs) == Patch(was, rs[i].address + offset, data)
  {
    BytesAt(rs, limit);
    forall a | a in was
      ensures Bytes(rs)[a] == Patch(was, rs[i].address + offset, data)[a]
    {
      if rs[i].address + offset <= a < rs[i].address + offset + |data| {
        WrittenByte(rs, i, limit, offset, data, a);
      }
    }
  }

  lemma WrittenByte(rs: seq<Region>, i: nat, limit: int, offset: nat, data: seq<byte>, a: int)
    requires ListOk(rs, limit) && i < |rs| && rs[i].state == Committed && offset + |data| <= rs[i].size
    requires Holds(rs[i].data, offset, data) && rs[i].address + offset <= a < rs[i].address + offset + |data|
    ensures a in Bytes(rs) && Bytes(rs)[a] == data[a - rs[i].address - offset]
  {
    RegionBytes(rs, i, limit, a);
    assert ByteAt(SliceAt(rs[i].data, a - rs[i].address)) == data[a - rs[i].address - offset];
  }

  lemma RegionDistinct(rs: seq<Region>, i: nat, limit: int, lo: nat, hi: nat)
    requires ListOk(rs, limit) && NoAlias(rs) && i < |rs| && rs[i].state == Committed && hi <= rs[i].size
    ensures DistinctPlaces(rs[i].data, lo, hi)
  {
    forall x, y | lo <= x < hi && lo <= y < hi && SliceAt(rs[i].data, x) == SliceAt(rs[i].data, y)
      ensures x == y
    {
      RegionBytes(rs, i, limit, rs[i].address + x);
      RegionBytes(rs, i, limit, rs[i].address + y);
    }
  }

  lemma CommittedHas(rs: seq<Region>, limit: int, address: int, size: nat)
    requires ListOk(rs, limit)
    ensures Has(Bytes(rs), address, size) <==> AllCommitted(rs, address, address + size)
  {
    forall a ensures a in Bytes(rs) <==> IsCommitted(At(rs, a)) {
      BytesDomain(rs, limit, a);
    }
  }

  lemma FitsAddressSpace(rs: seq<Region>, limit: int, address: int, size: nat)
    requires ListOk(rs, limit) && AllCommitted(rs, address, address + size)
    ensures size > 0 ==> address + size <= limit
  {
    if size > 0 {
      AtBounds(rs, limit, address + size - 1);
    }
  }

  // An address outside the written stretch does not share a byte with it.
  lemma {:induction false} NotHit(rs: seq<Region>, i: nat, limit: int, a: int, lo: nat, hi: nat)
    requires ListOk(rs, limit) && NoAlias(rs) && i < |rs| && rs[i].state == Committed && hi <= rs[i].size
    requires PlaceOf(At(rs, a)).Place? && !(rs[i].address + lo <= a < rs[i].address + hi)
    ensures !Hit(rs[i].data, lo, hi, PlaceOf(At(rs, a)).buffer, PlaceOf(At(rs, a)).index)
  {
    forall x | lo <= x < hi ensures SliceAt(rs[i].data, x) != PlaceOf(At(rs, a)) {
      RegionBytes(rs, i, limit, rs[i].address + x);
    }
  }

  lemma ReservedIndex(ts: seq<Region>, start: u64, end: u64, name: string, index: nat)
    requires Ordered(ts) && start < end && ReservedRegion(start, end, name) in ts
    requires index < |ts| && ts[index].Contains(start)
    ensures ts[index] == ReservedRegion(start, end, name)
  {
  }

  // A fresh reservation can be committed without splitting anything.
  lemma NewAllocation(rs: seq<Region>, ts: seq<Region>, start: u64, end: u64, name: string, flags: Flags, limit: u64)
    requires ListOk(ts, limit) && start < end && ReservedRegion(start, end, name) in ts
    requires Reserving(rs, ts, start, end, name)
    ensures OneAllocation(ts, start, end) && |UncommittedIn(ts, start, end)| == end - start
    ensures CutBit(ts, start, flags) == 0 && CutBit(ts, end, flags) == 0
  {
    var i :| 0 <= i < |ts| && ts[i] == ReservedRegion(start, end, name);
    RegionBoundaries(ts, i);
    NoCutAcross(ts, start, flags);
    NoCutAcross(ts, end, flags);
    assert UncommittedIn(ts, start, end) == Interval(start, end);
  }

  // The list after the removal loop has worked its way down to index n.
  ghost function PartlyRemoved(rs: seq<Region>, n: nat, base: u64): seq<Region>
    requires n <= |rs|
  {
    rs[..n] + Without(rs[n..], base)
  }

  lemma {:induction false} PartlyRemovedEnds(rs: seq<Region>, base: u64)
    ensures PartlyRemoved(rs, |rs|, base) == rs && PartlyRemoved(rs, 0, base) == Without(rs, base)
  {
    assert rs[..|rs|] == rs && rs[|rs|..] == [] && rs[0..] == rs;
  }

  lemma RemoveStep(rs: seq<Region>, i: nat, base: u64)
    requires i < |rs|
    ensures var before, after := PartlyRemoved(rs, i + 1, base), PartlyRemoved(rs, i, base);
            && i < |before| && before[i] == rs[i]
            && after == (if rs[i].base == base then before[..i] + before[i + 1..] else before)
            && CommittedSum(after) == CommittedSum(before) - (if rs[i].base == base then CommittedSize(rs[i]) else 0)
  {
    var tail := Without(rs[i + 1..], base);
    var before := rs[..i + 1] + tail;
    assert rs[i..][1..] == rs[i + 1..];
    assert before == rs[..i] + ([rs[i]] + tail);
    assert before[..i] + before[i + 1..] == rs[..i] + tail;
    CommittedSumConcat(rs[..i], [rs[i]] + tail);
    CommittedSumConcat(rs[..i], tail);
    assert ([rs[i]] + tail)[1..] == tail;
  }

  lemma {:induction false} BasesFresh(rs: seq<Region>, start: int, limit: int)
    requires ListOk(rs, limit) && AllocationsTile(rs) && At(rs, start).Free?
    ensures forall i :: 0 <= i < |rs| ==> rs[i].base != start
  {
    forall i | 0 <= i < |rs| ensures rs[i].base != start {
      assert RegionOk(rs[i], limit);
      AtIndex(rs, i, rs[i].address);
      FreshBase(rs, start, rs[i].address);
    }
  }

  function ReservedRegion(start: u64, end: u64, name: string): Region
    requires start <= end
  {
    Region(start, end - start, start, Reserved, NO_FLAGS, name, [])
  }

  lemma {:induction false} AppendLayout(rs: seq<Region>, start: u64, end: u64, name: string, limit: u64)
    requires ListOk(rs, limit) && Coalesced(rs) && AllocationsTile(rs) && start < end <= limit
    requires start % PAGE_SIZE == 0 && end % PAGE_SIZE == 0 && RangeFree(rs, start, end)
    ensures var ts := SortedInsert(rs, ReservedRegion(start, end, name));
            && ListOk(ts, limit) && Coalesced(ts) && |ts| == |rs| + 1
            && Reserving(rs, ts, start, end, name)
            && Without(ts, start) == rs && ReservedRegion(start, end, name) in ts
  {
    hide At, SortedInsert, Without, AllocationsTile, Coalesced;
    var r := ReservedRegion(start, end, name);
    InsertLayout(rs, r, limit);
    InsertKeepsGaps(rs, r, limit);
    BasesFresh(rs, start, limit);
    WithoutInserted(rs, r);
    ReservedCells(start, end, name);
    var k := InsertSplits(rs, r);
    assert SortedInsert(rs, r)[k] == r;
  }

  lemma ReservedCells(start: u64, end: u64, name: string)
    requires start <= end
    ensures var r := ReservedRegion(start, end, name);
            forall a :: r.Contains(a) ==> CellOf(r, a) == Mapped(start, Reserved, NO_FLAGS, name, Nowhere)
  {
  }

  // ts is rs with one new committed allocation at [start, end).
  ghost predicate Allocating(rs: seq<Region>, ts: seq<Region>, start: int, end: int, flags: Flags, name: string) {
    && RangeFree(rs, start, end)
    && (forall a :: !(start <= a < end) ==> At(ts, a) == At(rs, a))
    && (forall a :: start <= a < end ==> At(ts, a) == Mapped(start, Committed, flags, name, PlaceOf(At(ts, a))))
  }

  // A range that findFree may return: aligned, at or above lo, with all its whole pages free and below the limit.
  ghost predicate FreeSlot(rs: seq<Region>, limit: u64, x: int, size: u64, lo: u64, alignment: u64)
    requires alignment > 0
  {
    lo <= x && x % alignment == 0 && x + PageUp(size) <= limit && RangeFree(rs, x, x + PageUp(size))
  }

  ghost predicate LowestSlot(rs: seq<Region>, limit: u64, x: int, size: u64, lo: u64, alignment: u64)
    requires alignment > 0
  {
    FreeSlot(rs, limit, x, size, lo, alignment) && forall y :: y < x ==> !FreeSlot(rs, limit, y, size, lo, alignment)
  }

  ghost predicate AnySlot(rs: seq<Region>, limit: u64, size: u64, lo: u64, alignment: u64)
    requires alignment > 0
  {
    exists x :: FreeSlot(rs, limit, x, size, lo, alignment)
  }

  // The gap between the regions before i and region i.
  lemma GapIsFree(rs: seq<Region>, i: nat, lo: int, hi: int)
    requires Ordered(rs) && i <= |rs| && (i < |rs| ==> hi <= rs[i].address)
    requires forall k :: 0 <= k < i ==> rs[k].End() <= lo
    requires forall k :: 0 <= k < |rs| ==> rs[k].size > 0
    ensures RangeFree(rs, lo, hi)
  {
    forall a | lo <= a < hi ensures At(rs, a).Free? {
      AtFree(rs, a);
      assert forall k :: i < k < |rs| ==> rs[i].End() <= rs[k].address;
    }
  }

  lemma SlotHitsRegion(rs: seq<Region>, i: nat, lo: int, hi: int)
    requires Ordered(rs) && i < |rs| && rs[i].size > 0 && lo < rs[i].End() && rs[i].address < hi && lo < hi
    ensures !RangeFree(rs, lo, hi)
  {
    var a := Max(lo, rs[i].address);
    AtIndex(rs, i, a);
  }

  // What swapping region mid for a committed one with the given flags does to the layout.
  lemma PaintLayout(rs: seq<Region>, mid: nat, m: Region, flags: Flags, limit: int)
    requires ListOk(rs, limit) && NoAlias(rs) && mid < |rs| && RegionOk(m, limit)
    requires m == rs[mid].(state := Committed, flags := flags, data := m.data)
    requires rs[mid].state == Committed ==> m.data == rs[mid].data
    requires rs[mid].state != Committed ==>
               && m.data != [] && m.data[0].buffer !in Buffers(rs)
               && (forall k :: 0 <= k < m.size ==> SliceAt(m.data, k) == Place(m.data[0].buffer, k))
    ensures ListOk(rs[mid := m], limit) && NoAlias(rs[mid := m])
    ensures forall a :: !m.Contains(a) ==> At(rs[mid := m], a) == At(rs, a)
    ensures forall a :: m.Contains(a) ==> Repainted(At(rs, a), At(rs[mid := m], a), flags)
    ensures rs[mid].state != Committed ==>
              forall a :: m.Contains(a) ==> PlaceOf(At(rs[mid := m], a)) == Place(m.data[0].buffer, a - m.address)
  {
    RegionCells(rs, mid);
    UpdateAt(rs, mid, m, limit);
    PlacesUsed(rs, limit);
    if rs[mid].state != Committed {
      forall a | m.Contains(a) ensures PlaceOf(At(rs[mid := m], a)) == Place(m.data[0].buffer, a - m.address) {
        assert SliceAt(m.data, a - m.address) == Place(m.data[0].buffer, a - m.address);
      }
      NoAliasPaint(rs, rs[mid := m], m.address, m.End(), m.data[0].buffer);
    } else {
      forall a
        ensures PlaceOf(At(rs[mid := m], a)) == PlaceOf(At(rs, a))
        ensures IsCommitted(At(rs[mid := m], a)) == IsCommitted(At(rs, a))
      {
        assert m.Contains(a) ==> At(rs, a) == CellOf(rs[mid], a) && At(rs[mid := m], a) == CellOf(m, a);
      }
      SamePlaces(rs, rs[mid := m], limit);
    }
  }

  lemma PaintCuts(rs: seq<Region>, mid: nat, m: Region, flags: Flags)
    requires mid < |rs| && !NeedsChange(m, flags) && m.address == rs[mid].address && m.size == rs[mid].size
    ensures forall x :: Cut(rs[mid := m], x, flags) ==> Cut(rs, x, flags)
    ensures forall x :: Boundary(rs, x) ==> Boundary(rs[mid := m], x)
  {
    forall x | Cut(rs[mid := m], x, flags) ensures Cut(rs, x, flags) {
      UpdateCuts(rs, mid, m, x, flags);
    }
  }

  // The stretch of [cursor, end) inside region i.
  lemma {:induction false} SliceFacts(rs: seq<Region>, i: nat, cursor: int, end: int, flags: Flags, limit: int)
    requires ListOk(rs, limit) && i < |rs| && rs[i].Contains(cursor) && cursor < end
    requires cursor % PAGE_SIZE == 0 && end % PAGE_SIZE == 0
    ensures var e := Min(end, rs[i].End());
            && cursor < e <= end && e % PAGE_SIZE == 0
            && (e < end ==> Boundary(rs, e))
            && (forall a :: cursor <= a < e ==> At(rs, a) == CellOf(rs[i], a))
            && CutBit(rs, cursor, flags) == (if cursor > rs[i].address && NeedsChange(rs[i], flags) then 1 else 0)
            && CutBit(rs, e, flags) == (if e < rs[i].End() && NeedsChange(rs[i], flags) then 1 else 0)
  {
    var e := Min(end, rs[i].End());
    assert RegionOk(rs[i], limit);
    EndAligned(rs[i]);
    RegionCells(rs, i);
    RegionBoundaries(rs, i);
    PieceGrowth(rs, i, cursor, e, flags);
  }

  lemma EndAligned(r: Region)
    requires PageAligned(r)
    ensures r.End() % PAGE_SIZE == 0
  {
  }

  lemma NewBackingOk(buffer: array<byte>, size: u64)
    requires buffer.Length == size > 0
    ensures var data := [Slice(buffer, 0, size)];
            && SlicesOk(data) && Maximal(data) && Total(data) == size
            && forall k :: 0 <= k < size ==> SliceAt(data, k) == Place(buffer, k)
  {
    var data := [Slice(buffer, 0, size)];
    assert data[1..] == [];
  }

  lemma JoinKeepsGap(rs: seq<Region>, i: nat, m: Region)
    requires i + 1 < |rs| && IsJoin(m, rs[i], rs[i + 1])
    requires forall j, k :: 0 <= j && k == j + 1 <= i ==> !Mergeable(rs[j], rs[k])
    ensures var ts := rs[..i] + [m] + rs[i + 2..];
            forall j, k :: 0 <= j && k == j + 1 <= i && k < |ts| ==> !Mergeable(ts[j], ts[k])
  {
    var ts := rs[..i] + [m] + rs[i + 2..];
    forall j, k | 0 <= j && k == j + 1 <= i && k < |ts| ensures !Mergeable(ts[j], ts[k]) {
      assert ts[j] == rs[j] && !Mergeable(rs[j], rs[k]);
      assert k < i ==> ts[k] == rs[k];
    }
  }
}
