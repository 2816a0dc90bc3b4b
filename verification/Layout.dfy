// Predicates over the per-address layout that every call of the memory manager keeps.

module Layout {
  import opened MachineTypes
  import opened Backing
  import opened Regions
  import opened FlatMemory

  function PlaceOf(c: Cell): Place {
    if c.Mapped? then c.place else Nowhere
  }

  // No two addresses share a backing byte.
  ghost predicate NoAlias(rs: seq<Region>) {
    forall a: int, b: int :: PlaceOf(At(rs, a)).Place? && PlaceOf(At(rs, a)) == PlaceOf(At(rs, b)) ==> a == b
  }

  // Every allocation is one contiguous range that starts at its base and carries one name.
  ghost predicate AllocationsTile(rs: seq<Region>) {
    && (forall a: int :: At(rs, a).Mapped? ==> At(rs, a).base <= a)
    && (forall a: int, c: int :: At(rs, a).Mapped? && At(rs, a).base <= c <= a ==>
          At(rs, c).Mapped? && At(rs, c).base == At(rs, a).base && At(rs, c).name == At(rs, a).name)
  }

  ghost function CommittedIn(rs: seq<Region>, lo: int, hi: int): set<int> {
    set a: int | lo <= a < hi && IsCommitted(At(rs, a))
  }

  ghost function UncommittedIn(rs: seq<Region>, lo: int, hi: int): set<int> {
    set a: int | lo <= a < hi && !IsCommitted(At(rs, a))
  }

  ghost function Interval(lo: int, hi: int): (s: set<int>)
    requires lo <= hi
    ensures forall a :: a in s <==> lo <= a < hi
    ensures |s| == hi - lo
    decreases hi - lo
  {
    if lo == hi then {} else Interval(lo, hi - 1) + {hi - 1}
  }

  // Extending the counted range by a stretch that is committed throughout or nowhere.
  lemma {:induction false} UncommittedStep(rs: seq<Region>, lo: int, mid: int, hi: int, committed: bool)
    requires lo <= mid <= hi
    requires forall a :: mid <= a < hi ==> IsCommitted(At(rs, a)) == committed
    ensures |UncommittedIn(rs, lo, hi)| == |UncommittedIn(rs, lo, mid)| + (if committed then 0 else hi - mid)
  {
    if committed {
      assert UncommittedIn(rs, lo, hi) == UncommittedIn(rs, lo, mid);
    } else {
      assert UncommittedIn(rs, lo, hi) == UncommittedIn(rs, lo, mid) + Interval(mid, hi);
    }
  }

  // Committing [lo, hi) adds exactly the addresses that were not committed before.
  lemma {:induction false} CommittedGrows(rs: seq<Region>, ts: seq<Region>, lo: int, hi: int, limit: int)
    requires 0 <= lo <= hi <= limit
    requires forall a :: lo <= a < hi ==> IsCommitted(At(ts, a))
    requires forall a :: !(lo <= a < hi) ==> IsCommitted(At(ts, a)) == IsCommitted(At(rs, a))
    ensures |CommittedIn(ts, 0, limit)| == |CommittedIn(rs, 0, limit)| + |UncommittedIn(rs, lo, hi)|
  {
    assert CommittedIn(ts, 0, limit) == CommittedIn(rs, 0, limit) + UncommittedIn(rs, lo, hi);
  }

  // ---- bytes ----

  ghost function Buffers(rs: seq<Region>): set<array<byte>> {
    set a: int | 0 <= a < U64_MAX && PlaceOf(At(rs, a)).Place? :: PlaceOf(At(rs, a)).buffer
  }

  lemma {:induction false} PlacesUsed(rs: seq<Region>, limit: int)
    requires ListOk(rs, limit)
    ensures forall a :: PlaceOf(At(rs, a)).Place? ==> PlaceOf(At(rs, a)).buffer in Buffers(rs)
  {
    forall a | PlaceOf(At(rs, a)).Place? ensures PlaceOf(At(rs, a)).buffer in Buffers(rs) {
      AtBounds(rs, limit, a);
    }
  }

  lemma BuffersAllocated(rs: seq<Region>)
    ensures forall b: array<byte> :: b in Buffers(rs) ==> allocated(b)
  {
    assert forall a: int :: PlaceOf(At(rs, a)).Place? ==> allocated(PlaceOf(At(rs, a)).buffer);
  }

  // A region list means the same bytes as long as its buffers are not written.
  twostate lemma {:induction false} BytesUnchanged(rs: seq<Region>)
    requires forall b: array<byte> :: b in Buffers(rs) ==> unchanged(b)
    ensures Bytes(rs) == old(Bytes(rs))
  {
  }

  // The flat memory a region list stands for: one byte per committed address.
  ghost function Bytes(rs: seq<Region>): Bytemap
    reads Buffers(rs)
  {
    map a: int | 0 <= a < U64_MAX && Readable(PlaceOf(At(rs, a))) :: ByteAt(PlaceOf(At(rs, a)))
  }

  lemma {:induction false} BytesDomain(rs: seq<Region>, limit: int, a: int)
    requires ListOk(rs, limit)
    ensures a in Bytes(rs) <==> IsCommitted(At(rs, a))
    ensures Readable(PlaceOf(At(rs, a))) <==> IsCommitted(At(rs, a))
  {
    if At(rs, a).Mapped? { AtBounds(rs, limit, a); }
  }

  // A committed region's bytes are reached through its own windows.
  lemma {:induction false} RegionBytes(rs: seq<Region>, i: nat, limit: int, a: int)
    requires ListOk(rs, limit) && i < |rs| && rs[i].state == Committed && rs[i].Contains(a)
    ensures a in Bytes(rs) && PlaceOf(At(rs, a)) == SliceAt(rs[i].data, a - rs[i].address)
    ensures Readable(PlaceOf(At(rs, a))) && Bytes(rs)[a] == ByteAt(PlaceOf(At(rs, a)))
  {
    AtIndex(rs, i, a);
    BytesDomain(rs, limit, a);
  }

  lemma WindowBuffersUsed(rs: seq<Region>, i: nat, limit: int)
    requires ListOk(rs, limit) && i < |rs| && rs[i].state == Committed
    ensures WindowBuffers(rs[i].data) <= Buffers(rs)
  {
    var data := rs[i].data;
    assert RegionOk(rs[i], limit);
    PlacesUsed(rs, limit);
    forall j | 0 <= j < |data| ensures data[j].buffer in Buffers(rs) {
      TakeOne(data, j);
      SliceAtIndex(data, j, Total(data[..j]));
      AtIndex(rs, i, rs[i].address + Total(data[..j]));
      assert PlaceOf(At(rs, rs[i].address + Total(data[..j]))).buffer == data[j].buffer;
    }
  }

  lemma SameLayoutKeeps(rs: seq<Region>, ts: seq<Region>, limit: int)
    requires SameLayout(rs, ts)
    ensures NoAlias(rs) ==> NoAlias(ts)
    ensures AllocationsTile(rs) ==> AllocationsTile(ts)
    ensures CommittedIn(rs, 0, limit) == CommittedIn(ts, 0, limit)
    ensures Bytes(rs) == Bytes(ts)
  {
    if AllocationsTile(rs) {
      forall a, c | At(ts, a).Mapped? && At(ts, a).base <= c <= a
        ensures At(ts, c).Mapped? && At(ts, c).base == At(ts, a).base && At(ts, c).name == At(ts, a).name
      {
        assert At(rs, a) == At(ts, a) && At(rs, c) == At(ts, c);
      }
    }
  }

  ghost predicate SameAttributes(c: Cell, d: Cell) {
    && c.Mapped? && d.Mapped? && c.base == d.base && c.name == d.name
    && c.state == d.state && c.flags == d.flags
  }

  ghost predicate AllCommitted(rs: seq<Region>, start: int, end: int) {
    forall a :: start <= a < end ==> IsCommitted(At(rs, a))
  }

  lemma {:induction false} FreeAbove(rs: seq<Region>, limit: int, a: int)
    requires ListOk(rs, limit) && a >= limit
    ensures At(rs, a).Free?
  {
    if At(rs, a).Mapped? { AtBounds(rs, limit, a); }
  }

  // d is what committing with the given flags makes of c: kept bytes keep their place.
  ghost predicate Repainted(c: Cell, d: Cell, flags: Flags) {
    && c.Mapped? && d == Mapped(c.base, Committed, flags, c.name, PlaceOf(d))
    && (IsCommitted(c) ==> PlaceOf(d) == PlaceOf(c))
  }

  lemma {:induction false} NoAliasPaint(rs: seq<Region>, ts: seq<Region>, lo: int, hi: int, buffer: array<byte>)
    requires NoAlias(rs)
    requires forall a :: !(lo <= a < hi) ==> At(ts, a) == At(rs, a)
    requires forall a :: lo <= a < hi ==> PlaceOf(At(ts, a)) == Place(buffer, a - lo)
    requires forall a :: PlaceOf(At(rs, a)).Place? ==> PlaceOf(At(rs, a)).buffer != buffer
    ensures NoAlias(ts)
  {
  }

  // ts is rs with every address of [start, end) committed with the given flags.
  ghost predicate Committing(rs: seq<Region>, ts: seq<Region>, start: int, end: int, flags: Flags) {
    && (forall a :: !(start <= a < end) ==> At(ts, a) == At(rs, a))
    && (forall a :: start <= a < end ==> Repainted(At(rs, a), At(ts, a), flags))
  }

  lemma TileAfterCommit(rs: seq<Region>, ts: seq<Region>, start: int, end: int, flags: Flags)
    requires AllocationsTile(rs) && Committing(rs, ts, start, end, flags)
    ensures AllocationsTile(ts)
  {
    assert forall a :: At(ts, a).Mapped? <==> At(rs, a).Mapped?;
    assert forall a :: At(ts, a).Mapped? ==> At(ts, a).base == At(rs, a).base && At(ts, a).name == At(rs, a).name;
  }

  // Committing keeps the bytes that were there and zeroes the new ones.
  lemma {:induction false} BytesAfterCommit(rs: seq<Region>, ts: seq<Region>, start: int, end: int, flags: Flags,
                                            limit: int)
    requires ListOk(rs, limit) && ListOk(ts, limit) && Committing(rs, ts, start, end, flags) && start <= end
    requires forall a :: start <= a < end && !IsCommitted(At(rs, a)) ==>
               Readable(PlaceOf(At(ts, a))) && ByteAt(PlaceOf(At(ts, a))) == 0
    ensures Bytes(ts) == Zeros(start, end) + Bytes(rs)
  {
    forall a ensures a in Bytes(ts) <==> a in Zeros(start, end) || a in Bytes(rs) {
      BytesDomain(rs, limit, a);
      BytesDomain(ts, limit, a);
    }
    forall a | a in Bytes(ts) ensures Bytes(ts)[a] == (Zeros(start, end) + Bytes(rs))[a] {
      BytesDomain(rs, limit, a);
      BytesDomain(ts, limit, a);
    }
  }

  // Byte-level facts depend only on which addresses are committed and where their bytes live.
  lemma {:induction false} SamePlaces(rs: seq<Region>, ts: seq<Region>, limit: int)
    requires forall a :: PlaceOf(At(ts, a)) == PlaceOf(At(rs, a)) && IsCommitted(At(ts, a)) == IsCommitted(At(rs, a))
    ensures NoAlias(rs) ==> NoAlias(ts)
    ensures CommittedIn(ts, 0, limit) == CommittedIn(rs, 0, limit)
    ensures Bytes(ts) == Bytes(rs)
  {
  }

  // Repainting committed memory moves no byte.
  lemma BytesAfterProtect(rs: seq<Region>, ts: seq<Region>, start: int, end: int, flags: Flags, limit: int)
    requires ListOk(rs, limit) && ListOk(ts, limit) && Committing(rs, ts, start, end, flags)
    requires AllCommitted(rs, start, end)
    ensures Bytes(ts) == Bytes(rs)
    ensures CommittedIn(ts, 0, limit) == CommittedIn(rs, 0, limit)
  {
    SamePlaces(rs, ts, limit);
  }
}
