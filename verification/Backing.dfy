// Backing slices: a committed region's bytes are a list of windows into shared byte buffers.

module Backing {
  import opened MachineTypes

  datatype Slice = Slice(buffer: array<byte>, offset: u64, size: u64)

  // Where one byte of guest memory lives in host memory.
  datatype Place = Nowhere | Place(buffer: array<byte>, index: int)

  ghost function Total(data: seq<Slice>): nat {
    if data == [] then 0 else data[0].size + Total(data[1..])
  }

  // The place of the byte at the given offset into the concatenation of all windows.
  function SliceAt(data: seq<Slice>, off: int): Place {
    if data == [] || off < 0 then Nowhere
    else if off < data[0].size then Place(data[0].buffer, data[0].offset + off)
    else SliceAt(data[1..], off - data[0].size)
  }

  predicate SliceOk(s: Slice) {
    s.size > 0 && s.offset + s.size <= s.buffer.Length <= U64_MAX
  }

  ghost predicate SlicesOk(data: seq<Slice>) {
    forall i :: 0 <= i < |data| ==> SliceOk(data[i])
  }

  predicate Contiguous(s: Slice, t: Slice) {
    s.buffer == t.buffer && s.offset + s.size == t.offset
  }

  // No two neighbouring windows could be one window.
  ghost predicate Maximal(data: seq<Slice>) {
    forall i, j :: 0 <= i && j == i + 1 < |data| ==> !Contiguous(data[i], data[j])
  }

  lemma {:induction false} TotalConcat(xs: seq<Slice>, ys: seq<Slice>)
    ensures Total(xs + ys) == Total(xs) + Total(ys)
  {
    if xs == [] {
      assert xs + ys == ys;
    } else {
      assert (xs + ys)[1..] == xs[1..] + ys;
      TotalConcat(xs[1..], ys);
    }
  }

  lemma {:induction false} SliceAtConcat(xs: seq<Slice>, ys: seq<Slice>, off: int)
    requires off >= 0
    ensures SliceAt(xs + ys, off) == if off < Total(xs) then SliceAt(xs, off) else SliceAt(ys, off - Total(xs))
  {
    if xs == [] {
      assert xs + ys == ys;
    } else {
      assert (xs + ys)[1..] == xs[1..] + ys;
      if off >= xs[0].size {
        SliceAtConcat(xs[1..], ys, off - xs[0].size);
      }
    }
  }

  lemma {:induction false} SliceAtBound(data: seq<Slice>, off: int)
    requires SlicesOk(data)
    ensures SliceAt(data, off).Place? <==> 0 <= off < Total(data)
    ensures SliceAt(data, off).Place? ==> 0 <= SliceAt(data, off).index < SliceAt(data, off).buffer.Length
  {
    if data != [] && off >= 0 && off >= data[0].size {
      SliceAtBound(data[1..], off - data[0].size);
    }
  }

  // Appends one window, extending the last one when the new one continues it.
  function AppendSlice(data: seq<Slice>, s: Slice): seq<Slice> {
    if s.size == 0 then data
    else if data != [] && Contiguous(data[|data| - 1], s) && s.size <= U64_MAX - data[|data| - 1].size then
      var last := data[|data| - 1];
      data[..|data| - 1] + [last.(size := last.size + s.size)]
    else data + [s]
  }

  lemma {:induction false} TotalLast(data: seq<Slice>, s: Slice)
    ensures Total(data + [s]) == Total(data) + s.size
  {
    TotalConcat(data, [s]);
    assert Total([s]) == s.size + Total([]);
  }

  lemma {:induction false} LastWithinTotal(data: seq<Slice>)
    ensures data != [] ==> data[|data| - 1].size <= Total(data)
  {
    if data != [] {
      assert data == data[..|data| - 1] + [data[|data| - 1]];
      TotalLast(data[..|data| - 1], data[|data| - 1]);
    }
  }

  lemma {:induction false} AppendSliceTotal(data: seq<Slice>, s: Slice)
    ensures Total(AppendSlice(data, s)) == Total(data) + s.size
  {
    if data != [] && Contiguous(data[|data| - 1], s) && s.size <= U64_MAX - data[|data| - 1].size {
      var init, last := data[..|data| - 1], data[|data| - 1];
      GrownTotal(init, last, last.(size := last.size + s.size));
      assert data == init + [last];
    } else {
      TotalLast(data, s);
    }
  }

  lemma {:induction false} GrownTotal(init: seq<Slice>, last: Slice, grown: Slice)
    ensures Total(init + [grown]) == Total(init + [last]) + grown.size - last.size
  {
    TotalLast(init, last);
    TotalLast(init, grown);
  }

  lemma {:induction false} AppendSliceOk(data: seq<Slice>, s: Slice)
    requires SlicesOk(data) && Maximal(data) && SliceOk(s) && Total(data) + s.size <= U64_MAX
    ensures SlicesOk(AppendSlice(data, s)) && Maximal(AppendSlice(data, s))
  {
    var r := AppendSlice(data, s);
    LastWithinTotal(data);
    forall i, j | 0 <= i && j == i + 1 < |r| ensures !Contiguous(r[i], r[j]) {
      assert j < |data| ==> !Contiguous(data[i], data[j]);
    }
  }

  // Extending the last window changes no byte's place compared with plain concatenation.
  lemma {:induction false} AppendSliceAt(data: seq<Slice>, s: Slice, off: int)
    requires off >= 0 && s.size > 0
    ensures SliceAt(AppendSlice(data, s), off) == SliceAt(data + [s], off)
  {
    if data != [] && Contiguous(data[|data| - 1], s) && s.size <= U64_MAX - data[|data| - 1].size {
      var init, last := data[..|data| - 1], data[|data| - 1];
      var grown := last.(size := last.size + s.size);
      assert data == init + [last];
      assert data + [s] == init + [last, s];
      SliceAtConcat(init, [last, s], off);
      SliceAtConcat(init, [grown], off);
      var rest := off - Total(init);
      if rest >= 0 {
        assert [last, s][1..] == [s] && [s][1..] == [] && [grown][1..] == [];
        assert SliceAt([s], rest - last.size)
            == if 0 <= rest - last.size < s.size then Place(s.buffer, s.offset + rest - last.size) else Nowhere;
        assert SliceAt([last, s], rest) == SliceAt([grown], rest);
      }
    }
  }

  // A maximal window list is determined by the places it gives to its bytes.
  lemma {:induction false} MaximalUnique(xs: seq<Slice>, ys: seq<Slice>)
    requires SlicesOk(xs) && SlicesOk(ys) && Maximal(xs) && Maximal(ys)
    requires forall k :: 0 <= k ==> SliceAt(xs, k) == SliceAt(ys, k)
    ensures xs == ys
  {
    assert SliceAt(xs, 0) == SliceAt(ys, 0);
    if xs != [] && ys != [] {
      HeadNotShorter(xs, ys);
      HeadNotShorter(ys, xs);
      assert xs[0] == ys[0];
      forall k | 0 <= k ensures SliceAt(xs[1..], k) == SliceAt(ys[1..], k) {
        assert SliceAt(xs, k + xs[0].size) == SliceAt(ys, k + xs[0].size);
      }
      MaximalUnique(xs[1..], ys[1..]);
    }
  }

  lemma {:induction false} HeadNotShorter(xs: seq<Slice>, ys: seq<Slice>)
    requires SlicesOk(xs) && SlicesOk(ys) && Maximal(xs) && xs != [] && ys != []
    requires forall k :: 0 <= k ==> SliceAt(xs, k) == SliceAt(ys, k)
    ensures xs[0].size >= ys[0].size
  {
    assert SliceAt(xs, 0) == SliceAt(ys, 0);
    assert |xs| > 1 ==> !Contiguous(xs[0], xs[1]);
    var k := xs[0].size;
    assert SliceAt(xs, k) == SliceAt(ys, k) && SliceAt(xs, k) == SliceAt(xs[1..], 0);
  }

  // ---- the loops over a region's windows ----

  lemma {:induction false} TakeOne(data: seq<Slice>, i: nat)
    requires i < |data|
    ensures Total(data[..i + 1]) == Total(data[..i]) + data[i].size
    ensures Total(data) == Total(data[..i + 1]) + Total(data[i + 1..])
  {
    assert data[..i + 1] == data[..i] + [data[i]];
    TotalLast(data[..i], data[i]);
    assert data == data[..i + 1] + data[i + 1..];
    TotalConcat(data[..i + 1], data[i + 1..]);
  }

  lemma {:induction false} SliceAtIndex(data: seq<Slice>, i: nat, off: int)
    requires i < |data| && Total(data[..i]) <= off < Total(data[..i]) + data[i].size
    ensures SliceAt(data, off) == Place(data[i].buffer, data[i].offset + off - Total(data[..i]))
  {
    assert data == data[..i] + data[i..];
    SliceAtConcat(data[..i], data[i..], off);
  }

  // Whether the windows are valid and add up to exactly the given size. The host bounds a buffer's length.
  method CheckWindows(data: seq<Slice>, size: u64) returns (ok: bool)
    requires forall i :: 0 <= i < |data| ==> data[i].buffer.Length <= U64_MAX
    ensures ok <==> SlicesOk(data) && Total(data) == size
  {
    var total: u64 := 0;
    for i := 0 to |data|
      invariant total == Total(data[..i]) && SlicesOk(data[..i])
    {
      TakeOne(data, i);
      if data[i].size == 0
         || data[i].offset > data[i].buffer.Length
         || data[i].size > data[i].buffer.Length - data[i].offset
         || total > U64_MAX - data[i].size
      {
        return false;
      }
      total := total + data[i].size;
    }
    assert data[..|data|] == data;
    ok := total == size;
  }

  ghost predicate IsWindow(result: seq<Slice>, data: seq<Slice>, off: int, size: int) {
    && SlicesOk(result) && Maximal(result) && Total(result) == size
    && forall k :: 0 <= k < size ==> SliceAt(result, k) == SliceAt(data, off + k)
  }

  lemma ExtendWindow(result: seq<Slice>, data: seq<Slice>, off: nat, size: nat, i: nat, piece: Slice)
    requires SlicesOk(data) && i < |data| && IsWindow(result, data, off, size)
    requires Total(data[..i]) <= off + size
    requires piece.buffer == data[i].buffer && piece.size > 0 && size + piece.size <= U64_MAX
    requires piece.offset == data[i].offset + off + size - Total(data[..i])
    requires off + size + piece.size <= Total(data[..i]) + data[i].size
    ensures IsWindow(AppendSlice(result, piece), data, off, size + piece.size)
  {
    AppendSliceOk(result, piece);
    AppendSliceTotal(result, piece);
    forall k | 0 <= k < size + piece.size
      ensures SliceAt(AppendSlice(result, piece), k) == SliceAt(data, off + k)
    {
      AppendSliceAt(result, piece, k);
      SliceAtConcat(result, [piece], k);
      if k >= size {
        SliceAtIndex(data, i, off + k);
      }
    }
  }

  // The windows of [offset, offset + size) of the bytes the given windows describe.
  method CutWindows(data: seq<Slice>, offset: u64, size: u64) returns (result: seq<Slice>)
    requires SlicesOk(data) && offset + size <= Total(data)
    ensures IsWindow(result, data, offset, size)
  {
    result := [];
    var skip: u64, remaining: u64 := offset, size;
    var i := 0;
    while i < |data| && remaining > 0
      invariant 0 <= i <= |data| && remaining <= size
      invariant remaining < size ==> skip == 0
      invariant remaining > 0 ==> Total(data[..i]) + skip == offset + (size - remaining)
      invariant IsWindow(result, data, offset, size - remaining)
    {
      TakeOne(data, i);
      if skip >= data[i].size {
        skip := skip - data[i].size;
      } else {
        var piece := Slice(data[i].buffer, data[i].offset + skip, Min(data[i].size - skip, remaining));
        ExtendWindow(result, data, offset, size - remaining, i, piece);
        result := AppendSlice(result, piece);
        remaining := remaining - piece.size;
        skip := 0;
      }
      i := i + 1;
    }
    assert data[..|data|] == data;
  }

  // Appends a whole window list to another, joining windows where they continue each other.
  method JoinWindows(left: seq<Slice>, right: seq<Slice>) returns (data: seq<Slice>)
    requires SlicesOk(left) && SlicesOk(right) && Maximal(left) && Total(left) + Total(right) <= U64_MAX
    ensures SlicesOk(data) && Maximal(data) && Total(data) == Total(left) + Total(right)
    ensures forall k :: 0 <= k ==> SliceAt(data, k) == SliceAt(left + right, k)
  {
    data := left;
    assert left + right[..0] == left;
    for j := 0 to |right|
      invariant SlicesOk(data) && Maximal(data) && Total(data) == Total(left) + Total(right[..j])
      invariant forall k :: 0 <= k ==> SliceAt(data, k) == SliceAt(left + right[..j], k)
    {
      TakeOne(right, j);
      AppendSliceOk(data, right[j]);
      AppendSliceTotal(data, right[j]);
      JoinStep(data, left, right, j);
      data := AppendSlice(data, right[j]);
    }
    assert right[..|right|] == right;
  }

  lemma {:induction false} JoinStep(data: seq<Slice>, left: seq<Slice>, right: seq<Slice>, j: nat)
    requires j < |right| && right[j].size > 0 && Total(data) == Total(left) + Total(right[..j])
    requires forall k :: 0 <= k ==> SliceAt(data, k) == SliceAt(left + right[..j], k)
    ensures forall k :: 0 <= k ==> SliceAt(AppendSlice(data, right[j]), k) == SliceAt(left + right[..j + 1], k)
  {
    assert left + right[..j + 1] == left + right[..j] + [right[j]];
    TotalConcat(left, right[..j]);
    forall k | 0 <= k
      ensures SliceAt(AppendSlice(data, right[j]), k) == SliceAt(left + right[..j + 1], k)
    {
      AppendSliceAt(data, right[j], k);
      SliceAtConcat(data, [right[j]], k);
      SliceAtConcat(left + right[..j], [right[j]], k);
    }
  }

  // ---- byte access through the windows ----

  ghost predicate Readable(p: Place) {
    p.Place? && 0 <= p.index < p.buffer.Length
  }

  ghost function ByteAt(p: Place): byte
    requires Readable(p)
    reads p.buffer
  {
    p.buffer[p.index]
  }

  ghost function WindowBuffers(data: seq<Slice>): set<array<byte>> {
    set i | 0 <= i < |data| :: data[i].buffer
  }

  method CopyIn(buffer: array<byte>, at: nat, bytes: seq<byte>)
    requires at + |bytes| <= buffer.Length
    modifies buffer
    ensures forall j :: 0 <= j < buffer.Length ==>
              buffer[j] == if at <= j < at + |bytes| then bytes[j - at] else old(buffer[j])
  {
    forall k | 0 <= k < |bytes| {
      buffer[at + k] := bytes[k];
    }
  }

  // The given bytes are what the windows hold from the given offset on.
  ghost predicate Holds(data: seq<Slice>, offset: int, bytes: seq<byte>)
    reads WindowBuffers(data)
  {
    forall x :: offset <= x < offset + |bytes| ==>
      Readable(SliceAt(data, x)) && SliceAt(data, x).buffer in WindowBuffers(data)
      && ByteAt(SliceAt(data, x)) == bytes[x - offset]
  }

  lemma {:induction false} PlaceInWindows(data: seq<Slice>, x: int)
    ensures SliceAt(data, x).Place? ==> SliceAt(data, x).buffer in WindowBuffers(data)
  {
    if data != [] && x >= 0 && x >= data[0].size {
      PlaceInWindows(data[1..], x - data[0].size);
      assert forall i :: 0 <= i < |data| - 1 ==> data[1..][i] == data[i + 1];
    }
  }

  method ReadWindows(data: seq<Slice>, offset: nat, count: nat) returns (bytes: seq<byte>)
    requires SlicesOk(data) && offset + count <= Total(data)
    ensures |bytes| == count && Holds(data, offset, bytes)
  {
    hide SliceAt, Maximal;
    bytes := [];
    var sliceBase, i := 0, 0;
    while i < |data| && |bytes| < count
      invariant 0 <= i <= |data| && |bytes| <= count
      invariant |bytes| < count ==> sliceBase == Total(data[..i]) <= offset + |bytes|
      invariant Holds(data, offset, bytes)
    {
      TakeOne(data, i);
      var position := offset + |bytes|;
      if position < sliceBase + data[i].size {
        var sliceOffset := position - sliceBase;
        var chunk := Min(data[i].size - sliceOffset, count - |bytes|);
        var at := data[i].offset + sliceOffset;
        ChunkPlaces(data, i, position, chunk);
        bytes := bytes + data[i].buffer[at..at + chunk];
      }
      sliceBase := sliceBase + data[i].size;
      i := i + 1;
    }
    assert data[..|data|] == data;
  }

  lemma {:induction false} ChunkPlaces(data: seq<Slice>, i: nat, position: nat, chunk: nat)
    requires i < |data| && Total(data[..i]) <= position && position + chunk <= Total(data[..i]) + data[i].size
    ensures data[i].buffer in WindowBuffers(data)
    ensures forall x :: position <= x < position + chunk ==>
              SliceAt(data, x) == Place(data[i].buffer, data[i].offset + x - Total(data[..i]))
  {
    forall x | position <= x < position + chunk
      ensures SliceAt(data, x) == Place(data[i].buffer, data[i].offset + x - Total(data[..i]))
    {
      SliceAtIndex(data, i, x);
    }
  }

  // Distinct positions of [lo, hi) live in distinct places.
  ghost predicate DistinctPlaces(data: seq<Slice>, lo: int, hi: int) {
    forall x, y :: lo <= x < hi && lo <= y < hi && SliceAt(data, x) == SliceAt(data, y) ==> x == y
  }

  ghost predicate Hit(data: seq<Slice>, lo: int, hi: int, b: array<byte>, j: int) {
    exists x :: lo <= x < hi && SliceAt(data, x) == Place(b, j)
  }

  // Overwrites the bytes at [offset, offset + |bytes|) and no other byte of any buffer.
  method WriteWindows(data: seq<Slice>, offset: nat, bytes: seq<byte>)
    requires SlicesOk(data) && offset + |bytes| <= Total(data)
    requires DistinctPlaces(data, offset, offset + |bytes|)
    modifies WindowBuffers(data)
    ensures Holds(data, offset, bytes)
    ensures forall b: array<byte>, j | b in WindowBuffers(data) && 0 <= j < b.Length ::
              Hit(data, offset, offset + |bytes|, b, j) || b[j] == old(b[j])
  {
    hide SliceAt, Maximal;
    var sliceBase, i, done := 0, 0, 0;
    while i < |data| && done < |bytes|
      invariant 0 <= i <= |data| && 0 <= done <= |bytes|
      invariant done < |bytes| ==> sliceBase == Total(data[..i]) <= offset + done
      invariant Holds(data, offset, bytes[..done])
      invariant forall b: array<byte>, j | b in WindowBuffers(data) && 0 <= j < b.Length ::
                  Hit(data, offset, offset + done, b, j) || b[j] == old(b[j])
    {
      TakeOne(data, i);
      var position := offset + done;
      if position < sliceBase + data[i].size {
        var sliceOffset := position - sliceBase;
        var chunk := Min(data[i].size - sliceOffset, |bytes| - done);
        var at := data[i].offset + sliceOffset;
        ChunkPlaces(data, i, position, chunk);
        WriteChunk(data, bytes[..done + chunk], done, data[i].buffer, at, offset, offset + done, offset + done + chunk);
        assert bytes[..done + chunk][..done] == bytes[..done];
        done := done + chunk;
      }
      sliceBase := sliceBase + data[i].size;
      i := i + 1;
    }
    assert data[..|data|] == data && bytes[..|bytes|] == bytes;
  }

  // One copy of the write loop: the bytes from index done on live in one stretch of one buffer.
  method WriteChunk(data: seq<Slice>, bytes: seq<byte>, done: nat, buffer: array<byte>, at: nat, ghost offset: nat,
                    ghost mid: nat, ghost end: nat)
    requires mid == offset + done <= end == offset + |bytes|
    requires at + |bytes| - done <= buffer.Length && buffer in WindowBuffers(data)
    requires DistinctPlaces(data, offset, end)
    requires forall x :: mid <= x < end ==> SliceAt(data, x) == Place(buffer, at + x - mid)
    requires Holds(data, offset, bytes[..done])
    modifies buffer
    ensures Holds(data, offset, bytes)
    ensures forall j | 0 <= j < buffer.Length :: Hit(data, offset, end, buffer, j) || buffer[j] == old(buffer[j])
    ensures forall b, j | Hit(data, offset, mid, b, j) :: Hit(data, offset, end, b, j)
  {
    CopyIn(buffer, at, bytes[done..]);
    forall j ensures at <= j < at + |bytes| - done ==> Hit(data, mid, end, buffer, j) {
      if at <= j < at + |bytes| - done {
        assert SliceAt(data, mid + j - at) == Place(buffer, j);
      }
    }
    assert forall j :: Hit(data, mid, end, buffer, j) ==> Hit(data, offset, end, buffer, j);
    forall x | offset <= x < end
      ensures Readable(SliceAt(data, x)) && SliceAt(data, x).buffer in WindowBuffers(data)
              && ByteAt(SliceAt(data, x)) == bytes[x - offset]
    {
      PlaceInWindows(data, x);
      if x < mid {
        var p := SliceAt(data, x);
        assert bytes[..done][x - offset] == bytes[x - offset];
        assert !Hit(data, mid, end, p.buffer, p.index);
      }
    }
  }
}
