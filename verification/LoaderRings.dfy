// Circular doubly linked lists kept in guest memory, as the Windows loader data keeps its three module lists.

module LoaderRings {
  import opened MachineTypes
  import opened FlatMemory
  import opened GuestMemory

  // The pointer size of a 32-bit or 64-bit process.
  type PointerSize = p: nat | p == 4 || p == 8 witness 4

  ghost function Pointer(m: Bytemap, a: u64, p: PointerSize): u64 { LoadOr0(m, a, p) }

  predicate Apart(a: int, b: int, n: nat) { a + n <= b || b + n <= a }

  // List links: a forward pointer, then a backward pointer. They are writable, disjoint, and their addresses are
  // representable non-null pointers.
  ghost predicate Cells(m: Bytemap, p: PointerSize, cells: seq<u64>) {
    && (forall i :: 0 <= i < |cells| ==> 0 < cells[i] && cells[i] + 2 * p <= Pow256(p) && Has(m, cells[i], 2 * p))
    && (forall i, j :: 0 <= i < j < |cells| ==> Apart(cells[i], cells[j], 2 * p))
  }

  // Once around the ring, from the head back to it.
  function Round(head: u64, nodes: seq<u64>): seq<u64> { [head] + nodes + [head] }

  // The forward pointer of link a leads to link b, and the backward pointer behind that one leads back.
  ghost predicate Linked(m: Bytemap, p: PointerSize, a: u64, b: u64) {
    Pointer(m, a, p) == b && b + p < 0x1_0000_0000_0000_0000 && Pointer(m, b + p, p) == a
  }

  ghost predicate Ring(m: Bytemap, p: PointerSize, head: u64, nodes: seq<u64>) {
    && Cells(m, p, [head] + nodes)
    && var c := Round(head, nodes);
       forall i, j :: 0 <= i && j == i + 1 < |c| ==> Linked(m, p, c[i], c[j])
  }

  // Nothing but the two pointers of the given links differs.
  ghost predicate OnlyCells(m: Bytemap, m': Bytemap, p: PointerSize, cells: seq<u64>) {
    && m'.Keys == m.Keys
    && forall x :: x in m && (forall i :: 0 <= i < |cells| ==> !(cells[i] <= x < cells[i] + 2 * p)) ==> m'[x] == m[x]
  }

  lemma PointerFrame(m: Bytemap, m': Bytemap, a: u64, p: PointerSize)
    requires m.Keys == m'.Keys && forall x :: a <= x < a + p && x in m ==> m[x] == m'[x]
    ensures Pointer(m', a, p) == Pointer(m, a, p)
  {
    if Has(m, a, p) {
      FetchFrame(m, m', a, p);
    }
  }

  lemma {:induction false} PointerStored(m: Bytemap, a: u64, v: u64, p: PointerSize)
    requires Has(m, a, p) && v < Pow256(p)
    ensures Pointer(StoreIf(m, a, p, v), a, p) == v
    ensures StoreIf(m, a, p, v).Keys == m.Keys
  {
    LoadStored(m, a, p, v);
  }

  function PointerValue(v: u64, p: PointerSize): u64 { if p == 8 then v else v % 0x1_0000_0000 }

  // One pointer was written and nothing else.
  ghost predicate Wrote(m: Bytemap, m': Bytemap, p: PointerSize, a: u64, v: u64) {
    && m'.Keys == m.Keys && Pointer(m', a, p) == v
    && (forall b: u64 :: Apart(a, b, p) ==> Pointer(m', b, p) == Pointer(m, b, p))
    && (forall x :: x in m && !(a <= x < a + p) ==> m'[x] == m[x])
  }

  // Both pointers of a link stay while its bytes do.
  lemma LinkFrame(m: Bytemap, m': Bytemap, a: u64, p: PointerSize)
    requires m.Keys == m'.Keys && forall x :: a <= x < a + 2 * p ==> x in m && m[x] == m'[x]
    ensures Pointer(m', a, p) == Pointer(m, a, p)
    ensures a + p < 0x1_0000_0000_0000_0000 ==> Pointer(m', a + p, p) == Pointer(m, a + p, p)
  {
    hide Pointer;
    PointerFrame(m, m', a, p);
    if a + p < 0x1_0000_0000_0000_0000 {
      PointerFrame(m, m', a + p, p);
    }
  }

  // A ring stays one while its links' bytes do.
  lemma RingFramed(m: Bytemap, m': Bytemap, p: PointerSize, head: u64, nodes: seq<u64>)
    requires Ring(m, p, head, nodes) && m.Keys == m'.Keys
    requires forall x, i ::
               0 <= i < |[head] + nodes| && ([head] + nodes)[i] <= x < ([head] + nodes)[i] + 2 * p ==>
                 x in m && m[x] == m'[x]
    ensures Ring(m', p, head, nodes)
  {
    hide Cells, Pointer, Has;
    var c, cells := Round(head, nodes), [head] + nodes;
    CellsKept(m, m', p, cells);
    forall i, j | 0 <= i && j == i + 1 < |c| ensures Linked(m', p, c[i], c[j]) {
      assert c[i] == cells[i] && c[j] == if j == |cells| then cells[0] else cells[j];
      LinkFrame(m, m', c[i], p);
      LinkFrame(m, m', c[j], p);
    }
  }

  class Loader {
    const guest: Guest
    const p: PointerSize

    constructor (guest: Guest, p: PointerSize)
      ensures this.guest == guest && this.p == p
    {
      this.guest, this.p := guest, p;
    }

    // A 32-bit process keeps the low half of the value. Where the pointer's bytes are missing, nothing changes.
    method WritePtr(a: u64, v: u64) returns (ok: bool)
      modifies guest
      ensures ok <==> Has(old(guest.bytes), a, p)
      ensures ok ==> Wrote(old(guest.bytes), guest.bytes, p, a, PointerValue(v, p))
      ensures !ok ==> guest.bytes == old(guest.bytes)
    {
      ghost var m := guest.bytes;
      var value := PointerValue(v, p);
      ok := guest.WriteSized(a, p, value);
      if ok {
        Pow256Values();
        PointerStored(m, a, value, p);
        assert forall x :: x in guest.bytes <==> x in m;
        forall b: u64 | Apart(a, b, p) ensures Pointer(guest.bytes, b, p) == Pointer(m, b, p) {
          PointerFrame(m, guest.bytes, b, p);
        }
      }
    }

    method ReadPtr(a: u64) returns (v: u64)
      ensures v == Pointer(guest.bytes, a, p)
    {
      var ok;
      v, ok := guest.ReadSized(a, p);
    }

    // Points link a forward to link b and b back to a.
    method Join(a: u64, b: u64, ghost cells: seq<u64>, ghost i: nat, ghost j: nat)
      requires Cells(guest.bytes, p, cells) && i < |cells| && j < |cells| && a == cells[i] && b == cells[j]
      modifies guest
      ensures Joined(old(guest.bytes), guest.bytes, p, cells, i, j)
    {
      hide Has, Pointer;
      CellFacts(guest.bytes, p, cells);
      var _ := WritePtr(a, b);
      ghost var m := guest.bytes;
      CellsKept(old(guest.bytes), m, p, cells);
      CellFacts(m, p, cells);
      var _ := WritePtr(b + p, a);
      JoinedBy(old(guest.bytes), m, guest.bytes, p, cells, i, j);
    }

    // Builds the ring of the given entries' links, in order.
    method LinkList(head: u64, offset: nat, entries: seq<u64>)
      requires forall i :: 0 <= i < |entries| ==> entries[i] + offset < 0x1_0000_0000_0000_0000
      requires Cells(guest.bytes, p, [head] + LinksOf(entries, offset))
      modifies guest
      ensures Ring(guest.bytes, p, head, LinksOf(entries, offset))
      ensures OnlyCells(old(guest.bytes), guest.bytes, p, [head] + LinksOf(entries, offset))
    {
      hide Linked, OnlyCells, Cells, Joined, Ring;
      ghost var links := LinksOf(entries, offset);
      ghost var cells := [head] + links;
      OnlyCellsStart(guest.bytes, p, cells);
      if entries == [] {
        Join(head, head, cells, 0, 0);
        RingClosed(old(guest.bytes), guest.bytes, p, head, links);
        OnlyCellsStep(old(guest.bytes), old(guest.bytes), guest.bytes, p, cells, 0, 0);
        return;
      }
      var prev := head;
      for i := 0 to |entries|
        invariant prev == cells[i] && Cells(guest.bytes, p, cells)
        invariant Chain(guest.bytes, p, cells, i)
        invariant OnlyCells(old(guest.bytes), guest.bytes, p, cells)
      {
        var link: u64 := entries[i] + offset;
        ghost var m := guest.bytes;
        Join(prev, link, cells, i, i + 1);
        ChainStep(m, guest.bytes, p, cells, i);
        OnlyCellsStep(old(guest.bytes), m, guest.bytes, p, cells, i, i + 1);
        prev := link;
      }
      ghost var m := guest.bytes;
      Join(prev, head, cells, |entries|, 0);
      RingClosed(m, guest.bytes, p, head, links);
      OnlyCellsStep(old(guest.bytes), m, guest.bytes, p, cells, |entries|, 0);
    }

    // Adds a link at the tail.
    method LdrAppend(head: u64, link: u64, ghost nodes: seq<u64>)
      requires Ring(guest.bytes, p, head, nodes) && Cells(guest.bytes, p, [head] + nodes + [link])
      modifies guest
      ensures Ring(guest.bytes, p, head, nodes + [link])
      ensures OnlyCells(old(guest.bytes), guest.bytes, p, [head] + nodes + [link])
    {
      hide Has, Pointer, Cells, Linked, OnlyCells, Ring, Wrote;
      ghost var m := guest.bytes;
      AppendFacts(m, p, head, link, nodes);
      var oldLast := ReadPtr(head + p);
      var _ := WritePtr(link, head);
      ghost var m1 := guest.bytes;
      WroteKeeps(m, m1, p, link, head);
      var _ := WritePtr(link + p, oldLast);
      ghost var m2 := guest.bytes;
      WroteKeeps(m1, m2, p, link + p, oldLast);
      var _ := WritePtr(oldLast, link);
      ghost var m3 := guest.bytes;
      WroteKeeps(m2, m3, p, oldLast, link);
      var _ := WritePtr(head + p, link);
      Appended(m, m1, m2, m3, guest.bytes, p, head, link, nodes);
    }

    // The entry whose module base is dllBase: the first among the ring's first 128, or 0.
    method FindLdrEntryByBase(head: u64, offset: nat, baseOffset: nat, dllBase: u64, ghost nodes: seq<u64>)
      returns (entry: u64)
      requires head != 0 ==> Ring(guest.bytes, p, head, nodes)
      requires forall i ::
                 0 <= i < |nodes| ==> offset <= nodes[i] && nodes[i] - offset + baseOffset < 0x1_0000_0000_0000_0000
      ensures head == 0 ==> entry == 0
      ensures head != 0 ==> match FirstWithBase(guest.bytes, p, nodes, offset, baseOffset, dllBase, 0)
                            case None => entry == 0
                            case Some(i) => i < |nodes| && entry == nodes[i] - offset
    {
      hide Pointer, Ring, FirstWithBase;
      entry := 0;
      if head == 0 {
        return;
      }
      NodeFacts(guest.bytes, p, head, nodes, 0);
      var node := ReadPtr(head);
      if node == 0 {
        return;
      }
      var safety := 0;
      while node != head && node != 0 && safety < MAX_SEARCH
        invariant entry == 0 && safety <= |nodes| && safety <= MAX_SEARCH
        invariant node == ([head] + nodes + [head])[safety + 1]
        invariant FirstWithBase(guest.bytes, p, nodes, offset, baseOffset, dllBase, 0) ==
                  FirstWithBase(guest.bytes, p, nodes, offset, baseOffset, dllBase, safety)
        decreases MAX_SEARCH - safety
      {
        assert safety < |nodes| && node == nodes[safety];
        NodeFacts(guest.bytes, p, head, nodes, safety + 1);
        FirstStep(guest.bytes, p, nodes, offset, baseOffset, dllBase, safety);
        var entryBase: u64 := node - offset;
        var base := ReadPtr(entryBase + baseOffset);
        if base == dllBase {
          return entryBase;
        }
        var next := ReadPtr(node);
        if next == node {
          return;
        }
        node := next;
        safety := safety + 1;
      }
      NodeFacts(guest.bytes, p, head, nodes, safety);
      FirstEnd(guest.bytes, p, nodes, offset, baseOffset, dllBase, safety);
    }

    // Unlinks a node from its neighbours and puts it between the head and the first node.
    method Rewire(head: u64, link: u64, first: u64, flink: u64, blink: u64)
      returns (ghost m1: Bytemap, ghost m2: Bytemap, ghost m3: Bytemap, ghost m4: Bytemap, ghost m5: Bytemap)
      requires link + p < 0x1_0000_0000_0000_0000 && first + p < 0x1_0000_0000_0000_0000
               && flink + p < 0x1_0000_0000_0000_0000
      requires head < Pow256(p) && link < Pow256(p) && first < Pow256(p) && flink < Pow256(p) && blink < Pow256(p)
      requires Has(guest.bytes, blink, p) && Has(guest.bytes, flink + p, p) && Has(guest.bytes, link, p)
      requires Has(guest.bytes, link + p, p) && Has(guest.bytes, head, p) && Has(guest.bytes, first + p, p)
      modifies guest
      ensures Wrote(old(guest.bytes), m1, p, blink, flink) && Wrote(m1, m2, p, flink + p, blink)
      ensures Wrote(m2, m3, p, link, first) && Wrote(m3, m4, p, link + p, head)
      ensures Wrote(m4, m5, p, head, link) && Wrote(m5, guest.bytes, p, first + p, link)
    {
      hide Has, Pointer, Wrote;
      ghost var m := guest.bytes;
      var _ := WritePtr(blink, flink);
      m1 := guest.bytes;
      WroteKeeps(m, m1, p, blink, flink);
      var _ := WritePtr(flink + p, blink);
      m2 := guest.bytes;
      WroteKeeps(m1, m2, p, flink + p, blink);
      var _ := WritePtr(link, first);
      m3 := guest.bytes;
      WroteKeeps(m2, m3, p, link, first);
      var _ := WritePtr(link + p, head);
      m4 := guest.bytes;
      WroteKeeps(m3, m4, p, link + p, head);
      var _ := WritePtr(head, link);
      m5 := guest.bytes;
      WroteKeeps(m4, m5, p, head, link);
      var _ := WritePtr(first + p, link);
    }

    // Takes an entry's link out of the ring and puts it in front. The one in front already stays there.
    method LdrMoveToFront(head: u64, offset: nat, entry: u64, ghost nodes: seq<u64>, ghost k: nat)
      requires head != 0 && entry != 0 ==>
                 Ring(guest.bytes, p, head, nodes) && k < |nodes| && nodes[k] as int == entry + offset
      modifies guest
      ensures head == 0 || entry == 0 ==> guest.bytes == old(guest.bytes)
      ensures head != 0 && entry != 0 ==>
                && k < |nodes| && Ring(guest.bytes, p, head, ToFront(nodes, k))
                && OnlyCells(old(guest.bytes), guest.bytes, p, [head] + nodes)
    {
      hide Has, Pointer, Cells, Linked, OnlyCells, Ring, Wrote;
      if head == 0 || entry == 0 {
        return;
      }
      ghost var m := guest.bytes;
      ghost var cells := [head] + nodes;
      var link: u64 := entry + offset;
      FrontFacts(m, p, head, nodes, k);
      var first := ReadPtr(head);
      if first == 0 || first == link {
        OnlyCellsStart(m, p, cells);
        FrontAlready(m, p, head, nodes, k);
        return;
      }
      var flink := ReadPtr(link);
      var blink := ReadPtr(link + p);
      if flink == 0 || blink == 0 {
        return;
      }
      SixSlots(m, p, cells, k, NextOf(nodes, k));
      ghost var m1, m2, m3, m4, m5 := Rewire(head, link, first, flink, blink);
      MovedToFront(m, m1, m2, m3, m4, m5, guest.bytes, p, head, nodes, k);
    }
  }

  const MAX_SEARCH: nat := 128

  // The first node from i on, among the first 128, whose entry names that module base.
  ghost function FirstWithBase(m: Bytemap, p: PointerSize, nodes: seq<u64>, offset: nat, baseOffset: nat, dllBase: u64,
                               i: nat): Option<nat>
    requires i <= |nodes|
    requires forall i ::
               0 <= i < |nodes| ==> offset <= nodes[i] && nodes[i] - offset + baseOffset < 0x1_0000_0000_0000_0000
    decreases |nodes| - i
  {
    if i == |nodes| || i >= MAX_SEARCH then None
    else if Pointer(m, nodes[i] - offset + baseOffset, p) == dllBase then Some(i)
    else FirstWithBase(m, p, nodes, offset, baseOffset, dllBase, i + 1)
  }

  lemma {:induction false} FirstWithBaseIs(m: Bytemap, p: PointerSize, nodes: seq<u64>, offset: nat, baseOffset: nat,
                                           dllBase: u64, i: nat)
    requires i <= |nodes|
    requires forall i ::
               0 <= i < |nodes| ==> offset <= nodes[i] && nodes[i] - offset + baseOffset < 0x1_0000_0000_0000_0000
    ensures match FirstWithBase(m, p, nodes, offset, baseOffset, dllBase, i)
            case None =>
              forall j :: i <= j < |nodes| && j < 128 ==>
                Pointer(m, nodes[j] - offset + baseOffset, p) != dllBase
            case Some(k) =>
              && i <= k < |nodes| && k < 128 && Pointer(m, nodes[k] - offset + baseOffset, p) == dllBase
              && forall j :: i <= j < k ==> Pointer(m, nodes[j] - offset + baseOffset, p) != dllBase
    decreases |nodes| - i
  {
    hide Pointer;
    if i < |nodes| && i < MAX_SEARCH && Pointer(m, nodes[i] - offset + baseOffset, p) != dllBase {
      FirstWithBaseIs(m, p, nodes, offset, baseOffset, dllBase, i + 1);
    }
  }

  lemma FirstStep(m: Bytemap, p: PointerSize, nodes: seq<u64>, offset: nat, baseOffset: nat, dllBase: u64, i: nat)
    requires i < |nodes| && i < MAX_SEARCH
    requires forall i ::
               0 <= i < |nodes| ==> offset <= nodes[i] && nodes[i] - offset + baseOffset < 0x1_0000_0000_0000_0000
    ensures FirstWithBase(m, p, nodes, offset, baseOffset, dllBase, i) ==
            if Pointer(m, nodes[i] - offset + baseOffset, p) == dllBase then Some(i)
            else FirstWithBase(m, p, nodes, offset, baseOffset, dllBase, i + 1)
  {
  }

  lemma {:induction false} FirstEnd(m: Bytemap, p: PointerSize, nodes: seq<u64>, offset: nat, baseOffset: nat,
                                    dllBase: u64, i: nat)
    requires i <= |nodes| && (i == |nodes| || i >= MAX_SEARCH)
    requires forall i ::
               0 <= i < |nodes| ==> offset <= nodes[i] && nodes[i] - offset + baseOffset < 0x1_0000_0000_0000_0000
    ensures FirstWithBase(m, p, nodes, offset, baseOffset, dllBase, i) == None
  {
  }

  // Following the forward pointer from position i of the round: no node is null, none is the head, none points to
  // itself.
  lemma NodeFacts(m: Bytemap, p: PointerSize, head: u64, nodes: seq<u64>, i: nat)
    requires Ring(m, p, head, nodes) && i <= |nodes|
    ensures var c := Round(head, nodes);
            && Pointer(m, c[i], p) == c[i + 1] && c[i + 1] > 0
            && (i < |nodes| ==> c[i + 1] != head) && (|nodes| > 0 ==> c[i + 1] != c[i])
  {
    hide Pointer, Ring;
    var cells := [head] + nodes;
    RingCells(m, p, head, nodes);
    RingFacts(m, p, head, nodes, i, if i < |nodes| then i + 1 else 0);
    if i < |nodes| {
      DistinctCells(m, p, cells, 0, i + 1);
      DistinctCells(m, p, cells, i, i + 1);
    } else if |nodes| > 0 {
      DistinctCells(m, p, cells, 0, |nodes|);
    }
  }

  function ToFront(nodes: seq<u64>, k: nat): seq<u64>
    requires k < |nodes|
  {
    [nodes[k]] + nodes[..k] + nodes[k + 1..]
  }

  // The position, counted from the head, of the link after node k.
  function NextOf(nodes: seq<u64>, k: nat): nat
    requires k < |nodes|
  {
    if k + 1 < |nodes| then k + 2 else 0
  }

  lemma WroteKeeps(m: Bytemap, m': Bytemap, p: PointerSize, a: u64, v: u64)
    requires Wrote(m, m', p, a, v)
    ensures forall b: u64 :: Has(m', b, p) == Has(m, b, p)
  {
    assert forall x :: x in m' <==> x in m;
  }

  lemma RingCells(m: Bytemap, p: PointerSize, head: u64, nodes: seq<u64>)
    requires Ring(m, p, head, nodes)
    ensures Cells(m, p, [head] + nodes)
  {
  }

  // Neighbours in a ring point to each other; position 0 is the head.
  lemma RingFacts(m: Bytemap, p: PointerSize, head: u64, nodes: seq<u64>, i: nat, j: nat)
    requires Ring(m, p, head, nodes) && i <= |nodes| && (j == i + 1 <= |nodes| || (i == |nodes| && j == 0))
    ensures var cells := [head] + nodes;
            && Pointer(m, cells[i], p) == cells[j] && cells[i] > 0 && cells[j] > 0
            && cells[j] + p < 0x1_0000_0000_0000_0000 && Pointer(m, cells[j] + p, p) == cells[i]
  {
    var cells, c := [head] + nodes, Round(head, nodes);
    assert c[i] == cells[i] && c[i + 1] == cells[j];
    assert Linked(m, p, c[i], c[i + 1]);
  }

  // What moving node k to the front reads.
  lemma FrontFacts(m: Bytemap, p: PointerSize, head: u64, nodes: seq<u64>, k: nat)
    requires Ring(m, p, head, nodes) && k < |nodes|
    ensures var cells := [head] + nodes;
            && head == cells[0] && nodes[k] == cells[k + 1] && nodes[0] == cells[1] && Cells(m, p, cells)
            && Pointer(m, head, p) == nodes[0] > 0 && Pointer(m, nodes[k], p) == cells[NextOf(nodes, k)] > 0
            && nodes[k] + p < 0x1_0000_0000_0000_0000 && Pointer(m, nodes[k] + p, p) == cells[k] > 0
            && (forall i :: 0 <= i < |cells| ==> cells[i] + p < 0x1_0000_0000_0000_0000)
  {
    hide Pointer, Ring;
    RingCells(m, p, head, nodes);
    CellFacts(m, p, [head] + nodes);
    RingFacts(m, p, head, nodes, 0, 1);
    RingFacts(m, p, head, nodes, k, k + 1);
    RingFacts(m, p, head, nodes, k + 1, NextOf(nodes, k));
  }

  // What appending a link reads, and that it can write.
  lemma {:induction false} AppendFacts(m: Bytemap, p: PointerSize, head: u64, link: u64, nodes: seq<u64>)
    requires Ring(m, p, head, nodes) && Cells(m, p, [head] + nodes + [link])
    ensures var cells := [head] + nodes + [link];
            && (forall i :: 0 <= i < |cells| ==> cells[i] + p < 0x1_0000_0000_0000_0000)
            && cells[0] == head && cells[|cells| - 1] == link && Pointer(m, head + p, p) == cells[|cells| - 2]
            && head < Pow256(p) && link < Pow256(p) && cells[|cells| - 2] < Pow256(p)
            && Has(m, link, p) && Has(m, link + p, p) && Has(m, cells[|cells| - 2], p) && Has(m, head + p, p)
  {
    hide Has, Pointer, Cells, Ring;
    var cells := [head] + nodes + [link];
    CellFacts(m, p, cells);
    RingFacts(m, p, head, nodes, |nodes|, 0);
    assert cells[|nodes|] == ([head] + nodes)[|nodes|];
  }

  lemma {:induction false} SixSlots(m: Bytemap, p: PointerSize, cells: seq<u64>, k: nat, next: nat)
    requires Cells(m, p, cells) && k + 1 < |cells| && next < |cells|
    requires forall i :: 0 <= i < |cells| ==> cells[i] + p < 0x1_0000_0000_0000_0000
    ensures cells[0] < Pow256(p) && cells[1] < Pow256(p) && cells[k] < Pow256(p) && cells[k + 1] < Pow256(p)
            && cells[next] < Pow256(p)
    ensures Has(m, cells[k], p) && Has(m, cells[next] + p, p) && Has(m, cells[k + 1], p) && Has(m, cells[k + 1] + p, p)
    ensures Has(m, cells[0], p) && Has(m, cells[1] + p, p)
  {
    CellFacts(m, p, cells);
  }

  lemma DistinctCells(m: Bytemap, p: PointerSize, cells: seq<u64>, i: nat, j: nat)
    requires Cells(m, p, cells) && i < j < |cells|
    ensures cells[i] != cells[j]
  {
    assert Apart(cells[i], cells[j], 2 * p);
  }

  lemma FrontAlready(m: Bytemap, p: PointerSize, head: u64, nodes: seq<u64>, k: nat)
    requires Ring(m, p, head, nodes) && k < |nodes| && nodes[0] == nodes[k]
    ensures ToFront(nodes, k) == nodes
  {
    var cells := [head] + nodes;
    if k > 0 {
      DistinctCells(m, p, cells, 1, k + 1);
    }
    assert nodes == [nodes[0]] + nodes[1..];
  }

  lemma Appended(m: Bytemap, m1: Bytemap, m2: Bytemap, m3: Bytemap, m': Bytemap, p: PointerSize, head: u64, link: u64,
                 nodes: seq<u64>)
    requires Ring(m, p, head, nodes) && Cells(m, p, [head] + nodes + [link])
    requires var cells := [head] + nodes + [link];
             && (forall i :: 0 <= i < |cells| ==> cells[i] + p < 0x1_0000_0000_0000_0000)
             && FourWrites(m, m1, m2, m3, m', p, cells)
    ensures Ring(m', p, head, nodes + [link]) && OnlyCells(m, m', p, [head] + nodes + [link])
  {
    hide Has, Pointer, Cells, FourWrites, OnlyCells, Linked, Ring;
    var cells, nodes' := [head] + nodes + [link], nodes + [link];
    OnlyAppended(m, m1, m2, m3, m', p, cells);
    CellsKept(m, m', p, cells);
    assert [head] + nodes' == cells;
    forall i | 0 <= i < |cells| ensures Linked(m', p, cells[i], cells[if i + 1 < |cells| then i + 1 else 0]) {
      AppendedLink(m, m1, m2, m3, m', p, head, link, nodes, i);
    }
    RingFromCells(m', p, head, nodes');
  }

  lemma RingFromCells(m: Bytemap, p: PointerSize, head: u64, nodes: seq<u64>)
    requires var cells := [head] + nodes;
             && Cells(m, p, cells)
             && forall i :: 0 <= i < |cells| ==> Linked(m, p, cells[i], cells[if i + 1 < |cells| then i + 1 else 0])
    ensures Ring(m, p, head, nodes)
  {
    hide Cells, Linked;
    var cells, c := [head] + nodes, Round(head, nodes);
    forall i, j | 0 <= i && j == i + 1 < |c| ensures Linked(m, p, c[i], c[j]) {
      assert c[i] == cells[i] && c[j] == cells[if i + 1 < |cells| then i + 1 else 0];
    }
  }

  lemma AppendedLink(m: Bytemap, m1: Bytemap, m2: Bytemap, m3: Bytemap, m': Bytemap, p: PointerSize, head: u64,
                     link: u64, nodes: seq<u64>, i: nat)
    requires Ring(m, p, head, nodes) && Cells(m, p, [head] + nodes + [link]) && i <= |nodes| + 1
    requires var cells := [head] + nodes + [link];
             && (forall i :: 0 <= i < |cells| ==> cells[i] + p < 0x1_0000_0000_0000_0000)
             && FourWrites(m, m1, m2, m3, m', p, cells)
    ensures var cells := [head] + nodes + [link];
            Linked(m', p, cells[i], cells[if i + 1 < |cells| then i + 1 else 0])
  {
    hide Has, Pointer, Cells, FourWrites, Ring;
    var cells := [head] + nodes + [link];
    var j := if i + 1 < |cells| then i + 1 else 0;
    PointersAppended(m, m1, m2, m3, m', p, cells, i);
    PointersAppended(m, m1, m2, m3, m', p, cells, j);
    if i < |nodes| {
      RingFacts(m, p, head, nodes, i, i + 1);
      assert cells[i] == ([head] + nodes)[i] && cells[j] == ([head] + nodes)[i + 1];
    }
  }

  // The tail link is tied to the head, and the link before it to the tail.
  ghost predicate FourWrites(m: Bytemap, m1: Bytemap, m2: Bytemap, m3: Bytemap, m': Bytemap, p: PointerSize,
                             cells: seq<u64>)
    requires |cells| >= 2 && forall i :: 0 <= i < |cells| ==> cells[i] + p < 0x1_0000_0000_0000_0000
  {
    var link, last := cells[|cells| - 1], cells[|cells| - 2];
    && Wrote(m, m1, p, link, cells[0]) && Wrote(m1, m2, p, link + p, last)
    && Wrote(m2, m3, p, last, link) && Wrote(m3, m', p, cells[0] + p, link)
  }

  lemma PointersAppended(m: Bytemap, m1: Bytemap, m2: Bytemap, m3: Bytemap, m': Bytemap, p: PointerSize,
                         cells: seq<u64>, i: nat)
    requires Cells(m, p, cells) && |cells| >= 2 && i < |cells|
    requires forall i :: 0 <= i < |cells| ==> cells[i] + p < 0x1_0000_0000_0000_0000
    requires FourWrites(m, m1, m2, m3, m', p, cells)
    ensures Pointer(m', cells[i], p) == if i == |cells| - 1 then cells[0]
                                        else if i == |cells| - 2 then cells[|cells| - 1]
                                        else Pointer(m, cells[i], p)
    ensures Pointer(m', cells[i] + p, p) == if i == |cells| - 1 then cells[|cells| - 2]
                                            else if i == 0 then cells[|cells| - 1]
                                            else Pointer(m, cells[i] + p, p)
  {
    hide Has, Pointer, Cells;
    CellFacts(m, p, cells);
  }

  lemma OnlyAppended(m: Bytemap, m1: Bytemap, m2: Bytemap, m3: Bytemap, m': Bytemap, p: PointerSize, cells: seq<u64>)
    requires |cells| >= 2 && forall i :: 0 <= i < |cells| ==> cells[i] + p < 0x1_0000_0000_0000_0000
    requires FourWrites(m, m1, m2, m3, m', p, cells)
    ensures OnlyCells(m, m', p, cells) && m'.Keys == m.Keys
  {
    hide Has, Pointer;
    assert forall x :: x in m <==> x in m';
  }

  // Where the links of the rearranged ring were before.
  function Before(k: nat, i: nat): nat { if i == 1 then k + 1 else if 2 <= i <= k + 1 then i - 1 else i }

  lemma ToFrontAt(head: u64, nodes: seq<u64>, k: nat, i: nat)
    requires k < |nodes| && i <= |nodes|
    ensures |ToFront(nodes, k)| == |nodes| && Before(k, i) <= |nodes|
    ensures ([head] + ToFront(nodes, k))[i] == ([head] + nodes)[Before(k, i)]
  {
  }

  lemma MovedToFront(m: Bytemap, m1: Bytemap, m2: Bytemap, m3: Bytemap, m4: Bytemap, m5: Bytemap, m': Bytemap,
                     p: PointerSize, head: u64, nodes: seq<u64>, k: nat)
    requires Ring(m, p, head, nodes) && 0 < k < |nodes|
    requires var cells := [head] + nodes;
             && (forall i :: 0 <= i < |cells| ==> cells[i] + p < 0x1_0000_0000_0000_0000)
             && SixWrites(m, m1, m2, m3, m4, m5, m', p, cells, k, NextOf(nodes, k))
    ensures Ring(m', p, head, ToFront(nodes, k)) && OnlyCells(m, m', p, [head] + nodes)
  {
    hide Has, Pointer, Before, Ring, Wrote, SixWrites;
    var cells, nodes', next := [head] + nodes, ToFront(nodes, k), NextOf(nodes, k);
    RingCells(m, p, head, nodes);
    PointersMoved(m, m1, m2, m3, m4, m5, m', p, cells, k, next);
    assert m'.Keys == m.Keys;
    CellsKept(m, m', p, cells);
    MovedCells(m', p, head, nodes, k);
    MovedLinks(m, m', p, head, nodes, k);
  }

  // The forward and backward pointers after the six writes, by position.
  ghost predicate Rewired(m: Bytemap, m': Bytemap, p: PointerSize, cells: seq<u64>, k: nat, next: nat)
    requires 0 < k && k + 1 < |cells| && next < |cells| && next != k && next != k + 1 && next != 1
  {
    && (forall i :: 0 <= i < |cells| ==> cells[i] + p < 0x1_0000_0000_0000_0000)
    && (forall i :: 0 <= i < |cells| ==>
          Pointer(m', cells[i], p) == if i == k then cells[next]
                                      else if i == k + 1 then cells[1]
                                      else if i == 0 then cells[k + 1]
                                      else Pointer(m, cells[i], p))
    && (forall i :: 0 <= i < |cells| ==>
          Pointer(m', cells[i] + p, p) == if i == next then cells[k]
                                          else if i == k + 1 then cells[0]
                                          else if i == 1 then cells[k + 1]
                                          else Pointer(m, cells[i] + p, p))
  }

  // Six pointers written one after another.
  ghost predicate SixWrites(m: Bytemap, m1: Bytemap, m2: Bytemap, m3: Bytemap, m4: Bytemap, m5: Bytemap, m': Bytemap,
                            p: PointerSize, cells: seq<u64>, k: nat, next: nat)
    requires 0 < k && k + 1 < |cells| && next < |cells|
    requires forall i :: 0 <= i < |cells| ==> cells[i] + p < 0x1_0000_0000_0000_0000
  {
    && Wrote(m, m1, p, cells[k], cells[next]) && Wrote(m1, m2, p, cells[next] + p, cells[k])
    && Wrote(m2, m3, p, cells[k + 1], cells[1]) && Wrote(m3, m4, p, cells[k + 1] + p, cells[0])
    && Wrote(m4, m5, p, cells[0], cells[k + 1]) && Wrote(m5, m', p, cells[1] + p, cells[k + 1])
  }

  lemma ForwardMoved(m: Bytemap, m1: Bytemap, m2: Bytemap, m3: Bytemap, m4: Bytemap, m5: Bytemap, m': Bytemap,
                     p: PointerSize, cells: seq<u64>, k: nat, next: nat, i: nat)
    requires Cells(m, p, cells) && 0 < k && k + 1 < |cells| && next < |cells| && i < |cells|
    requires forall i :: 0 <= i < |cells| ==> cells[i] + p < 0x1_0000_0000_0000_0000
    requires SixWrites(m, m1, m2, m3, m4, m5, m', p, cells, k, next)
    ensures Pointer(m', cells[i], p) == if i == k then cells[next]
                                        else if i == k + 1 then cells[1]
                                        else if i == 0 then cells[k + 1]
                                        else Pointer(m, cells[i], p)
  {
    hide Has, Pointer, Cells;
    CellFacts(m, p, cells);
  }

  lemma BackwardMoved(m: Bytemap, m1: Bytemap, m2: Bytemap, m3: Bytemap, m4: Bytemap, m5: Bytemap, m': Bytemap,
                      p: PointerSize, cells: seq<u64>, k: nat, next: nat, i: nat)
    requires Cells(m, p, cells) && 0 < k && k + 1 < |cells| && next < |cells| && i < |cells|
    requires next != k && next != k + 1 && next != 1
    requires forall i :: 0 <= i < |cells| ==> cells[i] + p < 0x1_0000_0000_0000_0000
    requires SixWrites(m, m1, m2, m3, m4, m5, m', p, cells, k, next)
    ensures Pointer(m', cells[i] + p, p) == if i == next then cells[k]
                                            else if i == k + 1 then cells[0]
                                            else if i == 1 then cells[k + 1]
                                            else Pointer(m, cells[i] + p, p)
  {
    hide Has, Pointer, Cells;
    CellFacts(m, p, cells);
  }

  lemma OnlyMoved(m: Bytemap, m1: Bytemap, m2: Bytemap, m3: Bytemap, m4: Bytemap, m5: Bytemap, m': Bytemap,
                  p: PointerSize, cells: seq<u64>, k: nat, next: nat)
    requires 0 < k && k + 1 < |cells| && next < |cells|
    requires forall i :: 0 <= i < |cells| ==> cells[i] + p < 0x1_0000_0000_0000_0000
    requires SixWrites(m, m1, m2, m3, m4, m5, m', p, cells, k, next)
    ensures OnlyCells(m, m', p, cells)
  {
    hide Has, Pointer;
    assert forall x :: x in m <==> x in m';
  }

  lemma PointersMoved(m: Bytemap, m1: Bytemap, m2: Bytemap, m3: Bytemap, m4: Bytemap, m5: Bytemap, m': Bytemap,
                      p: PointerSize, cells: seq<u64>, k: nat, next: nat)
    requires Cells(m, p, cells) && 0 < k && k + 1 < |cells| && next < |cells| && next != k && next != k + 1 && next != 1
    requires forall i :: 0 <= i < |cells| ==> cells[i] + p < 0x1_0000_0000_0000_0000
    requires SixWrites(m, m1, m2, m3, m4, m5, m', p, cells, k, next)
    ensures Rewired(m, m', p, cells, k, next) && OnlyCells(m, m', p, cells)
  {
    hide Has, Pointer, Cells, SixWrites, OnlyCells;
    OnlyMoved(m, m1, m2, m3, m4, m5, m', p, cells, k, next);
    forall i | 0 <= i < |cells|
      ensures Pointer(m', cells[i], p) == if i == k then cells[next]
                                          else if i == k + 1 then cells[1]
                                          else if i == 0 then cells[k + 1]
                                          else Pointer(m, cells[i], p)
      ensures Pointer(m', cells[i] + p, p) == if i == next then cells[k]
                                              else if i == k + 1 then cells[0]
                                              else if i == 1 then cells[k + 1]
                                              else Pointer(m, cells[i] + p, p)
    {
      ForwardMoved(m, m1, m2, m3, m4, m5, m', p, cells, k, next, i);
      BackwardMoved(m, m1, m2, m3, m4, m5, m', p, cells, k, next, i);
    }
  }

  lemma MovedCells(m: Bytemap, p: PointerSize, head: u64, nodes: seq<u64>, k: nat)
    requires Cells(m, p, [head] + nodes) && k < |nodes|
    ensures Cells(m, p, [head] + ToFront(nodes, k))
  {
    hide Has, Before;
    var cells, cells' := [head] + nodes, [head] + ToFront(nodes, k);
    forall i | 0 <= i < |cells'|
      ensures 0 < cells'[i] && cells'[i] + 2 * p <= Pow256(p) && Has(m, cells'[i], 2 * p)
    {
      ToFrontAt(head, nodes, k, i);
    }
    forall i, j | 0 <= i < j < |cells'| ensures Apart(cells'[i], cells'[j], 2 * p) {
      ToFrontAt(head, nodes, k, i);
      ToFrontAt(head, nodes, k, j);
      assert Before(k, i) != Before(k, j) by { BeforeDistinct(k, i, j); }
    }
  }

  lemma BeforeDistinct(k: nat, i: nat, j: nat)
    requires i != j
    ensures Before(k, i) != Before(k, j)
  {
  }

  lemma MovedLinks(m: Bytemap, m': Bytemap, p: PointerSize, head: u64, nodes: seq<u64>, k: nat)
    requires Ring(m, p, head, nodes) && 0 < k < |nodes| && Rewired(m, m', p, [head] + nodes, k, NextOf(nodes, k))
    requires Cells(m', p, [head] + ToFront(nodes, k))
    ensures Ring(m', p, head, ToFront(nodes, k))
  {
    hide Has, Pointer, Cells;
    var cells, nodes' := [head] + nodes, ToFront(nodes, k);
    var c, c' := Round(head, nodes), Round(head, nodes');
    var next := NextOf(nodes, k);
    forall i, j | 0 <= i && j == i + 1 < |c'| ensures Linked(m', p, c'[i], c'[j]) {
      if i <= |nodes| { ToFrontAt(head, nodes, k, i); }
      if j <= |nodes| { ToFrontAt(head, nodes, k, j); }
      var i0, j0 := Before(k, i), if j <= |nodes| then Before(k, j) else 0;
      assert c'[i] == cells[i0] && c'[j] == cells[j0];
      if i == k + 1 || i < 2 {
      } else {
        assert j0 == i0 + 1 || (i0 == |nodes| && j0 == 0);
        assert c[i0] == cells[i0] && c[i0 + 1] == cells[j0];
        assert Linked(m, p, c[i0], c[i0 + 1]);
      }
    }
  }

  // Link i now points forward to link j and j back to i; every other pointer is as it was.
  ghost predicate Joined(m: Bytemap, m': Bytemap, p: PointerSize, cells: seq<u64>, i: nat, j: nat)
    requires i < |cells| && j < |cells|
  {
    && Cells(m, p, cells) && Cells(m', p, cells) && m'.Keys == m.Keys
    && Linked(m', p, cells[i], cells[j])
    && (forall k :: 0 <= k < |cells| && k != i ==> Pointer(m', cells[k], p) == Pointer(m, cells[k], p))
    && (forall k :: 0 <= k < |cells| && k != j && cells[k] + p < 0x1_0000_0000_0000_0000 ==>
          Pointer(m', cells[k] + p, p) == Pointer(m, cells[k] + p, p))
    && (forall x :: x in m && !(cells[i] <= x < cells[i] + 2 * p) && !(cells[j] <= x < cells[j] + 2 * p) ==>
          m'[x] == m[x])
  }

  lemma JoinedBy(m: Bytemap, m1: Bytemap, m': Bytemap, p: PointerSize, cells: seq<u64>, i: nat, j: nat)
    requires Cells(m, p, cells) && i < |cells| && j < |cells| && cells[j] + p < 0x1_0000_0000_0000_0000
    requires Wrote(m, m1, p, cells[i], cells[j]) && Wrote(m1, m', p, cells[j] + p, cells[i])
    ensures Joined(m, m', p, cells, i, j)
  {
    hide Has, Pointer;
    CellFacts(m, p, cells);
    CellsKept(m, m', p, cells);
  }

  // The first n links after the head hang together.
  ghost predicate Chain(m: Bytemap, p: PointerSize, cells: seq<u64>, n: nat) {
    n < |cells| && forall i, j :: 0 <= i && j == i + 1 <= n ==> Linked(m, p, cells[i], cells[j])
  }

  lemma ChainStep(m: Bytemap, m': Bytemap, p: PointerSize, cells: seq<u64>, n: nat)
    requires Chain(m, p, cells, n) && n + 1 < |cells| && Joined(m, m', p, cells, n, n + 1)
    ensures Chain(m', p, cells, n + 1) && Cells(m', p, cells)
  {
    hide Has, Pointer, Cells;
  }

  lemma RingClosed(m: Bytemap, m': Bytemap, p: PointerSize, head: u64, nodes: seq<u64>)
    requires Chain(m, p, [head] + nodes, |nodes|) && Joined(m, m', p, [head] + nodes, |nodes|, 0)
    ensures Ring(m', p, head, nodes)
  {
    hide Has, Pointer, Cells;
    var cells, c := [head] + nodes, Round(head, nodes);
    forall i, j | 0 <= i && j == i + 1 < |c| ensures Linked(m', p, c[i], c[j]) {
      assert c[i] == cells[i];
      if j < |cells| {
        assert c[j] == cells[j];
        assert Linked(m, p, cells[i], cells[j]);
      }
    }
  }

  lemma OnlyCellsStart(m: Bytemap, p: PointerSize, cells: seq<u64>)
    ensures OnlyCells(m, m, p, cells)
    ensures |cells| > 0 ==> Chain(m, p, cells, 0)
  {
  }

  lemma OnlyCellsStep(m: Bytemap, m1: Bytemap, m': Bytemap, p: PointerSize, cells: seq<u64>, i: nat, j: nat)
    requires OnlyCells(m, m1, p, cells) && i < |cells| && j < |cells| && Joined(m1, m', p, cells, i, j)
    ensures OnlyCells(m, m', p, cells)
  {
    hide Has, Pointer, Cells, Linked;
    assert forall x :: x in m <==> x in m1;
  }

  // The addresses of the entries' links.
  function LinksOf(entries: seq<u64>, offset: nat): (links: seq<u64>)
    requires forall i :: 0 <= i < |entries| ==> entries[i] + offset < 0x1_0000_0000_0000_0000
    ensures |links| == |entries| && forall i :: 0 <= i < |entries| ==> links[i] == entries[i] + offset
  {
    seq(|entries|, i requires 0 <= i < |entries| => entries[i] + offset)
  }

  // What Cells says about the two pointers of every link.
  lemma {:induction false} CellFacts(m: Bytemap, p: PointerSize, cells: seq<u64>)
    requires Cells(m, p, cells)
    ensures forall i :: 0 <= i < |cells| ==>
              && cells[i] < Pow256(p) && cells[i] + 2 * p <= 0x1_0000_0000_0000_0000
              && Has(m, cells[i], p) && Has(m, cells[i] + p, p)
    ensures forall i, j :: 0 <= i < |cells| && 0 <= j < |cells| && i != j ==>
              && Apart(cells[i], cells[j], p) && Apart(cells[i], cells[j] + p, p)
              && Apart(cells[i] + p, cells[j] + p, p)
    ensures forall i :: 0 <= i < |cells| ==> Apart(cells[i], cells[i] + p, p)
  {
    Pow256Values();
  }

  lemma CellsKept(m: Bytemap, m': Bytemap, p: PointerSize, cells: seq<u64>)
    requires Cells(m, p, cells) && m.Keys == m'.Keys
    ensures Cells(m', p, cells)
  {
    assert forall x :: x in m <==> x in m';
  }
}
