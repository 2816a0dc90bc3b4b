// The three module lists of a process: rings that run through the same entries by different links.

module LoaderLists {
  import opened MachineTypes
  import opened FlatMemory
  import opened GuestMemory
  import opened LoaderRings

  // Offsets of the list heads in the loader data, and of the links and the module base in an entry.
  function LoadHead(p: PointerSize): nat { if p == 8 then 0x10 else 0x0C }
  function MemHead(p: PointerSize): nat { if p == 8 then 0x20 else 0x14 }
  function InitHead(p: PointerSize): nat { if p == 8 then 0x30 else 0x1C }
  function LoadLink(p: PointerSize): nat { 0 }
  function MemLink(p: PointerSize): nat { if p == 8 then 0x10 else 0x08 }
  function InitLink(p: PointerSize): nat { if p == 8 then 0x20 else 0x10 }
  function DllBase(p: PointerSize): nat { if p == 8 then 0x30 else 0x18 }

  // The nodes of the load-order, memory-order and initialization-order rings.
  datatype Lists = Lists(load: seq<u64>, mem: seq<u64>, init: seq<u64>)

  function AllCells(p: PointerSize, ldr: u64, lists: Lists): seq<u64>
    requires ldr + 0x40 < WORD
  {
    ([ldr + LoadHead(p)] + lists.load) + ([ldr + MemHead(p)] + lists.mem) + ([ldr + InitHead(p)] + lists.init)
  }

  // All three are rings, and no two of their links overlap.
  ghost predicate ThreeRings(m: Bytemap, p: PointerSize, ldr: u64, lists: Lists) {
    && ldr + 0x40 < WORD
    && Cells(m, p, AllCells(p, ldr, lists))
    && Ring(m, p, ldr + LoadHead(p), lists.load)
    && Ring(m, p, ldr + MemHead(p), lists.mem)
    && Ring(m, p, ldr + InitHead(p), lists.init)
  }

  // The module base of the entry that a node of the initialization-order ring belongs to.
  ghost function BaseNamed(m: Bytemap, p: PointerSize, node: u64): u64
    requires node + 0x80 < WORD
  {
    Pointer(m, node + 2 * p, p)
  }

  ghost predicate NotListed(m: Bytemap, p: PointerSize, nodes: seq<u64>, base: u64)
    requires forall i :: 0 <= i < |nodes| ==> nodes[i] + 0x80 < WORD
  {
    forall i :: 0 <= i < |nodes| && i < 128 ==> BaseNamed(m, p, nodes[i]) != base
  }

  // What a walk over one list meets: from the head through the entries in their order and back to the head, by the
  // forward pointers at one offset in every entry, and the other way around by the backward pointers right behind
  // those.
  ghost predicate Walk(m: Bytemap, p: PointerSize, head: u64, link: nat, entries: seq<u64>)
    requires link <= 0x20 && forall i :: 0 <= i < |entries| ==> entries[i] + 0x80 < WORD
  {
    && (forall i, j :: 0 <= i && j == i + 1 < |entries| ==> Linked(m, p, entries[i] + link, entries[j] + link))
    && if entries == [] then Linked(m, p, head, head)
       else Linked(m, p, head, entries[0] + link) && Linked(m, p, entries[|entries| - 1] + link, head)
  }

  ghost predicate AllApart(xs: seq<u64>, ys: seq<u64>, p: PointerSize) {
    forall i, j :: 0 <= i < |xs| && 0 <= j < |ys| ==> Apart(xs[i], ys[j], 2 * p)
  }

  // Changing only links apart from a ring leaves it a ring.
  lemma RingApart(m: Bytemap, m': Bytemap, p: PointerSize, head: u64, nodes: seq<u64>, cells: seq<u64>)
    requires Ring(m, p, head, nodes) && OnlyCells(m, m', p, cells) && AllApart([head] + nodes, cells, p)
    ensures Ring(m', p, head, nodes)
  {
    hide Ring;
    var own := [head] + nodes;
    RingCells(m, p, head, nodes);
    forall x, i | 0 <= i < |own| && own[i] <= x < own[i] + 2 * p ensures x in m && m[x] == m'[x] {
      forall j | 0 <= j < |cells| ensures !(cells[j] <= x < cells[j] + 2 * p) {
        assert Apart(own[i], cells[j], 2 * p);
      }
    }
    RingFramed(m, m', p, head, nodes);
  }

  lemma SliceCells(m: Bytemap, p: PointerSize, all: seq<u64>, lo: nat, hi: nat)
    requires Cells(m, p, all) && lo <= hi <= |all|
    ensures Cells(m, p, all[lo..hi])
  {
    hide Has;
  }

  lemma SlicesApart(m: Bytemap, p: PointerSize, all: seq<u64>, a: nat, b: nat, c: nat, d: nat)
    requires Cells(m, p, all) && a <= b <= c <= d <= |all|
    ensures AllApart(all[a..b], all[c..d], p) && AllApart(all[c..d], all[a..b], p)
  {
    hide Has;
    forall i, j | 0 <= i < b - a && 0 <= j < d - c
      ensures Apart(all[a..b][i], all[c..d][j], 2 * p) && Apart(all[c..d][j], all[a..b][i], 2 * p)
    {
      assert Apart(all[a + i], all[c + j], 2 * p);
    }
  }

  lemma PartsApart(m: Bytemap, p: PointerSize, xs: seq<u64>, ys: seq<u64>, zs: seq<u64>)
    requires Cells(m, p, xs + ys + zs)
    ensures Cells(m, p, xs) && Cells(m, p, ys) && Cells(m, p, zs)
    ensures AllApart(xs, ys, p) && AllApart(xs, zs, p) && AllApart(ys, zs, p)
    ensures AllApart(ys, xs, p) && AllApart(zs, xs, p) && AllApart(zs, ys, p)
  {
    hide Cells, AllApart;
    var all, i, j := xs + ys + zs, |xs|, |xs| + |ys|;
    assert xs == all[0..i] && ys == all[i..j] && zs == all[j..|all|];
    SliceCells(m, p, all, 0, i); SliceCells(m, p, all, i, j); SliceCells(m, p, all, j, |all|);
    SlicesApart(m, p, all, 0, i, i, j); SlicesApart(m, p, all, 0, i, j, |all|); SlicesApart(m, p, all, i, j, j, |all|);
  }

  lemma JoinCells(m: Bytemap, p: PointerSize, xs: seq<u64>, ys: seq<u64>, zs: seq<u64>)
    requires Cells(m, p, xs) && Cells(m, p, ys) && Cells(m, p, zs)
    requires AllApart(xs, ys, p) && AllApart(xs, zs, p) && AllApart(ys, zs, p)
    ensures Cells(m, p, xs + ys + zs)
  {
    JoinTwoCells(m, p, xs, ys);
    assert AllApart(xs + ys, zs, p);
    JoinTwoCells(m, p, xs + ys, zs);
  }

  lemma JoinTwoCells(m: Bytemap, p: PointerSize, xs: seq<u64>, ys: seq<u64>)
    requires Cells(m, p, xs) && Cells(m, p, ys) && AllApart(xs, ys, p)
    ensures Cells(m, p, xs + ys)
  {
    hide Has;
    var all := xs + ys;
    forall i, j | 0 <= i < j < |all| ensures Apart(all[i], all[j], 2 * p) {
      if i < |xs| {
        if j < |xs| {
          assert Apart(xs[i], xs[j], 2 * p);
        } else {
          assert Apart(xs[i], ys[j - |xs|], 2 * p);
        }
      } else {
        assert Apart(ys[i - |xs|], ys[j - |xs|], 2 * p);
      }
    }
  }

  lemma PrefixApart(xs: seq<u64>, ys: seq<u64>, zs: seq<u64>, p: PointerSize, a: nat, b: nat, c: nat)
    requires a <= |xs| && b <= |ys| && c <= |zs|
    requires AllApart(ys, xs, p) && AllApart(zs, xs, p) && AllApart(zs, ys, p)
    ensures AllApart(ys[..b], xs, p) && AllApart(zs[..c], xs, p) && AllApart(zs[..c], ys, p)
  {
  }

  lemma ApartToFront(xs: seq<u64>, ys: seq<u64>, p: PointerSize, head: u64, nodes: seq<u64>, k: nat)
    requires k < |nodes| && AllApart(xs, [head] + nodes, p) && AllApart(ys, [head] + nodes, p)
    ensures AllApart(xs, [head] + ToFront(nodes, k), p) && AllApart(ys, [head] + ToFront(nodes, k), p)
  {
    hide Before;
    var cells := [head] + ToFront(nodes, k);
    forall j | 0 <= j < |cells| ensures exists i :: 0 <= i <= |nodes| && cells[j] == ([head] + nodes)[i] {
      ToFrontAt(head, nodes, k, j);
    }
  }

  class ModuleLists {
    const loader: Loader
    const p: PointerSize
    const ldr: u64

    constructor (loader: Loader, ldr: u64)
      requires ldr + 0x40 < WORD
      ensures this.loader == loader && this.p == loader.p && this.ldr == ldr
    {
      this.loader, this.p, this.ldr := loader, loader.p, ldr;
    }

    // Links a fresh set of entries into the three lists; the last lists only some of them.
    method Build(entries: seq<u64>, initEntries: seq<u64>)
      requires p == loader.p && ldr + 0x40 < WORD
      requires forall i :: 0 <= i < |entries| ==> entries[i] + 0x80 < WORD
      requires forall i :: 0 <= i < |initEntries| ==> initEntries[i] + 0x80 < WORD
      requires Cells(loader.guest.bytes, p,
                     AllCells(p, ldr, Lists(LinksOf(entries, LoadLink(p)), LinksOf(entries, MemLink(p)),
                                                                   LinksOf(initEntries, InitLink(p)))))
      modifies loader.guest
      ensures ThreeRings(loader.guest.bytes, p, ldr, Lists(LinksOf(entries, LoadLink(p)), LinksOf(entries, MemLink(p)),
                                                           LinksOf(initEntries, InitLink(p))))
    {
      hide Cells, Ring, OnlyCells, AllApart, LinksOf;
      ghost var lists :=
        Lists(LinksOf(entries, LoadLink(p)), LinksOf(entries, MemLink(p)), LinksOf(initEntries, InitLink(p)));
      ghost var xs, ys, zs := [(ldr + LoadHead(p)) as u64] + lists.load, [(ldr + MemHead(p)) as u64] + lists.mem,
                              [(ldr + InitHead(p)) as u64] + lists.init;
      ghost var m := loader.guest.bytes;
      PartsApart(m, p, xs, ys, zs);
      loader.LinkList(ldr + LoadHead(p), LoadLink(p), entries);
      ghost var m1 := loader.guest.bytes;
      KeysKept(m, m1, p, xs);
      CellsKept(m, m1, p, ys);
      CellsKept(m, m1, p, zs);
      loader.LinkList(ldr + MemHead(p), MemLink(p), entries);
      ghost var m2 := loader.guest.bytes;
      KeysKept(m1, m2, p, ys);
      RingApart(m1, m2, p, ldr + LoadHead(p), lists.load, ys);
      CellsKept(m1, m2, p, zs);
      loader.LinkList(ldr + InitHead(p), InitLink(p), initEntries);
      ghost var m3 := loader.guest.bytes;
      KeysKept(m2, m3, p, zs);
      RingApart(m2, m3, p, ldr + LoadHead(p), lists.load, zs);
      RingApart(m2, m3, p, ldr + MemHead(p), lists.mem, zs);
      CellsKept(m, m3, p, AllCells(p, ldr, lists));
    }

    // Adds one more module's entry at the tail of all three lists.
    method AddLinks(entry: u64, ghost lists: Lists)
      requires p == loader.p && ThreeRings(loader.guest.bytes, p, ldr, lists) && entry + 0x80 < WORD
      requires Cells(loader.guest.bytes, p, AllCells(p, ldr, With(lists, entry, p)))
      modifies loader.guest
      ensures ThreeRings(loader.guest.bytes, p, ldr, With(lists, entry, p))
    {
      hide Cells, Ring, OnlyCells, AllApart;
      ghost var after := With(lists, entry, p);
      ghost var xs, ys, zs := [(ldr + LoadHead(p)) as u64] + after.load, [(ldr + MemHead(p)) as u64] + after.mem,
                              [(ldr + InitHead(p)) as u64] + after.init;
      ghost var m := loader.guest.bytes;
      PartsApart(m, p, xs, ys, zs);
      PrefixApart(xs, ys, zs, p, 1 + |lists.load|, 1 + |lists.mem|, 1 + |lists.init|);
      assert ys[..1 + |lists.mem|] == [(ldr + MemHead(p)) as u64] + lists.mem;
      assert zs[..1 + |lists.init|] == [(ldr + InitHead(p)) as u64] + lists.init;
      assert xs == [(ldr + LoadHead(p)) as u64] + lists.load + [(entry + LoadLink(p)) as u64];
      assert ys == [(ldr + MemHead(p)) as u64] + lists.mem + [(entry + MemLink(p)) as u64];
      assert zs == [(ldr + InitHead(p)) as u64] + lists.init + [(entry + InitLink(p)) as u64];
      loader.LdrAppend(ldr + LoadHead(p), entry + LoadLink(p), lists.load);
      ghost var m1 := loader.guest.bytes;
      KeysKept(m, m1, p, xs);
      RingApart(m, m1, p, ldr + MemHead(p), lists.mem, xs);
      RingApart(m, m1, p, ldr + InitHead(p), lists.init, xs);
      CellsKept(m, m1, p, ys);
      CellsKept(m, m1, p, zs);
      loader.LdrAppend(ldr + MemHead(p), entry + MemLink(p), lists.mem);
      ghost var m2 := loader.guest.bytes;
      KeysKept(m1, m2, p, ys);
      RingApart(m1, m2, p, ldr + LoadHead(p), after.load, ys);
      RingApart(m1, m2, p, ldr + InitHead(p), lists.init, ys);
      CellsKept(m1, m2, p, zs);
      loader.LdrAppend(ldr + InitHead(p), entry + InitLink(p), lists.init);
      ghost var m3 := loader.guest.bytes;
      KeysKept(m2, m3, p, zs);
      RingApart(m2, m3, p, ldr + LoadHead(p), after.load, zs);
      RingApart(m2, m3, p, ldr + MemHead(p), after.mem, zs);
      CellsKept(m, m3, p, AllCells(p, ldr, after));
    }

    // Moves an entry to the front of the initialization-order list; the other two lists stay as they are.
    method PromoteInit(entry: u64, ghost lists: Lists, ghost k: nat)
      requires p == loader.p && ThreeRings(loader.guest.bytes, p, ldr, lists) && entry != 0
      requires k < |lists.init| && lists.init[k] as int == entry + InitLink(p)
      modifies loader.guest
      ensures ThreeRings(loader.guest.bytes, p, ldr, lists.(init := ToFront(lists.init, k)))
    {
      hide Cells, OnlyCells, AllApart, Ring, ToFront;
      var head: u64 := ldr + InitHead(p);
      ghost var m := loader.guest.bytes;
      ghost var xs, ys, zs :=
        [(ldr + LoadHead(p)) as u64] + lists.load, [(ldr + MemHead(p)) as u64] + lists.mem, [head] + lists.init;
      ghost var zs' := [head] + ToFront(lists.init, k);
      PartsApart(m, p, xs, ys, zs);
      loader.LdrMoveToFront(head, InitLink(p), entry, lists.init, k);
      ghost var m' := loader.guest.bytes;
      KeysKept(m, m', p, zs);
      RingApart(m, m', p, ldr + LoadHead(p), lists.load, zs);
      RingApart(m, m', p, ldr + MemHead(p), lists.mem, zs);
      ApartToFront(xs, ys, p, head, lists.init, k);
      CellsKept(m, m', p, xs);
      CellsKept(m, m', p, ys);
      RingCells(m', p, head, ToFront(lists.init, k));
      JoinCells(m', p, xs, ys, zs');
    }

    // Puts ntdll and then kernel32 first in initialization order, when both are listed; the rest keeps its order and
    // the other two lists are untouched.
    method PromoteSystemModules(kernel32: u64, ntdll: u64, ghost lists: Lists) returns (ghost after: Lists)
      requires p == loader.p && ThreeRings(loader.guest.bytes, p, ldr, lists)
      requires forall i :: 0 <= i < |lists.init| ==> InitLink(p) < lists.init[i] && lists.init[i] + 0x80 < WORD
      modifies loader.guest
      ensures ThreeRings(loader.guest.bytes, p, ldr, after) && after.load == lists.load && after.mem == lists.mem
      ensures var m := old(loader.guest.bytes);
              var k := FirstWithBase(m, p, lists.init, InitLink(p), DllBase(p), kernel32, 0);
              var n := FirstWithBase(m, p, lists.init, InitLink(p), DllBase(p), ntdll, 0);
              if k.Some? && n.Some? then
                && k.value < |lists.init| && n.value < |lists.init|
                && after.init == ToFront(ToFront(lists.init, k.value), Shifted(k.value, n.value))
                && after.init[0] == lists.init[n.value]
                && (k.value != n.value ==> |after.init| > 1 && after.init[1] == lists.init[k.value])
              else after == lists
    {
      hide Cells, Ring, FirstWithBase, ToFront, ThreeRings;
      InitIsRing(loader.guest.bytes, p, ldr, lists);
      var head: u64 := ldr + InitHead(p);
      ghost var m := loader.guest.bytes;
      after := lists;
      FirstWithBaseIs(m, p, lists.init, InitLink(p), DllBase(p), kernel32, 0);
      FirstWithBaseIs(m, p, lists.init, InitLink(p), DllBase(p), ntdll, 0);
      var kernel32Entry := loader.FindLdrEntryByBase(head, InitLink(p), DllBase(p), kernel32, lists.init);
      var ntdllEntry := loader.FindLdrEntryByBase(head, InitLink(p), DllBase(p), ntdll, lists.init);
      if kernel32Entry != 0 && ntdllEntry != 0 {
        ghost var k := FirstWithBase(m, p, lists.init, InitLink(p), DllBase(p), kernel32, 0).value;
        ghost var n := FirstWithBase(m, p, lists.init, InitLink(p), DllBase(p), ntdll, 0).value;
        PromoteInit(kernel32Entry, lists, k);
        ShiftedAt(lists.init, k, n);
        FrontTwo(lists.init, k, n);
        ghost var middle := lists.(init := ToFront(lists.init, k));
        PromoteInit(ntdllEntry, middle, Shifted(k, n));
        after := middle.(init := ToFront(middle.init, Shifted(k, n)));
      }
    }
  }

  function With(lists: Lists, entry: u64, p: PointerSize): Lists
    requires entry + 0x80 < WORD
  {
    Lists(lists.load + [entry + LoadLink(p)], lists.mem + [entry + MemLink(p)], lists.init + [entry + InitLink(p)])
  }

  // Where node n is once node k has moved to the front.
  function Shifted(k: nat, n: nat): nat { if n == k then 0 else if n < k then n + 1 else n }

  lemma ShiftedAt(nodes: seq<u64>, k: nat, n: nat)
    requires k < |nodes| && n < |nodes|
    ensures |ToFront(nodes, k)| == |nodes| && Shifted(k, n) < |nodes| && ToFront(nodes, k)[Shifted(k, n)] == nodes[n]
    ensures ToFront(nodes, k)[0] == nodes[k] && (n != k ==> Shifted(k, n) > 0)
  {
  }

  // Moving two nodes to the front, one after the other.
  lemma FrontTwo(nodes: seq<u64>, k: nat, n: nat)
    requires k < |nodes| && n < |nodes|
    ensures Shifted(k, n) < |ToFront(nodes, k)|
    ensures var after := ToFront(ToFront(nodes, k), Shifted(k, n));
            && |after| == |nodes| && after[0] == nodes[n] && (k != n ==> |after| > 1 && after[1] == nodes[k])
  {
    ShiftedAt(nodes, k, n);
  }

  lemma InitIsRing(m: Bytemap, p: PointerSize, ldr: u64, lists: Lists)
    requires ThreeRings(m, p, ldr, lists)
    ensures ldr + 0x40 < WORD && Ring(m, p, ldr + InitHead(p), lists.init)
  {
  }

  lemma KeysKept(m: Bytemap, m': Bytemap, p: PointerSize, cells: seq<u64>)
    requires OnlyCells(m, m', p, cells)
    ensures m'.Keys == m.Keys
  {
  }

  // The three lists as a debugger walks them: the heads and the links where the 32-bit and the 64-bit loader data have
  // them.
  lemma ListsWalked(m: Bytemap, p: PointerSize, ldr: u64, entries: seq<u64>, initEntries: seq<u64>)
    requires forall i :: 0 <= i < |entries| ==> entries[i] + 0x80 < WORD
    requires forall i :: 0 <= i < |initEntries| ==> initEntries[i] + 0x80 < WORD
    requires ThreeRings(m, p, ldr, Lists(LinksOf(entries, LoadLink(p)), LinksOf(entries, MemLink(p)),
                                         LinksOf(initEntries, InitLink(p))))
    ensures p == 4 ==> && Walk(m, 4, ldr + 0x0C, 0x00, entries) && Walk(m, 4, ldr + 0x14, 0x08, entries)
                       && Walk(m, 4, ldr + 0x1C, 0x10, initEntries)
    ensures p == 8 ==> && Walk(m, 8, ldr + 0x10, 0x00, entries) && Walk(m, 8, ldr + 0x20, 0x10, entries)
                       && Walk(m, 8, ldr + 0x30, 0x20, initEntries)
  {
    hide Ring, Walk, Cells;
    RingWalked(m, p, ldr + LoadHead(p), LoadLink(p), entries);
    RingWalked(m, p, ldr + MemHead(p), MemLink(p), entries);
    RingWalked(m, p, ldr + InitHead(p), InitLink(p), initEntries);
  }

  lemma RingWalked(m: Bytemap, p: PointerSize, head: u64, link: nat, entries: seq<u64>)
    requires link <= 0x20 && forall i :: 0 <= i < |entries| ==> entries[i] + 0x80 < WORD
    requires Ring(m, p, head, LinksOf(entries, link))
    ensures Walk(m, p, head, link, entries)
  {
    hide Linked, Ring, LinksOf;
    Neighbours(m, p, head, link, entries, 0);
    Neighbours(m, p, head, link, entries, |entries|);
    forall i, j | 0 <= i && j == i + 1 < |entries| ensures Linked(m, p, entries[i] + link, entries[j] + link) {
      Neighbours(m, p, head, link, entries, j);
    }
  }

  // Stop k of the way around: the head, the entries' links, and the head again.
  function StopAt(head: u64, link: nat, entries: seq<u64>, k: nat): u64
    requires link <= 0x20 && k <= |entries| + 1 && forall i :: 0 <= i < |entries| ==> entries[i] + 0x80 < WORD
  {
    if 1 <= k <= |entries| then entries[k - 1] + link else head
  }

  lemma Neighbours(m: Bytemap, p: PointerSize, head: u64, link: nat, entries: seq<u64>, k: nat)
    requires link <= 0x20 && k <= |entries| && forall i :: 0 <= i < |entries| ==> entries[i] + 0x80 < WORD
    requires Ring(m, p, head, LinksOf(entries, link))
    ensures Linked(m, p, StopAt(head, link, entries, k), StopAt(head, link, entries, k + 1))
  {
    hide Linked, Cells;
    var c := Round(head, LinksOf(entries, link));
    assert Linked(m, p, c[k], c[k + 1]);
  }

  // The module found in the initialization-order list is the first one, among the first 128, whose base is the one
  // asked for.
  lemma NamesFound(m: Bytemap, p: PointerSize, nodes: seq<u64>, base: u64)
    requires forall i :: 0 <= i < |nodes| ==> InitLink(p) < nodes[i] && nodes[i] + 0x80 < WORD
    ensures match FirstWithBase(m, p, nodes, InitLink(p), DllBase(p), base, 0)
            case None => NotListed(m, p, nodes, base)
            case Some(k) =>
              && k < |nodes| && k < 128 && BaseNamed(m, p, nodes[k]) == base
              && forall j :: 0 <= j < k ==> BaseNamed(m, p, nodes[j]) != base
  {
    hide FirstWithBase, Pointer;
    FirstWithBaseIs(m, p, nodes, InitLink(p), DllBase(p), base, 0);
    forall i | 0 <= i < |nodes|
      ensures BaseNamed(m, p, nodes[i]) == Pointer(m, nodes[i] - InitLink(p) + DllBase(p), p)
    {
      assert nodes[i] - InitLink(p) + DllBase(p) == nodes[i] + 2 * p;
    }
  }
}
