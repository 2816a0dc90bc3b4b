// What finished string instructions have done, said of memory and registers: which element of which string is compared,
// copied, stored or loaded, and where that leaves the registers.

module StringLaws {
  import opened MachineTypes
  import opened FlatMemory
  import opened Division
  import opened Alu
  import opened X86Registers
  import opened StringSpec
  import opened StringFaults

  // ---- where the elements are ----

  // The step from one element to the next.
  function Stride(op: StringOp, s: Cpu): int { if s.direction then -(op.size as int) else op.size }

  // The offset of element k in an index register, modulo the address size.
  function Index(op: StringOp, c: Context, s: Cpu, i: nat, k: nat): u64
    requires i < 16
  {
    (GetGpr(s.gpr, i, c.addressSize) + k * Stride(op, s)) % Range(c.addressSize)
  }

  // The segment base is added modulo 2^64, and in real mode the sum wraps around at 1 MiB.
  function Place(c: Context, base: u64, offset: u64): u64 {
    (base + offset) % WORD % (if c.wrapAt1M then 0x10_0000 else WORD)
  }

  function Source(op: StringOp, c: Context, s: Cpu, k: nat): u64 { Place(c, c.srcBase, Index(op, c, s, RSI, k)) }

  function Target(op: StringOp, c: Context, s: Cpu, k: nat): u64 { Place(c, c.dstBase, Index(op, c, s, RDI, k)) }

  lemma LinearIs(c: Context, base: u64, offset: u64)
    ensures Linear(c, base, offset) == Place(c, base, offset)
  {
  }

  lemma IndexBound(w: Width)
    ensures 0 < Range(w) <= WORD && Range(w) * (WORD / Range(w)) == WORD && WORD / Range(w) > 0
  {
  }

  // Moving an index register once and counting from there.
  lemma IndexNext(op: StringOp, c: Context, s: Cpu, t: Cpu, i: nat, k: nat)
    requires i < 16 && t.direction == s.direction && GetGpr(t.gpr, i, c.addressSize) == MovedBy(op, c, s, i)
    ensures Index(op, c, t, i, k) == Index(op, c, s, i, k + 1)
  {
    var r, x, d := Range(c.addressSize), GetGpr(s.gpr, i, c.addressSize) as int, Stride(op, s);
    IndexBound(c.addressSize);
    hide Range, GetGpr;
    ModMod(x + d, r, WORD / r);
    ModAdd(k * d, x + d, r);
    assert (k + 1) * d == k * d + d;
  }

  lemma FirstIndex(op: StringOp, c: Context, s: Cpu, i: nat)
    requires i < 16
    ensures Index(op, c, s, i, 0) == GetGpr(s.gpr, i, c.addressSize)
  {
  }

  // Both addresses of the first element, and of the elements seen from one iteration on.
  lemma Elements(op: StringOp, c: Context, s: Cpu, count: u64)
    requires 0 < count < Range(c.addressSize)
    ensures SourceOf(c, s) == Source(op, c, s, 0) && DestinationOf(c, s) == Target(op, c, s, 0)
    ensures var next := Counted(Iterate(op, c, s).cpu, c, count - 1);
            && Stride(op, next) == Stride(op, s)
            && (MovesSource(op.kind) ==>
                  forall k: nat :: Index(op, c, next, RSI, k) == Index(op, c, s, RSI, k + 1) &&
                                   Source(op, c, next, k) == Source(op, c, s, k + 1))
            && (MovesDestination(op.kind) ==>
                  forall k: nat :: Index(op, c, next, RDI, k) == Index(op, c, s, RDI, k + 1) &&
                                   Target(op, c, next, k) == Target(op, c, s, k + 1))
            && GetGpr(next.gpr, RCX, c.addressSize) == count - 1
  {
    hide Iterate, Range, GetGpr, Index, Linear, Counted;
    var next := Counted(Iterate(op, c, s).cpu, c, count - 1);
    FirstIndex(op, c, s, RSI);
    FirstIndex(op, c, s, RDI);
    LinearIs(c, c.srcBase, GetGpr(s.gpr, RSI, c.addressSize));
    LinearIs(c, c.dstBase, GetGpr(s.gpr, RDI, c.addressSize));
    IndexesMove(op, c, s);
    CountedIndexes(op, c, s, count);
    SameRegister(next.gpr, Iterate(op, c, s).cpu.gpr, RSI, c.addressSize);
    SameRegister(next.gpr, Iterate(op, c, s).cpu.gpr, RDI, c.addressSize);
    forall k: nat
      ensures MovesSource(op.kind) ==> Index(op, c, next, RSI, k) == Index(op, c, s, RSI, k + 1)
      ensures MovesDestination(op.kind) ==> Index(op, c, next, RDI, k) == Index(op, c, s, RDI, k + 1)
    {
      if MovesSource(op.kind) {
        IndexNext(op, c, s, next, RSI, k);
      }
      if MovesDestination(op.kind) {
        IndexNext(op, c, s, next, RDI, k);
      }
    }
  }

  lemma LoopStep(op: StringOp, c: Context, s: Cpu, count: u64)
    requires count > 0 && !op.rep.Once?
    ensures var it := Iterate(op, c, s);
            var next := Counted(it.cpu, c, count - 1);
            Uncapped(op, c, s, count) == if it.fault then Looped(it.cpu, Faulted)
                                         else if Stops(op, next.flags) then Looped(next, Finished)
                                         else Uncapped(op, c, next, count - 1)
    ensures Uncapped(op, c, s, 0) == Looped(s, Finished)
  {
    hide Iterate, Stops, Counted;
  }

  // ---- registers that a repetition leaves alone ----

  // All but the accumulator, the count and the index registers, and those index registers that the instruction does
  // not move; the flags, but for a comparison.
  predicate KeptFrom(op: StringOp, s: Cpu, t: Cpu) {
    && (forall i :: 0 <= i < 16 && i != RAX && i != RCX && i != RSI && i != RDI ==> t.gpr[i] == s.gpr[i])
    && (!MovesSource(op.kind) ==> t.gpr[RSI] == s.gpr[RSI]) && (!MovesDestination(op.kind) ==> t.gpr[RDI] == s.gpr[RDI])
    && (!op.kind.Lods? ==> t.gpr[RAX] == s.gpr[RAX])
    && (!op.kind.Scas? && !op.kind.Cmps? ==> t.flags == s.flags)
    && t.direction == s.direction && t.rip == s.rip
  }

  lemma IterationKeeps(op: StringOp, c: Context, s: Cpu, count: u64)
    requires count > 0
    ensures KeptFrom(op, s, Counted(Iterate(op, c, s).cpu, c, count - 1))
  {
    hide GetGpr, Subtracted, Linear, Has, StoreIf, Masked, Iterate, MovedIf;
    AccessThenMove(op, c, s);
    var t := Accessed(op, c, s);
    var u := MovedIf(t, MovesSource(op.kind), RSI, c, op.size);
    MovedIndex(t, MovesSource(op.kind), RSI, c, op.size);
    MovedIndex(u, MovesDestination(op.kind), RDI, c, op.size);
  }

  // ---- comparing: SCAS and CMPS ----

  // The k-th elements are equal: of the two strings, or of the string and the accumulator.
  ghost predicate EqualAt(op: StringOp, c: Context, s: Cpu, k: nat) {
    LoadOr0(s.memory, Target(op, c, s, k), op.size) ==
      if op.kind.Scas? then GetGpr(s.gpr, RAX, op.size) else LoadOr0(s.memory, Source(op, c, s, k), op.size)
  }

  // The flags of CMP with the k-th elements: that of the source, or the accumulator, less that of the destination.
  ghost function ComparedAt(op: StringOp, c: Context, s: Cpu, k: nat): Flags {
    var first := if op.kind.Scas? then GetGpr(s.gpr, RAX, op.size) else LoadOr0(s.memory, Source(op, c, s, k), op.size);
    Outcomes(ALU_CMP, first, LoadOr0(s.memory, Target(op, c, s, k), op.size), op.size, s.flags).flags
  }

  ghost predicate ReadableAt(op: StringOp, c: Context, s: Cpu, k: nat) {
    && Has(s.memory, Target(op, c, s, k), op.size)
    && (op.kind.Cmps? ==> Has(s.memory, Source(op, c, s, k), op.size))
  }

  // One comparison.
  lemma CompareStep(op: StringOp, c: Context, s: Cpu, count: u64)
    requires (op.kind.Scas? || op.kind.Cmps?) && 0 < count < Range(c.addressSize)
    ensures var it := Iterate(op, c, s);
            var next := Counted(it.cpu, c, count - 1);
            && next.memory == s.memory && next.gpr[RAX] == s.gpr[RAX]
            && (it.fault <==> !ReadableAt(op, c, s, 0))
            && (next.flags.zero <==> EqualAt(op, c, s, 0)) && next.flags == ComparedAt(op, c, s, 0)
  {
    hide Range, LoadOr0, Linear, Has, SetGpr, EvenParity, SignExtended, Fits, Index, GetGpr, Subtracted, Moved;
    Elements(op, c, s, count);
    AccumulatorKept(op, c, s, count);
    var w := LoadOr0(s.memory, Target(op, c, s, 0), op.size);
    var v := if op.kind.Scas? then GetGpr(s.gpr, RAX, op.size) else LoadOr0(s.memory, Source(op, c, s, 0), op.size);
    LoadWithin(s.memory, Target(op, c, s, 0), op.size);
    LoadWithin(s.memory, Source(op, c, s, 0), op.size);
    ValueWithin(s.gpr, RAX, op.size);
    EqualExactly(v, w, op.size);
    ValueWithin2(v, op.size);
    MovedKeepsFlags(op, c, s);
  }

  lemma ValueWithin(g: Gprs, i: nat, w: Width)
    requires i < 16
    ensures GetGpr(g, i, w) < Range(w)
  {
  }

  lemma ValueWithin2(v: u64, w: Width)
    ensures v < Range(w) ==> Masked(v, w) == v
  {
  }

  lemma AccumulatorKept(op: StringOp, c: Context, s: Cpu, count: u64)
    requires count > 0
    ensures Counted(Iterate(op, c, s).cpu, c, count - 1).gpr[RAX] == Iterate(op, c, s).cpu.gpr[RAX]
    ensures !op.kind.Lods? ==> Iterate(op, c, s).cpu.gpr[RAX] == s.gpr[RAX]
  {
    hide GetGpr, Subtracted, Linear, Has, StoreIf, Masked, Iterate, MovedIf;
    AccessThenMove(op, c, s);
    var t := Accessed(op, c, s);
    MovedIndex(t, MovesSource(op.kind), RSI, c, op.size);
    MovedIndex(MovedIf(t, MovesSource(op.kind), RSI, c, op.size), MovesDestination(op.kind), RDI, c, op.size);
  }

  // What an iteration does besides moving its indexes: memory and flags are those after the access.
  lemma MovedKeepsFlags(op: StringOp, c: Context, s: Cpu)
    ensures Iterate(op, c, s).cpu.flags == Accessed(op, c, s).flags
    ensures Iterate(op, c, s).cpu.memory == Accessed(op, c, s).memory
  {
    hide GetGpr, Subtracted, Linear, Has, StoreIf, Masked, Iterate, MovedIf;
    AccessThenMove(op, c, s);
    var t := Accessed(op, c, s);
    MovedIndex(t, MovesSource(op.kind), RSI, c, op.size);
    MovedIndex(MovedIf(t, MovesSource(op.kind), RSI, c, op.size), MovesDestination(op.kind), RDI, c, op.size);
  }

  // REPE stops right after the first pair that differs and REPNE right after the first that is equal; otherwise all are
  // compared. RCX says how many were not, the flags are those of comparing the last pair, ZF telling whether it was
  // equal, the index registers point past it, and memory is as it was.
  lemma {:induction false} CompareFindsFirst(op: StringOp, c: Context, s: Cpu, count: u64) returns (n: nat)
    requires (op.kind.Scas? || op.kind.Cmps?) && !op.rep.Once? && 0 < count < Range(c.addressSize)
    ensures var l, go := Uncapped(op, c, s, count), op.rep.WhileEqual?;
            l.ending.Finished? ==>
              && 1 <= n <= count && GetGpr(l.cpu.gpr, RCX, c.addressSize) == count - n
              && l.cpu.memory == s.memory
              && (forall k :: 0 <= k < n ==> ReadableAt(op, c, s, k))
              && (forall k :: 0 <= k < n - 1 ==> EqualAt(op, c, s, k) == go)
              && (l.cpu.flags.zero <==> EqualAt(op, c, s, n - 1)) && l.cpu.flags == ComparedAt(op, c, s, n - 1)
              && (n < count ==> EqualAt(op, c, s, n - 1) != go)
              && (op.kind.Cmps? ==> GetGpr(l.cpu.gpr, RSI, c.addressSize) == Index(op, c, s, RSI, n))
              && GetGpr(l.cpu.gpr, RDI, c.addressSize) == Index(op, c, s, RDI, n) && KeptFrom(op, s, l.cpu)
    decreases count
  {
    hide Range, LoadOr0, Has, Uncapped, Iterate, Index, Place, GetGpr, Counted, Subtracted;
    var next := Counted(Iterate(op, c, s).cpu, c, count - 1);
    n := 1;
    LoopStep(op, c, s, count);
    LoopStep(op, c, next, count);
    Elements(op, c, s, count);
    IterationKeeps(op, c, s, count);
    FirstIndex(op, c, next, RSI);
    FirstIndex(op, c, next, RDI);
    assert Index(op, c, next, RDI, 0) == Index(op, c, s, RDI, 0 + 1);
    assert op.kind.Cmps? ==> Index(op, c, next, RSI, 0) == Index(op, c, s, RSI, 0 + 1);
    CompareStep(op, c, s, count);
    SameRegister(next.gpr, s.gpr, RAX, op.size);
    if !Iterate(op, c, s).fault && !Stops(op, next.flags) && count > 1 {
      var more := CompareFindsFirst(op, c, next, count - 1);
      n := more + 1;
      forall k | 0 < k < n
        ensures EqualAt(op, c, s, k) == EqualAt(op, c, next, k - 1)
        ensures ReadableAt(op, c, s, k) == ReadableAt(op, c, next, k - 1)
        ensures ComparedAt(op, c, s, k) == ComparedAt(op, c, next, k - 1)
      {
        assert Target(op, c, next, k - 1) == Target(op, c, s, (k - 1) + 1);
        assert op.kind.Cmps? ==> Source(op, c, next, k - 1) == Source(op, c, s, (k - 1) + 1);
      }
    }
  }

  // ---- where a finished loop leaves its registers ----

  // A loop that compares nothing and has finished: the count is used up and the index registers are that many elements
  // on.
  lemma {:induction false} FinishedRegisters(op: StringOp, c: Context, s: Cpu, count: u64)
    requires !op.kind.Scas? && !op.kind.Cmps? && !op.rep.Once?
    requires count < Range(c.addressSize) && GetGpr(s.gpr, RCX, c.addressSize) == count
    ensures var l := Uncapped(op, c, s, count);
            l.ending.Finished? ==>
              && GetGpr(l.cpu.gpr, RCX, c.addressSize) == 0 && KeptFrom(op, s, l.cpu)
              && (MovesSource(op.kind) ==> GetGpr(l.cpu.gpr, RSI, c.addressSize) == Index(op, c, s, RSI, count))
              && (MovesDestination(op.kind) ==> GetGpr(l.cpu.gpr, RDI, c.addressSize) == Index(op, c, s, RDI, count))
    decreases count
  {
    hide Range, Uncapped, Iterate, Index, Place, GetGpr, Counted;
    if count == 0 {
      LoopStep(op, c, s, 1);
      FirstIndex(op, c, s, RSI);
      FirstIndex(op, c, s, RDI);
    } else {
      var next := Counted(Iterate(op, c, s).cpu, c, count - 1);
      LoopStep(op, c, s, count);
      Elements(op, c, s, count);
      IterationKeeps(op, c, s, count);
      FinishedRegisters(op, c, next, count - 1);
    }
  }

  // ---- storing: MOVS, STOS and INS ----

  // What goes into the k-th element: that of the source, the accumulator, or all ones from a port nobody models.
  ghost function Stored(op: StringOp, c: Context, s: Cpu, k: nat): int {
    if op.kind.Movs? then LoadOr0(s.memory, Source(op, c, s, k), op.size)
    else if op.kind.Stos? then GetGpr(s.gpr, RAX, op.size)
    else Range(op.size) - 1
  }

  predicate Stores(kind: StringKind) { kind.Movs? || kind.Stos? || kind.Ins? }

  // No element is stored over another one, nor over one that is still to be copied.
  predicate Disjoint(op: StringOp, c: Context, s: Cpu, count: nat) {
    forall j, k :: 0 <= j < k < count ==>
      && Separate(Target(op, c, s, j), Target(op, c, s, k), op.size)
      && (op.kind.Movs? ==> Separate(Target(op, c, s, j), Source(op, c, s, k), op.size))
  }

  predicate Separate(a: int, b: int, n: nat) { a + n <= b || b + n <= a }

  // The first count elements hold what was to be stored, and no other byte has changed.
  ghost predicate AllStored(op: StringOp, c: Context, s: Cpu, count: nat, m: Bytemap) {
    && m.Keys == s.memory.Keys
    && (forall k :: 0 <= k < count ==>
          Has(m, Target(op, c, s, k), op.size) && Load(m, Target(op, c, s, k), op.size) == Stored(op, c, s, k))
    && (forall x :: x in m && (forall k :: 0 <= k < count ==> !InElement(op, c, s, k, x)) ==> m[x] == s.memory[x])
  }

  predicate InElement(op: StringOp, c: Context, s: Cpu, k: nat, x: int) {
    Target(op, c, s, k) <= x < Target(op, c, s, k) + op.size
  }

  // One store.
  lemma StoreStep(op: StringOp, c: Context, s: Cpu, count: u64)
    requires Stores(op.kind) && 0 < count < Range(c.addressSize)
    ensures var it, a := Iterate(op, c, s), Target(op, c, s, 0);
            !it.fault ==>
              && Has(s.memory, a, op.size) && (op.kind.Movs? ==> Has(s.memory, Source(op, c, s, 0), op.size))
              && 0 <= Stored(op, c, s, 0) < Pow256(op.size)
              && it.cpu.memory == Store(s.memory, a, op.size, Stored(op, c, s, 0))
  {
    hide LoadOr0, Linear, Has, SetGpr, Index, GetGpr, Store, Moved;
    Elements(op, c, s, count);
    MovedKeepsFlags(op, c, s);
    LoadWithin(s.memory, Source(op, c, s, 0), op.size);
    ValueWithin(s.gpr, RAX, op.size);
    Pow256Values();
  }

  // A finished repetition of MOVS, STOS or INS whose elements are apart has stored every element.
  lemma {:induction false} StoresAll(op: StringOp, c: Context, s: Cpu, count: u64)
    requires Stores(op.kind) && !op.rep.Once? && count < Range(c.addressSize) && Disjoint(op, c, s, count)
    ensures var l := Uncapped(op, c, s, count); l.ending.Finished? ==> AllStored(op, c, s, count, l.cpu.memory)
    decreases count
  {
    hide Range, LoadOr0, Has, Uncapped, Iterate, Index, Place, GetGpr, Counted, Stored, AllStored, Disjoint;
    if count == 0 {
      LoopStep(op, c, s, 1);
      NothingStored(op, c, s);
      return;
    }
    LoopStep(op, c, s, count);
    if !Iterate(op, c, s).fault {
      var next := Counted(Iterate(op, c, s).cpu, c, count - 1);
      Elements(op, c, s, count);
      IterationKeeps(op, c, s, count);
      StoreStep(op, c, s, count);
      CountedMemory(Iterate(op, c, s).cpu, c, count - 1);
      DisjointNext(op, c, s, next, count);
      StoresAll(op, c, next, count - 1);
      if Uncapped(op, c, s, count).ending.Finished? {
        AllStoredNext(op, c, s, next, count, Uncapped(op, c, s, count).cpu.memory);
      }
    }
  }

  lemma CountedMemory(s: Cpu, c: Context, count: u64)
    ensures Counted(s, c, count).memory == s.memory
  {
  }

  lemma NothingStored(op: StringOp, c: Context, s: Cpu)
    ensures AllStored(op, c, s, 0, s.memory)
  {
  }

  // The same elements, seen from one iteration on.
  ghost predicate OneOn(op: StringOp, c: Context, s: Cpu, next: Cpu) {
    && (forall k: nat :: Target(op, c, next, k) == Target(op, c, s, k + 1))
    && (op.kind.Movs? ==> forall k: nat :: Source(op, c, next, k) == Source(op, c, s, k + 1))
  }

  lemma DisjointNext(op: StringOp, c: Context, s: Cpu, next: Cpu, count: u64)
    requires count > 0 && Disjoint(op, c, s, count) && OneOn(op, c, s, next)
    ensures Disjoint(op, c, next, count - 1)
  {
    hide Target, Source, Separate;
    forall j, k | 0 <= j < k < count - 1
      ensures Separate(Target(op, c, next, j), Target(op, c, next, k), op.size)
      ensures op.kind.Movs? ==> Separate(Target(op, c, next, j), Source(op, c, next, k), op.size)
    {
      assert Target(op, c, next, j) == Target(op, c, s, j + 1) && Target(op, c, next, k) == Target(op, c, s, k + 1);
      assert op.kind.Movs? ==> Source(op, c, next, k) == Source(op, c, s, k + 1);
    }
  }

  // What the later iterations store is what was to be stored from the start: nothing they copy has been overwritten.
  lemma StoredNext(op: StringOp, c: Context, s: Cpu, next: Cpu, count: u64, k: nat)
    requires Stores(op.kind) && count > 0 && k < count - 1 && Disjoint(op, c, s, count) && OneOn(op, c, s, next)
    requires next.memory == Store(s.memory, Target(op, c, s, 0), op.size, Stored(op, c, s, 0))
    requires next.gpr[RAX] == s.gpr[RAX]
    requires 0 <= Stored(op, c, s, 0)
    ensures Stored(op, c, next, k) == Stored(op, c, s, k + 1)
  {
    hide Target, Source, Load, Store, Has;
    if op.kind.Movs? {
      var a, b := Target(op, c, s, 0), Source(op, c, s, k + 1);
      assert Separate(a, b, op.size);
      assert Source(op, c, next, k) == b;
      ShapeKept(s.memory, a, op.size, Stored(op, c, s, 0));
      if Has(s.memory, b, op.size) {
        LoadApart(s.memory, a, op.size, Stored(op, c, s, 0), b, op.size);
      }
    } else if op.kind.Stos? {
      SameRegister(next.gpr, s.gpr, RAX, op.size);
    }
  }

  lemma ShapeKept(m: Bytemap, a: int, n: nat, v: nat)
    ensures Store(m, a, n, v).Keys == m.Keys
    ensures forall b, k :: Has(Store(m, a, n, v), b, k) == Has(m, b, k)
  {
    assert forall x :: x in Store(m, a, n, v) <==> x in m;
  }

  lemma AllStoredNext(op: StringOp, c: Context, s: Cpu, next: Cpu, count: u64, m: Bytemap)
    requires Stores(op.kind) && count > 0 && Disjoint(op, c, s, count) && OneOn(op, c, s, next)
    requires 0 <= Stored(op, c, s, 0) < Pow256(op.size) && Has(s.memory, Target(op, c, s, 0), op.size)
    requires next.memory == Store(s.memory, Target(op, c, s, 0), op.size, Stored(op, c, s, 0))
    requires next.gpr[RAX] == s.gpr[RAX]
    requires AllStored(op, c, next, count - 1, m)
    ensures AllStored(op, c, s, count, m)
  {
    hide Target, Source, Stored, Load, Has, Disjoint, OneOn;
    var a := Target(op, c, s, 0);
    ShapeKept(s.memory, a, op.size, Stored(op, c, s, 0));
    assert m.Keys == s.memory.Keys;
    forall k | 0 < k < count
      ensures Target(op, c, s, k) == Target(op, c, next, k - 1) && Stored(op, c, s, k) == Stored(op, c, next, k - 1)
      ensures Separate(a, Target(op, c, s, k), op.size)
    {
      OneOnAt(op, c, s, next, k - 1);
      StoredNext(op, c, s, next, count, k - 1);
      DisjointAt(op, c, s, count, 0, k);
    }
    forall x | x in m && (forall k :: 0 <= k < count ==> !InElement(op, c, s, k, x)) ensures m[x] == s.memory[x] {
      assert !InElement(op, c, s, 0, x);
      forall k | 0 <= k < count - 1 ensures !InElement(op, c, next, k, x) {
        assert !InElement(op, c, s, k + 1, x);
      }
    }
    forall x | a <= x < a + op.size && x in m ensures m[x] == next.memory[x] {
      forall k | 0 <= k < count - 1 ensures !InElement(op, c, next, k, x) {
        assert Separate(a, Target(op, c, s, k + 1), op.size);
      }
    }
    LoadStored(s.memory, a, op.size, Stored(op, c, s, 0));
    SameLoad(next.memory, m, a, op.size);
  }

  lemma OneOnAt(op: StringOp, c: Context, s: Cpu, next: Cpu, k: nat)
    requires OneOn(op, c, s, next)
    ensures Target(op, c, next, k) == Target(op, c, s, k + 1)
  {
  }

  lemma DisjointAt(op: StringOp, c: Context, s: Cpu, count: nat, j: nat, k: nat)
    requires Disjoint(op, c, s, count) && j < k < count
    ensures Separate(Target(op, c, s, j), Target(op, c, s, k), op.size)
  {
  }

  lemma SameLoad(m: Bytemap, m': Bytemap, a: int, n: nat)
    requires m.Keys == m'.Keys && Has(m, a, n) && forall x :: a <= x < a + n && x in m' ==> m'[x] == m[x]
    ensures Has(m', a, n) && Load(m', a, n) == Load(m, a, n)
  {
    assert forall x :: x in m <==> x in m';
    FetchFrame(m, m', a, n);
  }

  // ---- loading: LODS and OUTS ----

  // A finished repetition has read every element and changed no memory; LODS leaves the last element in the low part of
  // the accumulator, whose upper part is cleared by a 4- or 8-byte load and kept by a narrower one.
  lemma {:induction false} LoadsAll(op: StringOp, c: Context, s: Cpu, count: u64)
    requires (op.kind.Lods? || op.kind.Outs?) && !op.rep.Once? && count < Range(c.addressSize)
    ensures var l := Uncapped(op, c, s, count);
            l.ending.Finished? ==>
              && l.cpu.memory == s.memory
              && (forall k :: 0 <= k < count ==> Has(s.memory, Source(op, c, s, k), op.size))
              && (op.kind.Lods? && count > 0 ==>
                    l.cpu.gpr[RAX] ==
                      Load(s.memory, Source(op, c, s, count - 1), op.size) +
                      if op.size >= 4 then 0 else s.gpr[RAX] - s.gpr[RAX] % Range(op.size))
    decreases count
  {
    hide Range, LoadOr0, Has, Uncapped, Iterate, Index, Place, GetGpr, Counted, Load;
    if count == 0 {
      LoopStep(op, c, s, 1);
      return;
    }
    LoopStep(op, c, s, count);
    if !Iterate(op, c, s).fault {
      var next := Counted(Iterate(op, c, s).cpu, c, count - 1);
      LoopStep(op, c, next, 1);
      Elements(op, c, s, count);
      LoadStep(op, c, s, count);
      LoadsAll(op, c, next, count - 1);
      forall k | 0 < k < count ensures Source(op, c, s, k) == Source(op, c, next, k - 1) {
        assert Source(op, c, next, k - 1) == Source(op, c, s, (k - 1) + 1);
      }
    }
  }

  // One load.
  lemma LoadStep(op: StringOp, c: Context, s: Cpu, count: u64)
    requires (op.kind.Lods? || op.kind.Outs?) && 0 < count < Range(c.addressSize)
    ensures var it := Iterate(op, c, s);
            var next := Counted(it.cpu, c, count - 1);
            !it.fault ==>
              && Has(s.memory, Source(op, c, s, 0), op.size) && next.memory == s.memory
              && (op.kind.Lods? ==>
                    && next.gpr[RAX] == Load(s.memory, Source(op, c, s, 0), op.size) +
                                        (if op.size >= 4 then 0 else s.gpr[RAX] - s.gpr[RAX] % Range(op.size))
                    && next.gpr[RAX] - next.gpr[RAX] % Range(op.size) ==
                       (if op.size >= 4 then next.gpr[RAX] - next.gpr[RAX] % Range(op.size)
                        else s.gpr[RAX] - s.gpr[RAX] % Range(op.size)))
  {
    Elements(op, c, s, count);
    MovedKeepsFlags(op, c, s);
    AccumulatorKept(op, c, s, count);
    LoadWithin(s.memory, Source(op, c, s, 0), op.size);
    ValueWithin2(LoadOr0(s.memory, Source(op, c, s, 0), op.size), op.size);
    AccumulatorIs(op, c, s);
    if op.size < 4 {
      RangeLess(op.size);
      hide Range, LoadOr0, Linear, Has, Index, GetGpr, Iterate, Load, Place;
      if Has(s.memory, Source(op, c, s, 0), op.size) {
        ReplaceLow(s.gpr[RAX], LoadOr0(s.memory, Source(op, c, s, 0), op.size), Range(op.size), WORD / Range(op.size));
      }
    }
  }

  lemma RangeLess(w: Width)
    ensures WORD / Range(w) * Range(w) == WORD && Range(w) > 0
  {
  }

  lemma AccumulatorIs(op: StringOp, c: Context, s: Cpu)
    ensures Iterate(op, c, s).cpu.gpr[RAX] == Accessed(op, c, s).gpr[RAX]
  {
    hide GetGpr, Subtracted, Linear, Has, StoreIf, Masked, Iterate, MovedIf;
    AccessThenMove(op, c, s);
    var t := Accessed(op, c, s);
    MovedIndex(t, MovesSource(op.kind), RSI, c, op.size);
    MovedIndex(MovedIf(t, MovesSource(op.kind), RSI, c, op.size), MovesDestination(op.kind), RDI, c, op.size);
  }

  // ---- without a prefix ----

  // An instruction that is not repeated does what a repeated one does with a count of 1, and leaves RCX alone.
  lemma OnceIsFirst(op: StringOp, c: Context, s: Cpu)
    requires op.rep.Once?
    ensures var one, l := Uncapped(op, c, s, 1), Uncapped(op.(rep := WhileEqual), c, s, 1);
            && CountOf(op, c, s) == 1 && one.cpu.gpr[RCX] == s.gpr[RCX] && one.ending == l.ending
            && (one.ending.Finished? ==> l.cpu == Counted(one.cpu, c, 0))
  {
    hide Iterate;
    LoopStep(op.(rep := WhileEqual), c, s, 1);
    LoopStep(op.(rep := WhileEqual), c, Counted(Iterate(op, c, s).cpu, c, 0), 1);
    SameIteration(op, c, s);
    IndexesMove(op, c, s);
  }

  lemma SameIteration(op: StringOp, c: Context, s: Cpu)
    ensures Iterate(op.(rep := WhileEqual), c, s) == Iterate(op, c, s)
  {
  }

  // ---- the whole instruction ----

  // A whole instruction is the loop over the low part of RCX, or a single pass without a prefix; the program counter is
  // left past the instruction, and where it was on a fault.
  lemma WholeIs(op: StringOp, c: Context, s: Cpu)
    ensures var l := Uncapped(op, c, s, if op.rep.Once? then 1 else s.gpr[RCX] % Range(c.addressSize));
            var pc := if l.ending.Finished? then (op.address + op.length) % 0x1_0000_0000_0000_0000 else s.rip;
            l.ending != Capped && WholeInstruction(op, c, s) == Looped(l.cpu.(rip := pc), l.ending)
  {
    hide Uncapped, Range;
    var count := CountOf(op, c, s);
    NeverCapped(op, c, s, count);
    FaultPc(op, c, s, count);
  }

  lemma {:induction false} NeverCapped(op: StringOp, c: Context, s: Cpu, count: u64)
    ensures Uncapped(op, c, s, count).ending != Capped
    decreases count
  {
    hide Iterate, Counted, Stops;
    if count > 0 && !op.rep.Once? {
      NeverCapped(op, c, Counted(Iterate(op, c, s).cpu, c, count - 1), count - 1);
    }
  }
}
