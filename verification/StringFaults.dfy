// What a faulting string instruction leaves behind. The access fails, but the iteration is not undone: its index
// registers have moved, a load delivers 0, and a copy from unreadable memory stores that 0.

module StringFaults {
  import opened MachineTypes
  import opened FlatMemory
  import opened Alu
  import opened X86Registers
  import opened StringSpec

  predicate MovesSource(kind: StringKind) { kind.Movs? || kind.Lods? || kind.Cmps? || kind.Outs? }

  predicate MovesDestination(kind: StringKind) { !kind.Lods? && !kind.Outs? }

  function SourceOf(c: Context, s: Cpu): u64 { Linear(c, c.srcBase, GetGpr(s.gpr, RSI, c.addressSize)) }

  function DestinationOf(c: Context, s: Cpu): u64 { Linear(c, c.dstBase, GetGpr(s.gpr, RDI, c.addressSize)) }

  // An index register one element further on.
  function MovedBy(op: StringOp, c: Context, s: Cpu, i: nat): u64
    requires i < 16
  {
    Masked(Wrap(GetGpr(s.gpr, i, c.addressSize) + DeltaOf(op, s)), c.addressSize)
  }

  // The copy reads nothing and has somewhere to put it.
  ghost predicate CopiesNothing(op: StringOp, c: Context, s: Cpu) {
    op.kind.Movs? && !Has(s.memory, SourceOf(c, s), op.size) && Has(s.memory, DestinationOf(c, s), op.size)
  }

  // ---- one iteration ----

  // The access of an iteration, before its index registers move.
  ghost function Accessed(op: StringOp, c: Context, s: Cpu): Cpu {
    var acc := GetGpr(s.gpr, RAX, op.size);
    var v, w := LoadOr0(s.memory, SourceOf(c, s), op.size), LoadOr0(s.memory, DestinationOf(c, s), op.size);
    match op.kind
    case Movs => s.(memory := StoreIf(s.memory, DestinationOf(c, s), op.size, v))
    case Stos => s.(memory := StoreIf(s.memory, DestinationOf(c, s), op.size, acc))
    case Lods => s.(gpr := SetGpr(s.gpr, RAX, op.size, v))
    case Scas => s.(flags := Subtracted(acc, w, false, op.size).flags)
    case Cmps => s.(flags := Subtracted(v, w, false, op.size).flags)
    case Ins => s.(memory := StoreIf(s.memory, DestinationOf(c, s), op.size, Range(op.size) - 1))
    case Outs => s
  }

  function MovedIf(s: Cpu, moves: bool, i: nat, c: Context, size: Width): Cpu
    requires i < 16
  {
    if moves then Moved(s, i, c, size) else s
  }

  lemma AccessThenMove(op: StringOp, c: Context, s: Cpu)
    ensures Iterate(op, c, s).cpu ==
            MovedIf(MovedIf(Accessed(op, c, s), MovesSource(op.kind), RSI, c, op.size), MovesDestination(op.kind), RDI,
                    c, op.size)
  {
    hide Linear, Has, StoreIf, LoadOr0, Subtracted, Moved, Masked, SetGpr;
  }

  lemma MovedIndex(s: Cpu, moves: bool, i: nat, c: Context, size: Width)
    requires i < 16
    ensures var t, delta := MovedIf(s, moves, i, c, size), if s.direction then -(size as int) else size;
            && t == s.(gpr := t.gpr)
            && (if moves then
                  GetGpr(t.gpr, i, c.addressSize) ==
                    Masked(Wrap(GetGpr(s.gpr, i, c.addressSize) + delta), c.addressSize)
                else t.gpr == s.gpr)
            && forall j :: 0 <= j < 16 && j != i ==> t.gpr[j] == s.gpr[j]
  {
    hide GetGpr, SetGpr, Masked;
    WriteThenRead(s.gpr, i, c.addressSize,
                  Wrap(GetGpr(s.gpr, i, c.addressSize) + if s.direction then -(size as int) else size));
  }

  lemma WriteThenRead(g: Gprs, i: nat, w: Width, v: u64)
    requires i < 16
    ensures GetGpr(SetGpr(g, i, w, v), i, w) == Masked(v, w)
    ensures forall j :: 0 <= j < 16 && j != i ==> SetGpr(g, i, w, v)[j] == g[j]
  {
    hide Range;
    MaskedWithin(v, w);
    if w < 4 {
      ReadBack(g[i], Masked(v, w), w);
      hide Masked;
    }
  }


  // Memory survives a fault except for a copy from unreadable to writable memory, which stores 0 there.
  lemma FaultMemory(op: StringOp, c: Context, s: Cpu)
    requires Iterate(op, c, s).fault
    ensures var after := Iterate(op, c, s).cpu.memory;
            && (CopiesNothing(op, c, s) ==> after == Store(s.memory, DestinationOf(c, s), op.size, 0))
            && (after == s.memory <==>
                  !(CopiesNothing(op, c, s) && Load(s.memory, DestinationOf(c, s), op.size) != 0))
  {
    hide GetGpr, SetGpr, Subtracted, Linear, Load, Store;
    if CopiesNothing(op, c, s) {
      StoreNothing(s.memory, DestinationOf(c, s), op.size);
    }
  }

  // Storing 0 changes memory unless it was 0 before.
  lemma StoreNothing(m: Bytemap, a: int, n: nat)
    requires Has(m, a, n)
    ensures Store(m, a, n, 0) == m <==> Load(m, a, n) == 0
  {
    LoadStored(m, a, n, 0);
    if Load(m, a, n) == 0 {
      ToFromBytes(Fetch(m, a, n));
      forall x | a <= x < a + n ensures ToBytes(0, n)[x - a] == m[x] {
        FetchAt(m, a, n, x - a);
      }
    }
  }

  // The accumulator survives except that a faulting LODS loads 0; the flags survive except that a faulting SCAS or CMPS
  // compares with 0 for what it could not read. The count, the direction and the program counter always survive, and
  // so does every register but the accumulator and the index registers.
  lemma FaultRegisters(op: StringOp, c: Context, s: Cpu)
    requires Iterate(op, c, s).fault
    ensures var t := Iterate(op, c, s).cpu;
            && t.gpr[RAX] == (if op.kind.Lods? then SetGpr(s.gpr, RAX, op.size, 0)[RAX] else s.gpr[RAX])
            && t.flags == (if op.kind.Scas? then Subtracted(GetGpr(s.gpr, RAX, op.size), 0, false, op.size).flags
                           else if op.kind.Cmps? then
                             Subtracted(LoadOr0(s.memory, SourceOf(c, s), op.size),
                                        LoadOr0(s.memory, DestinationOf(c, s), op.size), false, op.size).flags
                           else s.flags)
            && t.direction == s.direction && t.rip == s.rip
            && forall i :: 0 <= i < 16 && i != RAX && i != RSI && i != RDI ==> t.gpr[i] == s.gpr[i]
  {
    hide GetGpr, Subtracted, Linear, Has, StoreIf, Masked, Iterate, MovedIf;
    AccessThenMove(op, c, s);
    var t := Accessed(op, c, s);
    MovedIndex(t, MovesSource(op.kind), RSI, c, op.size);
    MovedIndex(MovedIf(t, MovesSource(op.kind), RSI, c, op.size), MovesDestination(op.kind), RDI, c, op.size);
    FaultReads0(op, c, s);
  }

  lemma FaultReads0(op: StringOp, c: Context, s: Cpu)
    requires Iterate(op, c, s).fault
    ensures op.kind.Lods? ==> LoadOr0(s.memory, SourceOf(c, s), op.size) == 0
    ensures op.kind.Scas? ==> LoadOr0(s.memory, DestinationOf(c, s), op.size) == 0
  {
    hide Linear, Has, StoreIf, Subtracted, Moved, Masked, SetGpr;
  }

  // Each index register of the instruction moves by one element, whether or not the access works. The count does not
  // change in the iteration itself.
  lemma IndexesMove(op: StringOp, c: Context, s: Cpu)
    ensures var t := Iterate(op, c, s).cpu;
            && (if MovesSource(op.kind) then GetGpr(t.gpr, RSI, c.addressSize) == MovedBy(op, c, s, RSI)
                else t.gpr[RSI] == s.gpr[RSI])
            && (if MovesDestination(op.kind) then GetGpr(t.gpr, RDI, c.addressSize) == MovedBy(op, c, s, RDI)
                else t.gpr[RDI] == s.gpr[RDI])
            && t.gpr[RCX] == s.gpr[RCX] && t.direction == s.direction
  {
    hide Linear, Has, StoreIf, LoadOr0, Subtracted, MovedIf, Masked, Iterate;
    AccessThenMove(op, c, s);
    var t := Accessed(op, c, s);
    MovedIndex(t, MovesSource(op.kind), RSI, c, op.size);
    MovedIndex(MovedIf(t, MovesSource(op.kind), RSI, c, op.size), MovesDestination(op.kind), RDI, c, op.size);
  }

  // ---- the loop ----

  // The state after n iterations.
  ghost function StateAfter(op: StringOp, c: Context, s: Cpu, count: u64, n: nat): Cpu
    requires n <= count
    decreases n
  {
    if n == 0 then s else StateAfter(op, c, Counted(Iterate(op, c, s).cpu, c, count - 1), count - 1, n - 1)
  }

  // None of the first n iterations faults or ends the loop.
  ghost predicate GoesOn(op: StringOp, c: Context, s: Cpu, count: u64, n: nat)
    requires n <= count
    decreases n
  {
    n > 0 ==>
      var next := Counted(Iterate(op, c, s).cpu, c, count - 1);
      && !op.rep.Once? && !Iterate(op, c, s).fault && !Stops(op, next.flags)
      && GoesOn(op, c, next, count - 1, n - 1)
  }

  // The loop gets as far as iteration n, and that one faults.
  ghost predicate FaultsAt(op: StringOp, c: Context, s: Cpu, count: u64, n: nat) {
    n < count && GoesOn(op, c, s, count, n) && Iterate(op, c, StateAfter(op, c, s, count, n)).fault
  }

  // A faulting loop is the state after its completed iterations, plus the iteration that faulted.
  lemma {:induction false} FaultedAfter(op: StringOp, c: Context, s: Cpu, count: u64) returns (n: nat)
    requires Uncapped(op, c, s, count).ending.Faulted?
    ensures FaultsAt(op, c, s, count, n)
    ensures Uncapped(op, c, s, count).cpu == Iterate(op, c, StateAfter(op, c, s, count, n)).cpu
    decreases count
  {
    hide Iterate, Counted, Stops;
    n := 0;
    var it := Iterate(op, c, s);
    if !it.fault {
      var k := FaultedAfter(op, c, Counted(it.cpu, c, count - 1), count - 1);
      n := k + 1;
    }
  }

  lemma {:induction false} FaultEnds(op: StringOp, c: Context, s: Cpu, count: u64, n: nat)
    requires FaultsAt(op, c, s, count, n)
    ensures Uncapped(op, c, s, count) == Looped(Iterate(op, c, StateAfter(op, c, s, count, n)).cpu, Faulted)
    decreases n
  {
    hide Iterate, Counted, Stops;
    if n > 0 {
      FaultEnds(op, c, Counted(Iterate(op, c, s).cpu, c, count - 1), count - 1, n - 1);
    }
  }

  // A loop faults exactly when one of its iterations is reached and faults.
  lemma {:induction false} FaultsExactly(op: StringOp, c: Context, s: Cpu, count: u64)
    ensures Uncapped(op, c, s, count).ending.Faulted? <==> exists n: nat :: FaultsAt(op, c, s, count, n)
  {
    hide Uncapped, FaultsAt;
    if Uncapped(op, c, s, count).ending.Faulted? {
      var n := FaultedAfter(op, c, s, count);
    } else if exists n: nat :: FaultsAt(op, c, s, count, n) {
      var n: nat :| FaultsAt(op, c, s, count, n);
      FaultEnds(op, c, s, count, n);
    }
  }

  // The index register i after n elements.
  function Offset(op: StringOp, c: Context, s: Cpu, i: nat, n: nat): u64
    requires i < 16
  {
    OffsetAt(c, GetGpr(s.gpr, i, c.addressSize), DeltaOf(op, s), n)
  }

  ghost predicate IndexesAt(op: StringOp, c: Context, s: Cpu, t: Cpu, n: nat) {
    && (if MovesSource(op.kind) then GetGpr(t.gpr, RSI, c.addressSize) == Offset(op, c, s, RSI, n)
        else t.gpr[RSI] == s.gpr[RSI])
    && (if MovesDestination(op.kind) then GetGpr(t.gpr, RDI, c.addressSize) == Offset(op, c, s, RDI, n)
        else t.gpr[RDI] == s.gpr[RDI])
  }

  lemma CountedIndexes(op: StringOp, c: Context, s: Cpu, count: u64)
    requires 0 < count < Range(c.addressSize)
    ensures var next := Counted(Iterate(op, c, s).cpu, c, count - 1);
            && next.direction == s.direction && GetGpr(next.gpr, RCX, c.addressSize) == count - 1
            && next.gpr[RSI] == Iterate(op, c, s).cpu.gpr[RSI] && next.gpr[RDI] == Iterate(op, c, s).cpu.gpr[RDI]
  {
    hide Iterate, Range;
    IndexesMove(op, c, s);
    CountReadBack(Iterate(op, c, s).cpu, c, count - 1);
  }

  // After n iterations and one more, faulting or not, the index registers are n + 1 elements on.
  lemma {:induction false} IndexesAfter(op: StringOp, c: Context, s: Cpu, count: u64, n: nat)
    requires n < count < Range(c.addressSize)
    ensures IndexesAt(op, c, s, Iterate(op, c, StateAfter(op, c, s, count, n)).cpu, n + 1)
    decreases n
  {
    hide Iterate, GetGpr, Range, Counted, OffsetAt, Masked;
    IndexesMove(op, c, s);
    var next := Counted(Iterate(op, c, s).cpu, c, count - 1);
    CountedIndexes(op, c, s, count);
    SameRegister(next.gpr, Iterate(op, c, s).cpu.gpr, RSI, c.addressSize);
    SameRegister(next.gpr, Iterate(op, c, s).cpu.gpr, RDI, c.addressSize);
    OffsetSteps(c, GetGpr(s.gpr, RSI, c.addressSize), DeltaOf(op, s), n + 1);
    OffsetSteps(c, GetGpr(s.gpr, RDI, c.addressSize), DeltaOf(op, s), n + 1);
    if n == 0 {
      OffsetSteps(c, MovedBy(op, c, s, RSI), DeltaOf(op, s), 0);
      OffsetSteps(c, MovedBy(op, c, s, RDI), DeltaOf(op, s), 0);
    } else {
      IndexesAfter(op, c, next, count - 1, n - 1);
    }
  }

  lemma {:induction false} CountAfter(op: StringOp, c: Context, s: Cpu, count: u64, n: nat)
    requires n <= count < Range(c.addressSize) && GetGpr(s.gpr, RCX, c.addressSize) == count
    ensures GetGpr(StateAfter(op, c, s, count, n).gpr, RCX, c.addressSize) == count - n
    decreases n
  {
    hide Iterate, GetGpr, Range, Counted;
    if n > 0 {
      CountedIndexes(op, c, s, count);
      CountAfter(op, c, Counted(Iterate(op, c, s).cpu, c, count - 1), count - 1, n - 1);
    }
  }

  // A string instruction that faults: some n iterations are complete and the next one has faulted on top of them. The
  // count is short of those n only, while the index registers have moved once more; the program counter stays.
  lemma WholeFault(op: StringOp, c: Context, s: Cpu) returns (n: nat)
    requires WholeInstruction(op, c, s).ending.Faulted?
    ensures var count, after := CountOf(op, c, s), WholeInstruction(op, c, s).cpu;
            && FaultsAt(op, c, s, count, n) && (op.rep.Once? ==> n == 0)
            && after == Iterate(op, c, StateAfter(op, c, s, count, n)).cpu
            && (!op.rep.Once? ==> GetGpr(after.gpr, RCX, c.addressSize) == count - n)
            && IndexesAt(op, c, s, after, n + 1)
            && after.rip == s.rip
  {
    hide Iterate, Uncapped, GetGpr, Range, StateAfter, IndexesAt;
    var count := CountOf(op, c, s);
    CountBound(op, c, s);
    n := FaultedAfter(op, c, s, count);
    FaultPc(op, c, s, count);
    IndexesAfter(op, c, s, count, n);
    if !op.rep.Once? {
      CountAfter(op, c, s, count, n);
      var t := StateAfter(op, c, s, count, n);
      IndexesMove(op, c, t);
      SameRegister(Iterate(op, c, t).cpu.gpr, t.gpr, RCX, c.addressSize);
    }
  }

  lemma SameRegister(g: Gprs, h: Gprs, i: nat, w: Width)
    requires i < 16 && g[i] == h[i]
    ensures GetGpr(g, i, w) == GetGpr(h, i, w)
  {
  }

  // ---- an input ----

  // REP MOVSB of two bytes from unmapped 0x2000 to 0x1000, the only byte there is, which holds 0x55.
  function CopyFromNowhere(): (StringOp, Context, Cpu) {
    var gpr: Gprs := seq(16, i => if i == RCX then 2 else if i == RSI then 0x2000 else if i == RDI then 0x1000 else 0);
    (StringOp(Movs, WhileEqual, 1, 0x40_0000, 2), Context(8, 0, 0, false),
     Cpu(gpr, Flags(false, false, false, false, false, false), false, 0x40_0000, map[0x1000 := 0x55]))
  }

  lemma ZeroByteAt(b: byte)
    ensures StoreIf(map[0x1000 := b], 0x1000, 1, 0) == map[0x1000 := 0]
  {
    var m: Bytemap := map[0x1000 := b];
    assert ToBytes(0, 1) == [0] by {
      assert ToBytes(0, 0) == [];
    }
    assert Has(m, 0x1000, 1);
    assert Patch(m, 0x1000, [0]) == map[0x1000 := 0];
  }

  // It faults in its first iteration, and yet the byte is 0 afterwards and both index registers have moved. Executed
  // again when the source is mapped, it would not copy the first byte.
  lemma FaultingCopyStores()
    ensures var (op, c, s) := CopyFromNowhere();
            var l := WholeInstruction(op, c, s);
            && l.ending.Faulted? && l.cpu.rip == op.address
            && l.cpu.memory == map[0x1000 := 0]
            && l.cpu.gpr == s.gpr[RSI := 0x2001][RDI := 0x1001] && l.cpu.gpr[RCX] == 2
  {
    hide StoreIf, Uncapped, Store, LoadOr0;
    var (op, c, s) := CopyFromNowhere();
    assert 0x2000 !in s.memory;
    assert !Has(s.memory, 0x2000, 1);
    assert LoadOr0(s.memory, 0x2000, 1) == 0 by {
      NothingThere(s.memory, 0x2000, 1);
    }
    ZeroByteAt(0x55);
    FaultEnds(op, c, s, 2, 0);
  }

  lemma NothingThere(m: Bytemap, a: u64, n: nat)
    requires n <= 8 && !Has(m, a, n)
    ensures LoadOr0(m, a, n) == 0
  {
  }
}
