// The x86 string instructions as functions of registers, flags and memory: one iteration, the uncapped loop, and the
// loop that stops after 65536 iterations to be resumed by the next step.

module StringSpec {
  import opened MachineTypes
  import opened FlatMemory
  import opened Division
  import opened Alu
  import opened X86Registers

  const MAX_ITERATIONS: nat := 65536

  datatype Cpu = Cpu(gpr: Gprs, flags: Flags, direction: bool, rip: u64, memory: Bytemap)

  datatype StringKind = Movs | Stos | Lods | Scas | Cmps | Ins | Outs
  datatype Repeat = Once | WhileEqual | WhileNotEqual

  datatype StringOp = StringOp(kind: StringKind, rep: Repeat, size: Width, address: u64, length: nat)

  // What the loop reads once and never changes: the address size, the segment bases, and real-mode wrap-around.
  datatype Context = Context(addressSize: Width, srcBase: u64, dstBase: u64, wrapAt1M: bool)

  function Linear(c: Context, base: u64, offset: u64): u64 {
    var a := Wrap(base + offset);
    if c.wrapAt1M then a % 0x10_0000 else a
  }

  datatype Iterated = Iterated(cpu: Cpu, fault: bool)

  function Moved(s: Cpu, i: nat, c: Context, size: Width): Cpu
    requires i < 16
  {
    var delta := if s.direction then -(size as int) else size;
    s.(gpr := SetGpr(s.gpr, i, c.addressSize, Wrap(GetGpr(s.gpr, i, c.addressSize) + delta)))
  }

  // One pass through the loop body, up to its fault check. Index registers move even when the access faults.
  ghost function Iterate(op: StringOp, c: Context, s: Cpu): Iterated {
    var src, dst :=
      Linear(c, c.srcBase, GetGpr(s.gpr, RSI, c.addressSize)), Linear(c, c.dstBase, GetGpr(s.gpr, RDI, c.addressSize));
    var readable, writable := Has(s.memory, src, op.size), Has(s.memory, dst, op.size);
    match op.kind
    case Movs =>
      var v := LoadOr0(s.memory, src, op.size);
      Iterated(Moved(Moved(s.(memory := StoreIf(s.memory, dst, op.size, v)), RSI, c, op.size), RDI, c, op.size),
               !readable || !writable)
    case Stos =>
      var v := GetGpr(s.gpr, RAX, op.size);
      Iterated(Moved(s.(memory := StoreIf(s.memory, dst, op.size, v)), RDI, c, op.size), !writable)
    case Lods =>
      var v := LoadOr0(s.memory, src, op.size);
      Iterated(Moved(s.(gpr := SetGpr(s.gpr, RAX, op.size, v)), RSI, c, op.size), !readable)
    case Scas =>
      var v := LoadOr0(s.memory, dst, op.size);
      Iterated(Moved(s.(flags := Subtracted(GetGpr(s.gpr, RAX, op.size), v, false, op.size).flags), RDI, c, op.size),
               !writable)
    case Cmps =>
      var v1, v2 := LoadOr0(s.memory, src, op.size), LoadOr0(s.memory, dst, op.size);
      Iterated(Moved(Moved(s.(flags := Subtracted(v1, v2, false, op.size).flags), RSI, c, op.size), RDI, c, op.size),
               !readable || !writable)
    case Ins =>
      Iterated(Moved(s.(memory := StoreIf(s.memory, dst, op.size, Range(op.size) - 1)), RDI, c, op.size), !writable)
    case Outs => Iterated(Moved(s, RSI, c, op.size), !readable)
  }

  // REPE stops at the first difference and REPNE at the first match.
  predicate Stops(op: StringOp, f: Flags) {
    (op.kind.Scas? || op.kind.Cmps?) && ((op.rep.WhileEqual? && !f.zero) || (op.rep.WhileNotEqual? && f.zero))
  }

  datatype Ending = Finished | Faulted | Capped

  datatype Looped = Looped(cpu: Cpu, ending: Ending)

  function CountOf(op: StringOp, c: Context, s: Cpu): u64 {
    if op.rep.Once? then 1 else GetGpr(s.gpr, RCX, c.addressSize)
  }

  function Counted(s: Cpu, c: Context, count: u64): Cpu { s.(gpr := SetGpr(s.gpr, RCX, c.addressSize, count)) }

  // The loop as the architecture has it.
  ghost function Uncapped(op: StringOp, c: Context, s: Cpu, count: u64): Looped
    decreases count
  {
    if count == 0 then Looped(s, Finished)
    else
      var it := Iterate(op, c, s);
      if it.fault then Looped(it.cpu, Faulted)
      else if op.rep.Once? then Looped(it.cpu, Finished)
      else
        var next := Counted(it.cpu, c, count - 1);
        if Stops(op, next.flags) then Looped(next, Finished) else Uncapped(op, c, next, count - 1)
  }

  // The loop of one step, with done iterations behind it.
  ghost function OneStep(op: StringOp, c: Context, s: Cpu, count: u64, done: nat): Looped
    decreases count
  {
    if count == 0 then Looped(s, Finished)
    else
      var it := Iterate(op, c, s);
      if it.fault then Looped(it.cpu, Faulted)
      else if op.rep.Once? then Looped(it.cpu, Finished)
      else
        var next := Counted(it.cpu, c, count - 1);
        if Stops(op, next.flags) then Looped(next, Finished)
        else if count - 1 > 0 && done + 1 >= MAX_ITERATIONS then Looped(next, Capped)
        else OneStep(op, c, next, count - 1, done + 1)
  }

  // Where the program counter goes: past the instruction, back to it after a cap, nowhere on a fault.
  function Settle(op: StringOp, l: Looped): Looped {
    match l.ending
    case Finished => l.(cpu := l.cpu.(rip := Wrap(op.address + op.length)))
    case Capped => l.(cpu := l.cpu.(rip := op.address))
    case Faulted => l
  }

  ghost function Step(op: StringOp, c: Context, s: Cpu): Looped { Settle(op, OneStep(op, c, s, CountOf(op, c, s), 0)) }

  ghost function WholeInstruction(op: StringOp, c: Context, s: Cpu): Looped {
    Settle(op, Uncapped(op, c, s, CountOf(op, c, s)))
  }

  // ---- resuming ----

  type Decoder = (Bytemap, u64) -> Option<StringOp>

  datatype Resumption = Ended(result: Looped) | Lost(cpu: Cpu)

  // Steps for as long as they are capped, as long as the program counter still decodes to the same instruction.
  ghost function Resumed(decode: Decoder, op: StringOp, c: Context, s: Cpu): Resumption
    decreases CountOf(op, c, s)
  {
    if decode(s.memory, s.rip) != Some(op) then Lost(s)
    else
      var one := Step(op, c, s);
      if one.ending.Capped? then
        CapReduces(op, c, s, CountOf(op, c, s), 0);
        Resumed(decode, op, c, one.cpu)
      else Ended(one)
  }

  // The instruction never overwrites itself: all along the uncapped loop, its address decodes to it.
  ghost predicate StaysDecoded(decode: Decoder, op: StringOp, c: Context, s: Cpu, count: u64)
    decreases count
  {
    && decode(s.memory, op.address) == Some(op)
    && (count > 0 && !op.rep.Once? && !Iterate(op, c, s).fault ==>
          var next := Counted(Iterate(op, c, s).cpu, c, count - 1);
          StaysDecoded(decode, op, c, next, count - 1))
  }

  // Replacing the low part of a register value leaves that part to be read back, and does not outgrow the register.
  lemma ReplaceLow(was: int, v: int, m: int, t: int)
    requires 0 <= v < m && 0 <= was < t * m
    ensures 0 <= was - was % m + v < t * m && (was - was % m + v) % m == v
  {
    var q, r := was / m, was % m;
    Euclid(was, m, q, r);
    Quotient(was - r + v, m, q, v);
    BelowMultiple(q, r, t, m);
  }

  lemma BelowMultiple(q: int, r: int, t: int, m: int)
    requires m > 0 && 0 <= r < m && 0 <= q * m + r < t * m
    ensures 0 <= q * m && q * m + m <= t * m
  {
    if q < 0 {
      LessTimes(q, -1, m);
    } else if q >= t {
      LessTimes(t, q, m);
    } else {
      LessTimes(0, q, m);
      LessTimes(q + 1, t, m);
    }
  }

  lemma ReadBack(was: u64, v: u64, w: Width)
    requires v < Range(w) && w < 4
    ensures was - Masked(was, w) + Masked(v, w) < WORD && Masked(was - Masked(was, w) + Masked(v, w), w) == v
  {
    assert WORD / Range(w) * Range(w) == WORD && Masked(v, w) == v;
    hide Range;
    ReplaceLow(was, v, Range(w), WORD / Range(w));
  }

  lemma CountReadBack(s: Cpu, c: Context, count: u64)
    requires count < Range(c.addressSize)
    ensures GetGpr(Counted(s, c, count).gpr, RCX, c.addressSize) == count
  {
    if c.addressSize < 4 {
      ReadBack(s.gpr[RCX], count, c.addressSize);
      hide Masked;
    }
  }

  // A capped step has used up exactly the cap's iterations, and the reduced count is in RCX.
  lemma {:induction false} CapReduces(op: StringOp, c: Context, s: Cpu, count: u64, done: nat)
    requires done < MAX_ITERATIONS && count < Range(c.addressSize)
    ensures var l := OneStep(op, c, s, count, done);
            l.ending.Capped? ==> !op.rep.Once? && 0 < CountOf(op, c, l.cpu) == count - (65536 - done)
    decreases count
  {
    hide Iterate, Counted, Stops, Range, GetGpr;
    if count > 0 {
      var it := Iterate(op, c, s);
      if !it.fault && !op.rep.Once? {
        var next := Counted(it.cpu, c, count - 1);
        CountReadBack(it.cpu, c, count - 1);
        if !Stops(op, next.flags) && !(count - 1 > 0 && done + 1 >= MAX_ITERATIONS) && count - 1 > 0 {
          CapReduces(op, c, next, count - 1, done + 1);
        }
      }
    }
  }

  // A step is either the whole loop, or a front part of it from which the uncapped loop goes on to the same end.
  lemma {:induction false} StepIsPrefix(decode: Decoder, op: StringOp, c: Context, s: Cpu, count: u64, done: nat)
    requires done < MAX_ITERATIONS && count < Range(c.addressSize) && StaysDecoded(decode, op, c, s, count)
    ensures var l := OneStep(op, c, s, count, done);
            if l.ending.Capped? then
              && Uncapped(op, c, l.cpu, CountOf(op, c, l.cpu)) == Uncapped(op, c, s, count)
              && StaysDecoded(decode, op, c, l.cpu, CountOf(op, c, l.cpu))
            else l == Uncapped(op, c, s, count)
    decreases count
  {
    hide Iterate, Counted, Stops, Range, GetGpr;
    if count > 0 {
      var it := Iterate(op, c, s);
      if !it.fault && !op.rep.Once? {
        var next := Counted(it.cpu, c, count - 1);
        CountReadBack(it.cpu, c, count - 1);
        if !Stops(op, next.flags) && !(count - 1 > 0 && done + 1 >= MAX_ITERATIONS) && count - 1 > 0 {
          StepIsPrefix(decode, op, c, next, count - 1, done + 1);
        }
      }
    }
  }

  lemma MovedIgnoresPc(s: Cpu, i: nat, c: Context, size: Width, rip: u64)
    requires i < 16
    ensures Moved(s.(rip := rip), i, c, size) == Moved(s, i, c, size).(rip := rip)
  {
  }

  // The program counter plays no part in the loop.
  lemma IterateIgnoresPc(op: StringOp, c: Context, s: Cpu, rip: u64)
    ensures Iterate(op, c, s.(rip := rip)) == var it := Iterate(op, c, s); it.(cpu := it.cpu.(rip := rip))
  {
    hide LoadOr0, StoreIf, Has, GetGpr, SetGpr, Subtracted, Linear, Moved;
    forall t: Cpu, i: nat, w: Width | i < 16 ensures Moved(t.(rip := rip), i, c, w) == Moved(t, i, c, w).(rip := rip) {
      MovedIgnoresPc(t, i, c, w, rip);
    }
  }

  lemma {:induction false} UncappedIgnoresPc(op: StringOp, c: Context, s: Cpu, count: u64, rip: u64)
    ensures Uncapped(op, c, s.(rip := rip), count) == var l := Uncapped(op, c, s, count); l.(cpu := l.cpu.(rip := rip))
    decreases count
  {
    hide Iterate, SetGpr, Stops;
    if count > 0 {
      IterateIgnoresPc(op, c, s, rip);
      var it := Iterate(op, c, s);
      if !it.fault && !op.rep.Once? {
        var next := Counted(it.cpu, c, count - 1);
        assert Counted(it.cpu.(rip := rip), c, count - 1) == next.(rip := rip);
        UncappedIgnoresPc(op, c, next, count - 1, rip);
      }
    }
  }

  lemma {:induction false} DecodedIgnoresPc(decode: Decoder, op: StringOp, c: Context, s: Cpu, count: u64, rip: u64)
    requires StaysDecoded(decode, op, c, s, count)
    ensures StaysDecoded(decode, op, c, s.(rip := rip), count)
    decreases count
  {
    hide Iterate, SetGpr, Stops;
    if count > 0 {
      IterateIgnoresPc(op, c, s, rip);
      var it := Iterate(op, c, s);
      if !it.fault && !op.rep.Once? {
        var next := Counted(it.cpu, c, count - 1);
        assert Counted(it.cpu.(rip := rip), c, count - 1) == next.(rip := rip);
        DecodedIgnoresPc(decode, op, c, next, count - 1, rip);
      }
    }
  }

  // A string instruction stepped until it is no longer capped ends as the uncapped loop does: same registers, flags,
  // memory, program counter and fault, whatever made it end. RCX decreases with every step on the way.
  lemma {:induction false} ResumedIsWhole(decode: Decoder, op: StringOp, c: Context, s: Cpu)
    requires s.rip == op.address && StaysDecoded(decode, op, c, s, CountOf(op, c, s))
    ensures Resumed(decode, op, c, s) == Ended(WholeInstruction(op, c, s))
    decreases CountOf(op, c, s)
  {
    hide OneStep, Uncapped, StaysDecoded, GetGpr;
    var count := CountOf(op, c, s);
    CountBound(op, c, s);
    StillDecoded(decode, op, c, s, count);
    StepIsPrefix(decode, op, c, s, count, 0);
    var l := OneStep(op, c, s, count, 0);
    if l.ending.Capped? {
      CapReduces(op, c, s, count, 0);
      var next := l.cpu.(rip := op.address);
      assert CountOf(op, c, next) == CountOf(op, c, l.cpu);
      UncappedIgnoresPc(op, c, l.cpu, CountOf(op, c, l.cpu), op.address);
      DecodedIgnoresPc(decode, op, c, l.cpu, CountOf(op, c, l.cpu), op.address);
      ResumedIsWhole(decode, op, c, next);
      FaultPc(op, c, s, count);
    }
  }

  lemma CountBound(op: StringOp, c: Context, s: Cpu)
    ensures CountOf(op, c, s) < Range(c.addressSize)
  {
  }

  lemma {:induction false} StillDecoded(decode: Decoder, op: StringOp, c: Context, s: Cpu, count: u64)
    requires StaysDecoded(decode, op, c, s, count)
    ensures decode(s.memory, op.address) == Some(op)
  {
  }

  // A faulting loop leaves the program counter where it was.
  lemma {:induction false} FaultPc(op: StringOp, c: Context, s: Cpu, count: u64)
    ensures Uncapped(op, c, s, count).cpu.rip == s.rip
    decreases count
  {
    UncappedIgnoresPc(op, c, s, count, s.rip);
  }

  // ---- what a scan finds ----

  // The offset in RDI after k elements.
  function OffsetAt(c: Context, offset: u64, delta: int, k: nat): u64
    decreases k
  {
    if k == 0 then offset else OffsetAt(c, Masked(Wrap(offset + delta), c.addressSize), delta, k - 1)
  }

  // The k-th element that a scan from the current state compares.
  ghost function ElementAt(op: StringOp, c: Context, s: Cpu, k: nat): u64 {
    LoadOr0(s.memory, Linear(c, c.dstBase, OffsetAt(c, GetGpr(s.gpr, RDI, c.addressSize), DeltaOf(op, s), k)), op.size)
  }

  function DeltaOf(op: StringOp, s: Cpu): int { if s.direction then -(op.size as int) else op.size }

  // REPNE SCAS stops right after the first element equal to the accumulator, with ZF set, or compares all of them,
  // with ZF set exactly when the last one is equal. RCX says how many it compared.
  lemma {:induction false} ScasFindsFirst(op: StringOp, c: Context, s: Cpu, count: u64) returns (n: nat)
    requires op.kind.Scas? && op.rep.WhileNotEqual? && 0 < count < Range(c.addressSize)
    ensures var l, acc := Uncapped(op, c, s, count), GetGpr(s.gpr, RAX, op.size);
            l.ending.Finished? ==>
              && 1 <= n <= count && GetGpr(l.cpu.gpr, RCX, c.addressSize) == count - n
              && l.cpu.memory == s.memory
              && (forall k :: 0 <= k < n - 1 ==> ElementAt(op, c, s, k) != acc)
              && (l.cpu.flags.zero <==> ElementAt(op, c, s, n - 1) == acc)
              && (n < count ==> l.cpu.flags.zero)
    decreases count
  {
    hide Range, LoadOr0, Linear, Has, Uncapped, Iterate, Subtracted, OffsetAt;
    var it := Iterate(op, c, s);
    var next := Counted(it.cpu, c, count - 1);
    n := 1;
    UncappedStep(op, c, s, count);
    ScasStep(op, c, s, count);
    CountReadBack(it.cpu, c, count - 1);
    OffsetSteps(c, GetGpr(s.gpr, RDI, c.addressSize), DeltaOf(op, s), 0);
    if !it.fault && !next.flags.zero && count > 1 {
      var more := ScasFindsFirst(op, c, next, count - 1);
      n := more + 1;
      forall k: nat ensures ElementAt(op, c, next, k) == ElementAt(op, c, s, k + 1) {
        OffsetSteps(c, GetGpr(s.gpr, RDI, c.addressSize), DeltaOf(op, s), k + 1);
      }
      forall k | 0 <= k < n - 1 && Uncapped(op, c, s, count).ending.Finished?
        ensures ElementAt(op, c, s, k) != GetGpr(s.gpr, RAX, op.size)
      {
        if k > 0 {
          assert ElementAt(op, c, s, (k - 1) + 1) == ElementAt(op, c, next, k - 1);
        }
      }
    } else if !it.fault && !next.flags.zero {
      UncappedDone(op, c, next);
    }
  }

  lemma OffsetSteps(c: Context, offset: u64, delta: int, k: nat)
    ensures OffsetAt(c, offset, delta, k) ==
            if k == 0 then offset else OffsetAt(c, Masked(Wrap(offset + delta), c.addressSize), delta, k - 1)
  {
  }

  lemma {:induction false} UncappedDone(op: StringOp, c: Context, s: Cpu)
    ensures Uncapped(op, c, s, 0) == Looped(s, Finished)
  {
  }

  lemma UncappedStep(op: StringOp, c: Context, s: Cpu, count: u64)
    requires count > 0 && op.kind.Scas? && op.rep.WhileNotEqual?
    ensures var it := Iterate(op, c, s);
            var next := Counted(it.cpu, c, count - 1);
            Uncapped(op, c, s, count) == if it.fault then Looped(it.cpu, Faulted)
                                         else if next.flags.zero then Looped(next, Finished)
                                         else Uncapped(op, c, next, count - 1)
  {
  }

  // One comparison of a scan.
  lemma ScasStep(op: StringOp, c: Context, s: Cpu, count: u64)
    requires op.kind.Scas? && 0 < count < Range(c.addressSize)
    ensures var next := Counted(Iterate(op, c, s).cpu, c, count - 1);
            && next.memory == s.memory && next.direction == s.direction
            && next.gpr[RAX] == s.gpr[RAX]
            && GetGpr(next.gpr, RDI, c.addressSize) ==
               Masked(Wrap(GetGpr(s.gpr, RDI, c.addressSize) + DeltaOf(op, s)), c.addressSize)
            && (next.flags.zero <==> ElementAt(op, c, s, 0) == GetGpr(s.gpr, RAX, op.size))
  {
    hide Range, LoadOr0, Linear, Has, SetGpr, EvenParity, SignExtended, Fits;
    var d := Linear(c, c.dstBase, GetGpr(s.gpr, RDI, c.addressSize));
    var v := LoadOr0(s.memory, d, op.size);
    var moved := Wrap(GetGpr(s.gpr, RDI, c.addressSize) + DeltaOf(op, s));
    LoadWithin(s.memory, d, op.size);
    EqualExactly(s.gpr[RAX], v, op.size);
    SetThenGet(s.gpr, RDI, c.addressSize, moved, RCX, count - 1);
    assert OffsetAt(c, GetGpr(s.gpr, RDI, c.addressSize), DeltaOf(op, s), 0) == GetGpr(s.gpr, RDI, c.addressSize);
  }

  lemma SetThenGet(g: Gprs, i: nat, w: Width, v: u64, j: nat, u: u64)
    requires i < 16 && 0 < j < 16 && 0 < i && i != j
    ensures var h := SetGpr(SetGpr(g, i, w, v), j, w, u); GetGpr(h, i, w) == Masked(v, w) && h[0] == g[0]
  {
    if w < 4 {
      MaskedWithin(v, w);
      ReadBack(g[i], Masked(v, w), w);
    }
    MaskedWithin(v, w);
  }

  lemma MaskedWithin(v: u64, w: Width)
    ensures Masked(v, w) < Range(w) && Masked(Masked(v, w), w) == Masked(v, w)
  {
  }

  lemma LoadWithin(m: Bytemap, a: u64, w: Width)
    ensures LoadOr0(m, a, w) < Range(w)
  {
    if Has(m, a, w) {
      ToFromBytes(Fetch(m, a, w));
      Pow256Values();
    }
  }

  lemma EqualExactly(a: u64, v: u64, w: Width)
    requires v < Range(w)
    ensures Subtracted(Masked(a, w), v, false, w).flags.zero <==> v == Masked(a, w)
  {
    hide Range, Subtracted;
    MaskedWithin(a, w);
    MaskedWithin(v, w);
    WidthIs(w);
    ZeroOfDifference(Masked(a, w), v, w);
  }

  lemma ZeroOfDifference(a: u64, b: u64, w: Width)
    requires Masked(a, w) == a < Range(w) && Masked(b, w) == b < Range(w)
    ensures Subtracted(a, b, false, w).flags.zero <==> a == b
  {
    hide Range, SignBit, Masked, EvenParity, SignExtended, Fits;
    WrapOnce(a as int - b, Range(w));
  }
}
