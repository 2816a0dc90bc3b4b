// Running from the op cache against plain stepping: when the guest's own stores leave the cache coherent, and what
// a cached run then is.

module Arm64Cache {
  import opened MachineTypes
  import opened FlatMemory
  import opened Arm64Spec

  type Cache = map<u64, Op>

  // Every cached op is what decoding current memory would give.
  ghost predicate Coherent(decode: Decoder, cache: Cache, m: Bytemap) {
    forall pc :: pc in cache ==> Has(m, pc, 4) && cache[pc] == decode(pc, WordAt(m, pc))
  }

  predicate IsStore(op: Op) { (op.LoadStore? || op.LoadStorePair?) && !op.load }

  // What a store reports as written: a range whose end may wrap around.
  function NotedSize(op: Op): nat
    requires IsStore(op)
  {
    if op.LoadStore? then op.size else 2 * Half(op)
  }

  function Without(cache: Cache, from: u64, to: u64): Cache {
    map pc | pc in cache && !(from <= pc < to) :: cache[pc]
  }

  function Dropped(cache: Cache, op: Op, r: Registers): Cache {
    if IsStore(op) then Without(cache, StoreAddress(op, r), Wrap(StoreAddress(op, r) + NotedSize(op))) else cache
  }

  // The op stores to address x: memory is there for the store, or for the half of a pair, that covers it.
  ghost predicate Writes(op: Op, s: Cpu, x: int) {
    && IsStore(op)
    && var a := StoreAddress(op, s.regs);
       if op.LoadStore? then a <= x < a + op.size && Has(s.memory, a, op.size)
       else InHalf(op, s, a, x) || InHalf(op, s, Wrap(a + Half(op)), x)
  }

  ghost predicate InHalf(op: Op, s: Cpu, a: int, x: int)
    requires op.LoadStorePair?
  {
    a <= x < a + Half(op) && Has(s.memory, a, Half(op))
  }

  // The op writes into the instruction word at pc.
  ghost predicate Touches(op: Op, s: Cpu, pc: int) { exists x :: pc <= x < pc + 4 && Writes(op, s, x) }

  // The op reports the first byte of the word at pc as written.
  predicate Reports(op: Op, r: Registers, pc: int) {
    IsStore(op) && StoreAddress(op, r) <= pc < Wrap(StoreAddress(op, r) + NotedSize(op))
  }

  // Touching the word means reporting its first byte.
  ghost predicate Covered(op: Op, s: Cpu, pc: int) { Touches(op, s, pc) ==> Reports(op, s.regs, pc) }

  ghost predicate KeepsCache(cache: Cache, op: Op, s: Cpu) {
    forall pc :: pc in cache ==> Covered(op, s, pc)
  }

  // ---- what an instruction leaves of memory ----

  // The byte that a store leaves at an address it writes.
  ghost function ByteStored(op: Op, s: Cpu, x: int): byte
    requires Writes(op, s, x)
  {
    var a := StoreAddress(op, s.regs);
    if op.LoadStore? then ToBytes(ReadReg(s.regs, op.rd, false), op.size)[x - a]
    else
      var a2 := Wrap(a + Half(op));
      if InHalf(op, s, a2, x) then ToBytes(ReadReg(s.regs, op.rt2, false), Half(op))[x - a2]
      else ToBytes(ReadReg(s.regs, op.rd, false), Half(op))[x - a]
  }

  lemma {:induction false} StoreIfAt(m: Bytemap, a: u64, n: nat, v: u64, x: int)
    ensures var after := StoreIf(m, a, n, v);
            && after.Keys == m.Keys && (forall b, k :: Has(after, b, k) == Has(m, b, k))
            && (x in m ==>
                  x in after && after[x] == if a <= x < a + n && Has(m, a, n) then ToBytes(v, n)[x - a] else m[x])
  {
    assert forall y :: y in StoreIf(m, a, n, v) <==> y in m;
  }

  // An instruction changes exactly the bytes it writes.
  lemma ExecuteAt(op: Op, at: u64, s: Cpu, x: int)
    requires x in s.memory
    ensures var after := Execute(op, at, s).cpu.memory;
            && after.Keys == s.memory.Keys && x in after
            && after[x] == if Writes(op, s, x) then ByteStored(op, s, x) else s.memory[x]
  {
    hide ReadReg, WriteReg, LoadOr0, StoreIf, EvalCond, Has, Wrap, ToBytes;
    if IsStore(op) {
      var a, v := StoreAddress(op, s.regs), ReadReg(s.regs, op.rd, false);
      if op.LoadStore? {
        StoreIfAt(s.memory, a, op.size, v, x);
      } else {
        var first := StoreIf(s.memory, a, Half(op), v);
        StoreIfAt(s.memory, a, Half(op), v, x);
        StoreIfAt(first, Wrap(a + Half(op)), Half(op), ReadReg(s.regs, op.rt2, false), x);
      }
    }
  }

  lemma ExecuteSame(op: Op, at: u64, s: Cpu, pc: u64)
    requires Has(s.memory, pc, 4) && !Touches(op, s, pc)
    ensures var m := Execute(op, at, s).cpu.memory; Has(m, pc, 4) && WordAt(m, pc) == WordAt(s.memory, pc)
  {
    hide Execute, Writes;
    var m := Execute(op, at, s).cpu.memory;
    forall x | pc <= x < pc + 4 ensures x in m && m[x] == s.memory[x] {
      ExecuteAt(op, at, s, x);
    }
    FetchFrame(s.memory, m, pc, 4);
  }

  lemma CoherenceKept(decode: Decoder, cache: Cache, op: Op, at: u64, s: Cpu)
    requires Coherent(decode, cache, s.memory) && KeepsCache(cache, op, s)
    ensures Coherent(decode, Dropped(cache, op, s.regs), Execute(op, at, s).cpu.memory)
  {
    hide Execute, Wrap, Touches;
    var after := Execute(op, at, s).cpu.memory;
    forall pc | pc in Dropped(cache, op, s.regs)
      ensures Has(after, pc, 4) && cache[pc] == decode(pc, WordAt(after, pc))
    {
      assert Covered(op, s, pc);
      ExecuteSame(op, at, s, pc);
    }
  }

  // ---- cached runs ----

  datatype CachedRan = CachedRan(cpu: Cpu, cache: Cache, count: nat, info: StepInfo)

  // One turn of the run loop: find or decode, execute, drop what the op reported as written.
  ghost function CachedStep(decode: Decoder, s: Cpu, cache: Cache): CachedRan {
    var pc := s.regs.pc;
    if pc !in cache && !Has(s.memory, pc, 4) then CachedRan(s, cache, 1, StepInfo(StepFault, pc, 0, CannotFetch))
    else
      var found := if pc in cache then cache else cache[pc := decode(pc, WordAt(s.memory, pc))];
      var e := Execute(found[pc], pc, s);
      CachedRan(e.cpu, Dropped(found, found[pc], s.regs), 1, InfoOf(pc, e.result))
  }

  ghost function CachedSteps(decode: Decoder, s: Cpu, cache: Cache, n: nat): CachedRan
    requires n > 0
    decreases n
  {
    var one := CachedStep(decode, s, cache);
    if one.info.result.StepOk? && n > 1 then
      var rest := CachedSteps(decode, one.cpu, one.cache, n - 1);
      rest.(count := rest.count + 1)
    else one
  }

  // Along up to n plain steps, every store that touches a cached instruction word reports that word's first byte.
  ghost predicate Clean(decode: Decoder, s: Cpu, cache: Cache, n: nat)
    decreases n
  {
    var pc := s.regs.pc;
    n > 0 && Has(s.memory, pc, 4) ==>
      var op := decode(pc, WordAt(s.memory, pc));
      && KeepsCache(cache[pc := op], op, s)
      && Clean(decode, Execute(op, pc, s).cpu, Dropped(cache[pc := op], op, s.regs), n - 1)
  }

  lemma {:induction false} CachedStepIsStep(decode: Decoder, s: Cpu, cache: Cache)
    requires Coherent(decode, cache, s.memory) && Clean(decode, s, cache, 1)
    ensures var c, one := CachedStep(decode, s, cache), StepOnce(decode, s);
            && c.cpu == one.cpu && c.info == one.info && Coherent(decode, c.cache, c.cpu.memory)
            && (Has(s.memory, s.regs.pc, 4) ==>
                  var op := decode(s.regs.pc, WordAt(s.memory, s.regs.pc));
                  c.cache == Dropped(cache[s.regs.pc := op], op, s.regs) && one.cpu == Execute(op, s.regs.pc, s).cpu)
  {
    hide Execute, Dropped, KeepsCache, Has;
    var pc := s.regs.pc;
    if Has(s.memory, pc, 4) {
      var op := decode(pc, WordAt(s.memory, pc));
      assert pc in cache ==> cache[pc := op] == cache;
      CoherenceKept(decode, cache[pc := op], op, pc, s);
    }
  }

  // From a coherent cache, a clean cached run is the plain run: same registers, memory, count and final result. It
  // leaves the cache coherent.
  lemma {:induction false} CachedRunIsSteps(decode: Decoder, s: Cpu, cache: Cache, n: nat)
    requires n > 0 && Coherent(decode, cache, s.memory) && Clean(decode, s, cache, n)
    ensures var c := CachedSteps(decode, s, cache, n);
            Ran(c.cpu, c.count, c.info) == Steps(decode, s, n) && Coherent(decode, c.cache, c.cpu.memory)
    decreases n
  {
    hide Execute, Dropped, KeepsCache, Coherent, Has;
    assert Clean(decode, s, cache, 1);
    CachedStepIsStep(decode, s, cache);
    var c := CachedStep(decode, s, cache);
    if c.info.result.StepOk? && n > 1 {
      CachedRunIsSteps(decode, c.cpu, c.cache, n - 1);
    }
  }

  // A word, doubleword or pair store that is aligned and does not wrap around.
  predicate AlignedStore(op: Op, r: Registers) {
    IsStore(op) ==>
      && (op.LoadStore? ==> op.size >= 4) && StoreAddress(op, r) % 4 == 0
      && StoreAddress(op, r) + NotedSize(op) < 0x1_0000_0000_0000_0000
  }

  // Such a store reports every aligned instruction that it touches.
  lemma AlignedStoresCover(op: Op, s: Cpu, pc: u64)
    requires AlignedStore(op, s.regs) && pc % 4 == 0
    ensures Covered(op, s, pc)
  {
  }

  // Along up to n plain steps, instructions are aligned and so is every store, which is of a word or more.
  ghost predicate AlignedRun(decode: Decoder, s: Cpu, n: nat)
    decreases n
  {
    var pc := s.regs.pc;
    n > 0 && Has(s.memory, pc, 4) ==>
      var op := decode(pc, WordAt(s.memory, pc));
      pc % 4 == 0 && AlignedStore(op, s.regs) && AlignedRun(decode, Execute(op, pc, s).cpu, n - 1)
  }

  // Such a run is clean for any cache of aligned instructions, so running it and stepping through it agree.
  lemma {:induction false} AlignedRunIsClean(decode: Decoder, s: Cpu, cache: Cache, n: nat)
    requires AlignedRun(decode, s, n) && forall pc :: pc in cache ==> pc % 4 == 0
    ensures Clean(decode, s, cache, n)
    decreases n
  {
    hide Execute, Has, WordAt;
    var pc := s.regs.pc;
    if n > 0 && Has(s.memory, pc, 4) {
      var op := decode(pc, WordAt(s.memory, pc));
      forall at | at in cache[pc := op] ensures Covered(op, s, at) {
        AlignedStoresCover(op, s, at);
      }
      AlignedRunIsClean(decode, Execute(op, pc, s).cpu, Dropped(cache[pc := op], op, s.regs), n - 1);
    }
  }
}
