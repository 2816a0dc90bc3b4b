// When an op can go stale in the cache, and two programs whose cached runs are not what stepping through them gives.

module Arm64Stale {
  import opened MachineTypes
  import opened FlatMemory
  import opened Bits
  import opened Arm64Spec
  import opened Arm64Cache
  import opened Arm64Decode

  // Executing op leaves a coherent entry for pc stale.
  ghost predicate GoesStale(decode: Decoder, s: Cpu, op: Op, at: u64, pc: u64) {
    && Has(s.memory, pc, 4)
    && var cache: Cache := map[pc := decode(pc, WordAt(s.memory, pc))];
       !Coherent(decode, Dropped(cache, op, s.regs), Execute(op, at, s).cpu.memory)
  }

  // ---- exactly when ----

  lemma WordChanged(m: Bytemap, m': Bytemap, pc: u64, x: int)
    requires Has(m, pc, 4) && Has(m', pc, 4) && pc <= x < pc + 4 && m[x] != m'[x]
    ensures WordAt(m, pc) != WordAt(m', pc)
  {
    FetchAt(m, pc, 4, x - pc);
    FetchAt(m', pc, 4, x - pc);
    ToFromBytes(Fetch(m, pc, 4));
    ToFromBytes(Fetch(m', pc, 4));
  }

  // What an op writes, and the bytes it leaves there, depend on which memory there is and not on what it holds.
  lemma SameWrites(op: Op, s: Cpu, m: Bytemap)
    requires m.Keys == s.memory.Keys
    ensures forall x :: Writes(op, s.(memory := m), x) <==> Writes(op, s, x)
    ensures forall x :: Writes(op, s, x) ==> ByteStored(op, s.(memory := m), x) == ByteStored(op, s, x)
  {
    hide ToBytes, ReadReg, StoreAddress;
    assert forall a, n :: Has(m, a, n) == Has(s.memory, a, n) by {
      assert forall x :: x in m <==> x in s.memory;
    }
  }

  lemma UncoveredGoesStale(op: Op, s: Cpu, at: u64, pc: u64)
    requires Has(s.memory, pc, 4) && !Covered(op, s, pc)
    ensures exists decode: Decoder, m: Bytemap ::
              m.Keys == s.memory.Keys && GoesStale(decode, s.(memory := m), op, at, pc)
  {
    hide Execute, Wrap, ByteStored, StoreAddress, WordAt, Writes;
    var x :| pc <= x < pc + 4 && Writes(op, s, x);
    var m := s.memory[x := if ByteStored(op, s, x) == 0 then 1 else 0];
    assert m.Keys == s.memory.Keys;
    SameWrites(op, s, m);
    var after := Execute(op, at, s.(memory := m)).cpu.memory;
    ExecuteAt(op, at, s.(memory := m), x);
    assert forall y :: y in after <==> y in m;
    WordChanged(m, after, pc, x);
    var w := WordAt(m, pc);
    var decode: Decoder := (p, word) => if word == w then Halt else Unimplemented;
    assert GoesStale(decode, s.(memory := m), op, at, pc);
  }

  lemma CoveredStaysFresh(decode: Decoder, s: Cpu, op: Op, at: u64, pc: u64)
    requires Covered(op, s, pc)
    ensures !GoesStale(decode, s, op, at, pc)
  {
    hide Covered, Execute, Dropped, WordAt;
    if Has(s.memory, pc, 4) {
      CoherenceKept(decode, map[pc := decode(pc, WordAt(s.memory, pc))], op, at, s);
    }
  }

  // In memory of any shape: some program and some contents of it make the op leave pc stale exactly when the op writes
  // into the word at pc without reporting its first byte.
  lemma StaleExactly(op: Op, s: Cpu, at: u64, pc: u64)
    ensures (exists decode: Decoder, m: Bytemap ::
               m.Keys == s.memory.Keys && GoesStale(decode, s.(memory := m), op, at, pc)) <==>
            Has(s.memory, pc, 4) && Touches(op, s, pc) && !Reports(op, s.regs, pc)
  {
    hide GoesStale, Touches, Reports;
    if Has(s.memory, pc, 4) && !Covered(op, s, pc) {
      UncoveredGoesStale(op, s, at, pc);
    } else if exists decode: Decoder, m: Bytemap ::
                m.Keys == s.memory.Keys && GoesStale(decode, s.(memory := m), op, at, pc) {
      var decode: Decoder, m: Bytemap :| m.Keys == s.memory.Keys && GoesStale(decode, s.(memory := m), op, at, pc);
      StaleIsThere(decode, s.(memory := m), op, at, pc);
      SameTouches(op, s, m, pc);
      CoveredStaysFresh(decode, s.(memory := m), op, at, pc);
    }
  }

  lemma StaleIsThere(decode: Decoder, s: Cpu, op: Op, at: u64, pc: u64)
    requires GoesStale(decode, s, op, at, pc)
    ensures Has(s.memory, pc, 4)
  {
  }

  lemma SameTouches(op: Op, s: Cpu, m: Bytemap, pc: u64)
    requires m.Keys == s.memory.Keys
    ensures Has(m, pc, 4) <==> Has(s.memory, pc, 4)
    ensures Touches(op, s.(memory := m), pc) <==> Touches(op, s, pc)
  {
    hide Writes;
    assert forall x :: x in m <==> x in s.memory;
    SameWrites(op, s, m);
  }

  // A stretch of mappable addresses that overlaps the word at pc.
  predicate OverlapsWord(a: int, n: nat, pc: int) { a + n <= LIMIT && a < pc + 4 && pc < a + n }

  // Some part of what the op stores can be mapped and overlaps the word at pc.
  predicate ReachesWord(op: Op, r: Registers, pc: int) {
    && IsStore(op)
    && var a := StoreAddress(op, r);
       if op.LoadStore? then OverlapsWord(a, op.size, pc)
       else OverlapsWord(a, Half(op), pc) || OverlapsWord(Wrap(a + Half(op)), Half(op), pc)
  }

  // The whole pages around [a, b).
  function PagesAround(a: nat, b: nat): Bytemap {
    Zeros(a / PAGE_SIZE * PAGE_SIZE, (b + PAGE_SIZE - 1) / PAGE_SIZE * PAGE_SIZE)
  }

  lemma PagesAreMappable(a: nat, b: nat)
    requires b <= LIMIT
    ensures Mappable(PagesAround(a, b)) && forall x :: a <= x < b ==> x in PagesAround(a, b)
  {
    hide Filled;
  }

  lemma MappableShape(m: Bytemap, m': Bytemap)
    requires m.Keys == m'.Keys && Mappable(m)
    ensures Mappable(m')
  {
    assert forall x :: x in m' <==> x in m;
  }

  // In memory that the manager can map: some program, some pages and some contents make the op leave pc stale exactly
  // when the word at pc lies below the limit, a part of the store that lies below the limit overlaps it, and its first
  // byte is not reported. The part may be the second half of a pair that has wrapped around to address 0.
  lemma StaleInMappedMemory(op: Op, r: Registers, at: u64, pc: u64)
    ensures (exists decode: Decoder, m: Bytemap :: Mappable(m) && GoesStale(decode, Cpu(r, m), op, at, pc)) <==>
            pc + 4 <= LIMIT && ReachesWord(op, r, pc) && !Reports(op, r, pc)
  {
    hide GoesStale, Touches, Reports, ReachesWord, PagesAround, Mappable;
    if pc + 4 <= LIMIT && ReachesWord(op, r, pc) && !Reports(op, r, pc) {
      var m0 := PagesForBoth(op, r, pc);
      StaleExactly(op, Cpu(r, m0), at, pc);
      var decode: Decoder, m: Bytemap :| m.Keys == m0.Keys && GoesStale(decode, Cpu(r, m0).(memory := m), op, at, pc);
      MappableShape(m0, m);
      assert Cpu(r, m0).(memory := m) == Cpu(r, m);
    } else if exists decode: Decoder, m: Bytemap :: Mappable(m) && GoesStale(decode, Cpu(r, m), op, at, pc) {
      var decode: Decoder, m: Bytemap :| Mappable(m) && GoesStale(decode, Cpu(r, m), op, at, pc);
      assert Cpu(r, m).(memory := m) == Cpu(r, m);
      StaleExactly(op, Cpu(r, m), at, pc);
      TouchReaches(op, Cpu(r, m), pc);
    }
  }

  // A few pages that hold the word and the part of the store that overlaps it.
  lemma PagesForBoth(op: Op, r: Registers, pc: u64) returns (m: Bytemap)
    requires pc + 4 <= LIMIT && ReachesWord(op, r, pc)
    ensures Mappable(m) && Has(m, pc, 4) && Touches(op, Cpu(r, m), pc)
  {
    hide PagesAround, StoreAddress, Mappable;
    var a := StoreAddress(op, r);
    var n := if op.LoadStore? then op.size else Half(op);
    var part := if OverlapsWord(a, n, pc) then a else Wrap(a + n);
    m := PagesAround(Min(pc, part), Max(pc + 4, part + n));
    PagesAreMappable(Min(pc, part), Max(pc + 4, part + n));
    assert Writes(op, Cpu(r, m), Max(pc, part));
  }

  lemma TouchReaches(op: Op, s: Cpu, pc: u64)
    requires Mappable(s.memory) && Has(s.memory, pc, 4) && Touches(op, s, pc)
    ensures pc + 4 <= LIMIT && ReachesWord(op, s.regs, pc)
  {
    hide StoreAddress, Mappable, Has;
    HasBelow(s.memory, pc, 4);
    var x :| pc <= x < pc + 4 && Writes(op, s, x);
    var a := StoreAddress(op, s.regs);
    if op.LoadStore? {
      HasBelow(s.memory, a, op.size);
    } else if InHalf(op, s, a, x) {
      HasBelow(s.memory, a, Half(op));
    } else {
      HasBelow(s.memory, Wrap(a + Half(op)), Half(op));
    }
  }

  lemma HasBelow(m: Bytemap, a: int, n: nat)
    requires Mappable(m) && Has(m, a, n) && n > 0
    ensures a + n <= LIMIT
  {
    assert a + n - 1 in m;
  }

  // ---- two programs ----

  const NOP: u32 := 0xD503_201F
  const STRB: u32 := 0x3900_0020    // strb w0, [x1]
  const STP: u32 := 0xA900_0020     // stp x0, x0, [x1]
  const BACK: u32 := 0x17FF_FFFE    // b to two instructions before

  lemma Decoded(pc: u64)
    ensures Decode(pc, NOP) == Compute(Quiet)
    ensures Decode(pc, BACK) == Branch(Wrap(pc as int - 8))
    ensures Decode(pc, 0xD403_201F) == Halt && Decode(pc, 0xD400_0000) == Halt
  {
    hide Pow2;
    SmallPowers();
  }

  lemma DecodedStores(pc: u64)
    ensures Decode(pc, STRB) == LoadStore(false, 0, 1, 0, 1, false)
    ensures Decode(pc, STP) == LoadStorePair(false, 0, 0, 1, 0, Offset, true)
  {
    hide Pow2;
    SmallPowers();
  }

  // Three instructions at the start of a page of zeros.
  function Program(page: u64, w0: u32, w1: u32, w2: u32): Bytemap {
    Store(Store(Store(Zeros(page, page + PAGE_SIZE), page, 4, w0), page + 4, 4, w1), page + 8, 4, w2)
  }

  lemma ProgramWords(page: u64, w0: u32, w1: u32, w2: u32)
    requires page % PAGE_SIZE == 0 && page < LIMIT
    ensures var m := Program(page, w0, w1, w2);
            && Mappable(m) && Has(m, page, PAGE_SIZE)
            && WordAt(m, page) == w0 && WordAt(m, page + 4) == w1 && WordAt(m, page + 8) == w2
  {
    hide Store, Load;
    var m0 := Zeros(page, page + PAGE_SIZE);
    var m1 := Store(m0, page, 4, w0);
    var m2 := Store(m1, page + 4, 4, w1);
    Pow256Values();
    StoreShape(m0, page, 4, w0);
    StoreShape(m1, page + 4, 4, w1);
    StoreShape(m2, page + 8, 4, w2);
    LoadStored(m0, page, 4, w0);
    LoadStored(m1, page + 4, 4, w1);
    LoadStored(m2, page + 8, 4, w2);
    LoadApart(m1, page + 4, 4, w1, page, 4);
    LoadApart(m2, page + 8, 4, w2, page, 4);
    LoadApart(m2, page + 8, 4, w2, page + 4, 4);
    assert m0 == PagesAround(page, page + PAGE_SIZE);
    PagesAreMappable(page, page + PAGE_SIZE);
    MappableShape(m0, Program(page, w0, w1, w2));
  }

  lemma StoreShape(m: Bytemap, a: int, n: nat, v: nat)
    ensures Store(m, a, n, v).Keys == m.Keys
    ensures forall b, k :: Has(Store(m, a, n, v), b, k) == Has(m, b, k)
  {
    assert forall x :: x in Store(m, a, n, v) <==> x in m;
  }

  function CpuAt(pc: u64, x0: u64, x1: u64, m: Bytemap): Cpu {
    var gpr: RegisterFile := seq(32, i => if i == 0 then x0 else if i == 1 then x1 else 0);
    Cpu(Registers(gpr, 0, pc, false, false, false, false), m)
  }

  lemma {:induction false} StepsOn(s: Cpu, n: nat)
    ensures var one := StepOnce(Decode, s);
            one.info.result.StepOk? && n > 0 ==> Steps(Decode, s, n + 1).info == Steps(Decode, one.cpu, n).info
    ensures Steps(Decode, s, 1).info == StepOnce(Decode, s).info
  {
    hide StepOnce, Decode;
  }

  lemma {:induction false} CachedStepsOn(s: Cpu, cache: Cache, n: nat)
    ensures var one := CachedStep(Decode, s, cache);
            one.info.result.StepOk? && n > 0 ==>
              var all, rest := CachedSteps(Decode, s, cache, n + 1), CachedSteps(Decode, one.cpu, one.cache, n);
              all.cpu == rest.cpu && all.cache == rest.cache && all.info == rest.info
    ensures CachedSteps(Decode, s, cache, 1) == CachedStep(Decode, s, cache)
  {
    hide CachedStep, Decode;
  }

  // What a plain and a cached step do where the cache has nothing for the program counter.
  lemma BothStep(s: Cpu, cache: Cache, word: u32)
    requires Has(s.memory, s.regs.pc, 4) && WordAt(s.memory, s.regs.pc) == word && s.regs.pc !in cache
    ensures var pc := s.regs.pc;
            var op := Decode(pc, word);
            var e := Execute(op, pc, s);
            && StepOnce(Decode, s) == Stepped(e.cpu, InfoOf(pc, e.result))
            && CachedStep(Decode, s, cache) ==
                 CachedRan(e.cpu, Dropped(cache[pc := op], op, s.regs), 1, InfoOf(pc, e.result))
  {
    hide Execute, Dropped, Decode, Has, WordAt;
  }

  const CODE: u64 := 0x1_0000

  // A no-op, a branch back to a byte store, and the store of 0xD4 over the top byte of the no-op: it becomes a halt.
  function SelfModifying(): Cpu { CpuAt(CODE + 4, 0xD4, CODE + 7, Program(CODE, STRB, NOP, BACK)) }

  lemma CachedHit(s: Cpu, cache: Cache)
    requires s.regs.pc in cache
    ensures CachedStep(Decode, s, cache).info == InfoOf(s.regs.pc, Execute(cache[s.regs.pc], s.regs.pc, s).result)
  {
  }

  lemma PlainOps(pc: u64, s: Cpu, cache: Cache, target: u64)
    ensures Execute(Compute(Quiet), pc, s) == Executed(s.(regs := s.regs.(pc := Wrap(pc + 4))), StepOk)
    ensures Execute(Branch(target), pc, s) == Executed(s.(regs := s.regs.(pc := target)), StepOk)
    ensures Execute(Halt, pc, s).result == StepHalt
    ensures Dropped(cache, Compute(Quiet), s.regs) == Dropped(cache, Branch(target), s.regs) == cache
  {
  }

  lemma ByteStoreOp(pc: u64, s: Cpu, cache: Cache)
    requires Has(s.memory, s.regs.gpr[1], 1) && s.regs.gpr[1] < LIMIT
    ensures var op := LoadStore(false, 0, 1, 0, 1, false);
            && Execute(op, pc, s) ==
                 Executed(Cpu(s.regs.(pc := Wrap(pc + 4)), Store(s.memory, s.regs.gpr[1], 1, s.regs.gpr[0])), StepOk)
            && forall at :: at in cache && at != s.regs.gpr[1] ==>
                 at in Dropped(cache, op, s.regs) && Dropped(cache, op, s.regs)[at] == cache[at]
  {
  }

  // 0xD4 over the top byte of a no-op makes it halt.
  lemma HaltWritten(m: Bytemap, pc: u64)
    requires Has(m, pc, 4) && WordAt(m, pc) == NOP
    ensures var m' := Store(m, pc + 3, 1, 0xD4); Has(m', pc, 4) && WordAt(m', pc) == 0xD403_201F
  {
    hide Load, Store, Fetch;
    var m' := Store(m, pc + 3, 1, 0xD4);
    StoreShape(m, pc + 3, 1, 0xD4);
    Pow256Values();
    assert Pow256(3) == 0x100_0000;
    LoadStored(m, pc + 3, 1, 0xD4);
    LoadApart(m, pc + 3, 1, 0xD4, pc, 3);
    LoadAssembled(m, pc, 3, 1);
    LoadAssembled(m', pc, 3, 1);
    LoadLess(m, pc, 3);
    LoadLess(m, pc + 3, 1);
  }

  lemma {:induction false} LoadLess(m: Bytemap, a: int, n: nat)
    requires Has(m, a, n)
    ensures Load(m, a, n) < Pow256(n)
  {
    ToFromBytes(Fetch(m, a, n));
  }

  // From an empty cache, the fourth instruction of the run is the old no-op. Stepping, it is the halt.
  lemma ByteStoreDiverges()
    ensures Steps(Decode, SelfModifying(), 4).info == StepInfo(StepHalt, CODE + 4, 4, NoComment)
    ensures CachedSteps(Decode, SelfModifying(), map[], 4).info == StepInfo(StepOk, CODE + 4, 4, NoComment)
  {
    hide Decode, Execute, Dropped, WordAt, Program, Has, Steps, CachedSteps, StepOnce, CachedStep, Store;
    var m := Program(CODE, STRB, NOP, BACK);
    ProgramWords(CODE, STRB, NOP, BACK);
    PartsOfPage(m, CODE);
    HaltWritten(m, CODE + 4);
    var m' := Store(m, CODE + 7, 1, 0xD4);
    var s0, s1, s2 :=
      CpuAt(CODE + 4, 0xD4, CODE + 7, m), CpuAt(CODE + 8, 0xD4, CODE + 7, m), CpuAt(CODE, 0xD4, CODE + 7, m);
    var s3 := CpuAt(CODE + 4, 0xD4, CODE + 7, m');
    var nop, back, strb := Compute(Quiet), Branch(CODE), LoadStore(false, 0, 1, 0, 1, false);
    Decoded(CODE + 4);
    Decoded(CODE + 8);
    DecodedStores(CODE);
    var c1: Cache := map[CODE + 4 := nop];
    var c2: Cache := c1[CODE + 8 := back];
    var c3 := Dropped(c2[CODE := strb], strb, s2.regs);
    PlainOps(CODE + 4, s0, c1, CODE);
    PlainOps(CODE + 8, s1, c2, CODE);
    PlainOps(CODE + 4, s3, c3, CODE);
    ByteStoreOp(CODE, s2, c2[CODE := strb]);
    BothStep(s0, map[], NOP);
    BothStep(s1, c1, BACK);
    BothStep(s2, c2, STRB);
    BothStep(s3, map[], 0xD403_201F);
    CachedHit(s3, c3);
    StepsOn(s0, 3); StepsOn(s1, 2); StepsOn(s2, 1); StepsOn(s3, 1);
    CachedStepsOn(s0, map[], 3); CachedStepsOn(s1, c1, 2); CachedStepsOn(s2, c2, 1); CachedStepsOn(s3, c3, 1);
  }

  lemma PartsOfPage(m: Bytemap, page: u64)
    requires Has(m, page, PAGE_SIZE)
    ensures forall a, n :: page <= a && a + n <= page + PAGE_SIZE ==> Has(m, a, n)
  {
  }

  const TOP: u64 := 0xFFFF_FFFF_FFFF_FFF8

  // Two no-ops, and a pair stored to the last eight bytes there are and, wrapping around, over the no-ops.
  function PairStorer(): Cpu { CpuAt(0, 0xD400_0000, TOP, Program(0, NOP, NOP, STP)) }

  // A pair store whose first half finds no memory still performs the second, which it does not report.
  lemma PairStoreOp(pc: u64, s: Cpu, cache: Cache)
    requires s.regs.gpr[1] == TOP && !Has(s.memory, TOP, 8) && Has(s.memory, 0, 8)
    ensures var op := LoadStorePair(false, 0, 0, 1, 0, Offset, true);
            && Execute(op, pc, s) == Executed(s.(memory := Store(s.memory, 0, 8, s.regs.gpr[0])), StepFault)
            && forall at ::
                 at in cache && at < 8 ==>
                   at in Dropped(cache, op, s.regs) && Dropped(cache, op, s.regs)[at] == cache[at]
  {
    hide Has, Store;
  }

  lemma HaltStored(m: Bytemap)
    requires Has(m, 0, 8)
    ensures var m' := Store(m, 0, 8, 0xD400_0000); Has(m', 0, 4) && WordAt(m', 0) == 0xD400_0000
  {
    hide Load, Store, Fetch;
    var m' := Store(m, 0, 8, 0xD400_0000);
    StoreShape(m, 0, 8, 0xD400_0000);
    PartsOf8(m');
    Pow256Values();
    LoadStored(m, 0, 8, 0xD400_0000);
    LoadAssembled(m', 0, 4, 4);
    LoadLess(m', 0, 4);
  }

  lemma PartsOf8(m: Bytemap)
    requires Has(m, 0, 8)
    ensures Has(m, 0, 4)
  {
  }

  // The run stops with the pair's fault, and its cache still has the old no-op: resumed at 0 it executes it, where
  // stepping halts.
  lemma WrappedPairDiverges()
    ensures var ran := CachedSteps(Decode, PairStorer(), map[], 3);
            var resumed := ran.cpu.(regs := ran.cpu.regs.(pc := 0));
            && ran.info == StepInfo(StepFault, 8, 4, AccessViolation)
            && StepOnce(Decode, resumed).info.result == StepHalt
            && CachedStep(Decode, resumed, ran.cache).info.result == StepOk
  {
    hide Decode, Execute, Dropped, WordAt, Program, Has, CachedSteps, StepOnce, CachedStep, Store;
    var m := Program(0, NOP, NOP, STP);
    ProgramWords(0, NOP, NOP, STP);
    PartsOfPage(m, 0);
    HaltStored(m);
    if Has(m, TOP, 8) {
      HasBelow(m, TOP, 8);
    }
    var m' := Store(m, 0, 8, 0xD400_0000);
    var s0, s1, s2 := CpuAt(0, 0xD400_0000, TOP, m), CpuAt(4, 0xD400_0000, TOP, m), CpuAt(8, 0xD400_0000, TOP, m);
    var s3 := CpuAt(0, 0xD400_0000, TOP, m');
    var nop, stp := Compute(Quiet), LoadStorePair(false, 0, 0, 1, 0, Offset, true);
    Decoded(0);
    Decoded(4);
    DecodedStores(8);
    var c1: Cache := map[0 := nop];
    var c2: Cache := c1[4 := nop];
    var c3 := Dropped(c2[8 := stp], stp, s2.regs);
    PlainOps(0, s0, c1, 0);
    PlainOps(4, s1, c2, 0);
    PlainOps(0, s3, c3, 0);
    PairStoreOp(8, s2, c2[8 := stp]);
    BothStep(s0, map[], NOP);
    BothStep(s1, c1, NOP);
    BothStep(s2, c2, STP);
    BothStep(s3, map[], 0xD400_0000);
    CachedHit(s3, c3);
    CachedStepsOn(s0, map[], 2); CachedStepsOn(s1, c1, 1); CachedStepsOn(s2, c2, 1);
  }
}
