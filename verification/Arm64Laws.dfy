// What AArch64 instructions do to the registers, said of the register file, the stack pointer and memory themselves:
// loads, write-back and branches.

module Arm64Laws {
  import opened MachineTypes
  import opened FlatMemory
  import opened Arm64Spec
  import opened Arm64Cache

  const LOW: int := 0x1_0000_0000

  // What a load of n bytes at a puts into a register: the little-endian value, or 0 where a byte is missing.
  ghost function Loaded(m: Bytemap, a: int, n: nat, wide: bool): int {
    if !Has(m, a, n) then 0 else if wide then Load(m, a, n) else Load(m, a, n) % LOW
  }

  // Two register files that agree except for the program counter.
  predicate SameButPc(r: Registers, t: Registers) { t.(pc := r.pc) == r }

  // ---- single loads and stores ----

  // A load changes its register and the program counter and nothing else; where a byte is missing it is a fault, the
  // register is 0 and the program counter stays.
  lemma LoadLaw(op: Op, at: u64, s: Cpu)
    requires op.LoadStore? && op.load
    ensures var r, e := s.regs, Execute(op, at, s);
            var a := ((if op.rn == 31 then r.sp else r.gpr[op.rn]) + op.imm) % WORD;
            && e.cpu.memory == s.memory
            && (forall i :: 0 <= i < 32 ==>
                  e.cpu.regs.gpr[i] == if i == op.rd && i != 31 then Loaded(s.memory, a, op.size, op.wide)
                                       else r.gpr[i])
            && SameButPc(r.(gpr := e.cpu.regs.gpr), e.cpu.regs)
            && (if Has(s.memory, a, op.size) then e.result == StepOk && e.cpu.regs.pc == (at + 4) % WORD
                else e.result == StepFault && e.cpu.regs.pc == r.pc)
  {
    hide Load, Has;
    var a := StoreAddress(op, s.regs);
    LoadedIs(s.memory, a, op.size, op.wide);
  }

  lemma LoadedIs(m: Bytemap, a: u64, n: nat, wide: bool)
    requires n <= 8
    ensures Loaded(m, a, n, wide) == if wide then LoadOr0(m, a, n) else LoadOr0(m, a, n) % LOW
  {
    if Has(m, a, n) {
      LoadBound(m, a, n);
    }
  }

  // A store changes no register. It goes to the base plus the offset.
  lemma StoreLaw(op: Op, at: u64, s: Cpu)
    requires op.LoadStore? && !op.load
    ensures var r, e := s.regs, Execute(op, at, s);
            var a := ((if op.rn == 31 then r.sp else r.gpr[op.rn]) + op.imm) % WORD;
            && SameButPc(r, e.cpu.regs)
            && (if Has(s.memory, a, op.size) then
                  && e.result == StepOk && e.cpu.regs.pc == (at + 4) % WORD
                  && e.cpu.memory == Store(s.memory, a, op.size, if op.rd == 31 then 0 else r.gpr[op.rd])
                else e.result == StepFault && e.cpu.regs.pc == r.pc && e.cpu.memory == s.memory)
  {
    hide Store, Has;
  }

  // ---- pairs ----

  // Where a pair is accessed: at the base for post-index, else at the base plus the offset; the second half follows the
  // first, around the end of the address space if need be.
  function BaseOf(op: Op, r: Registers): u64
    requires op.LoadStorePair?
  {
    if op.rn == 31 then r.sp else r.gpr[op.rn]
  }

  function FirstOf(op: Op, r: Registers): u64
    requires op.LoadStorePair?
  {
    if op.mode.PostIndex? then BaseOf(op, r) else (BaseOf(op, r) + op.imm) % WORD
  }

  function SecondOf(op: Op, r: Registers): u64
    requires op.LoadStorePair?
  {
    (FirstOf(op, r) + if op.wide then 8 else 4) % WORD
  }

  lemma WriteRegIs(r: Registers, i: RegisterIndex, v: u64, useSp: bool, wide: bool)
    ensures var t, x := WriteReg(r, i, v, useSp, wide), if wide then v else v % LOW;
            && t.sp == (if i == 31 && useSp then x else r.sp)
            && (forall j :: 0 <= j < 32 ==> t.gpr[j] == if j == i && i != 31 then x else r.gpr[j])
            && t.(gpr := r.gpr, sp := r.sp) == r
  {
  }

  // The registers of a pair: the two loaded, in order, and then the base.
  lemma PairSteps(op: Op, at: u64, s: Cpu)
    requires op.LoadStorePair?
    ensures var r, t, n := s.regs, Execute(op, at, s).cpu.regs, if op.wide then 8 else 4;
            var r1 := if op.load then WriteReg(r, op.rd, LoadOr0(s.memory, FirstOf(op, r), n), false, op.wide) else r;
            var r2 := if op.load then WriteReg(r1, op.rt2, LoadOr0(s.memory, SecondOf(op, r), n), false, op.wide)
                      else r1;
            var r3 := if op.mode.Offset? then r2 else WriteReg(r2, op.rn, (BaseOf(op, r) + op.imm) % WORD, true, true);
            t == r3.(pc := t.pc)
  {
    hide WriteReg, LoadOr0, Has, StoreIf;
  }

  // Pre- and post-index move the base register by the offset, whatever the access does; nothing else that a pair leaves
  // alone changes.
  lemma PairWriteBack(op: Op, at: u64, s: Cpu)
    requires op.LoadStorePair?
    ensures var r, t := s.regs, Execute(op, at, s).cpu.regs;
            && t.sp == (if op.rn == 31 && !op.mode.Offset? then (r.sp + op.imm) % WORD else r.sp)
            && (op.rn != 31 && !op.mode.Offset? ==> t.gpr[op.rn] == (r.gpr[op.rn] + op.imm) % WORD)
            && t.(gpr := r.gpr, sp := r.sp, pc := r.pc) == r
            && (forall i :: 0 <= i < 32 && (i == 31 || (i != op.rn || op.mode.Offset?)) &&
                            (i == 31 || !op.load || (i != op.rd && i != op.rt2)) ==>
                  t.gpr[i] == r.gpr[i])
  {
    hide WriteReg, ReadReg, Has, LoadOr0, StoreIf, Execute;
    PairSteps(op, at, s);
    var r, n := s.regs, if op.wide then 8 else 4;
    var v, w := LoadOr0(s.memory, FirstOf(op, r), n), LoadOr0(s.memory, SecondOf(op, r), n);
    var r1 := if op.load then WriteReg(r, op.rd, v, false, op.wide) else r;
    var r2 := if op.load then WriteReg(r1, op.rt2, w, false, op.wide) else r1;
    WriteRegIs(r, op.rd, v, false, op.wide);
    WriteRegIs(r1, op.rt2, w, false, op.wide);
    WriteRegIs(r2, op.rn, (BaseOf(op, r) + op.imm) % WORD, true, true);
  }

  // A pair load puts the first value into the first register and the second, 4 or 8 bytes further on, into the second;
  // of two names for one register the second counts, and the written-back base last.
  lemma PairLoads(op: Op, at: u64, s: Cpu)
    requires op.LoadStorePair? && op.load
    ensures var r, e, n := s.regs, Execute(op, at, s), if op.wide then 8 else 4;
            var a, b := FirstOf(op, r), SecondOf(op, r);
            && e.cpu.memory == s.memory
            && (op.rt2 != 31 && (op.rt2 != op.rn || op.mode.Offset?) ==>
                  e.cpu.regs.gpr[op.rt2] == Loaded(s.memory, b, n, op.wide))
            && (op.rd != 31 && op.rd != op.rt2 && (op.rd != op.rn || op.mode.Offset?) ==>
                  e.cpu.regs.gpr[op.rd] == Loaded(s.memory, a, n, op.wide))
            && (if Has(s.memory, a, n) && Has(s.memory, b, n) then
                  e.result == StepOk && e.cpu.regs.pc == (at + 4) % WORD
                else e.result == StepFault && e.cpu.regs.pc == r.pc)
  {
    hide Load, Has;
    var n := if op.wide then 8 else 4;
    LoadedIs(s.memory, FirstOf(op, s.regs), n, op.wide);
    LoadedIs(s.memory, SecondOf(op, s.regs), n, op.wide);
  }

  // A pair store puts the first register first, and stores each half on its own.
  lemma PairStores(op: Op, at: u64, s: Cpu)
    requires op.LoadStorePair? && !op.load
    ensures var r, e, n := s.regs, Execute(op, at, s), if op.wide then 8 else 4;
            var a, b := FirstOf(op, r), SecondOf(op, r);
            var first := StoreIf(s.memory, a, n, if op.rd == 31 then 0 else r.gpr[op.rd]);
            && e.cpu.memory == StoreIf(first, b, n, if op.rt2 == 31 then 0 else r.gpr[op.rt2])
            && (if Has(s.memory, a, n) && Has(s.memory, b, n) then
                  e.result == StepOk && e.cpu.regs.pc == (at + 4) % WORD
                else e.result == StepFault && e.cpu.regs.pc == r.pc)
  {
    hide Has, StoreIf;
  }

  // What a pair store saves, a pair load from the same place brings back into any two other registers, whatever the
  // other registers hold by then.
  lemma SavedIsRestored(save: Op, at: u64, s: Cpu, restore: Op, at': u64, r': Registers)
    requires save.LoadStorePair? && !save.load && restore.LoadStorePair? && restore.load && save.wide == restore.wide
    requires var a, n := FirstOf(save, s.regs), if save.wide then 8 else 4;
             a + 2 * n <= WORD && Has(s.memory, a, 2 * n) && FirstOf(restore, r') == a
    requires save.rd != 31 && save.rt2 != 31 && restore.rd != 31 && restore.rt2 != 31 && restore.rd != restore.rt2
    requires restore.mode.Offset? || (restore.rn != restore.rd && restore.rn != restore.rt2)
    ensures var t := Execute(restore, at', Cpu(r', Execute(save, at, s).cpu.memory));
            && t.result == StepOk
            && t.cpu.regs.gpr[restore.rd] == (if save.wide then s.regs.gpr[save.rd] else s.regs.gpr[save.rd] % LOW)
            && t.cpu.regs.gpr[restore.rt2] == (if save.wide then s.regs.gpr[save.rt2] else s.regs.gpr[save.rt2] % LOW)
  {
    hide Execute, Load, Store, Has;
    var n := if save.wide then 8 else 4;
    var a := FirstOf(save, s.regs);
    var v, w := s.regs.gpr[save.rd], s.regs.gpr[save.rt2];
    PairStores(save, at, s);
    TwoHalves(s.memory, a, n, v, w);
    var m := Execute(save, at, s).cpu.memory;
    PairLoads(restore, at', Cpu(r', m));
  }

  // Two neighbouring stores, and what is read back from each.
  lemma TwoHalves(m: Bytemap, a: u64, n: nat, v: u64, w: u64)
    requires (n == 4 || n == 8) && a + 2 * n <= WORD && Has(m, a, 2 * n)
    ensures a + n < WORD
    ensures var k := StoreIf(StoreIf(m, a, n, v), a + n, n, w);
            && Has(k, a, n) && Has(k, a + n, n)
            && Load(k, a, n) == (if n == 8 then v else v % LOW) && Load(k, a + n, n) == (if n == 8 then w else w % LOW)
  {
    hide Load, Store;
    HalvesThere(m, a, n);
    Pow256Values();
    StoreCut(m, a, n, v);
    var k1 := Store(m, a, n, v);
    StoreShapes(m, a, n, v);
    StoreCut(k1, a + n, n, w);
    StoreShapes(k1, a + n, n, w);
    LoadApart(k1, a + n, n, w, a, n);
  }

  lemma HalvesThere(m: Bytemap, a: int, n: nat)
    requires Has(m, a, 2 * n)
    ensures Has(m, a, n) && Has(m, a + n, n)
  {
  }

  lemma StoreShapes(m: Bytemap, a: int, n: nat, v: nat)
    ensures forall b, k :: Has(Store(m, a, n, v), b, k) == Has(m, b, k)
  {
    assert forall x :: x in Store(m, a, n, v) <==> x in m;
  }

  // A narrow store keeps the low half.
  lemma StoreCut(m: Bytemap, a: int, n: nat, v: u64)
    requires (n == 4 || n == 8) && Has(m, a, n)
    ensures Has(Store(m, a, n, v), a, n)
    ensures Load(Store(m, a, n, v), a, n) == if n == 8 then v else v % LOW
  {
    Pow256Values();
    if n == 8 {
      LoadStored(m, a, n, v);
    } else {
      ToBytesCut(v, 4);
      LoadStored(m, a, n, v % LOW);
    }
  }

  // ---- control flow ----

  // Branches go to their target and a link register is set to the instruction after; nothing else changes. A branch to
  // a register reads it before linking, and the discarded register reads as 0.
  lemma BranchLaw(at: u64, s: Cpu, target: u64, rn: RegisterIndex)
    ensures var r, next := s.regs, (at + 4) % WORD;
            && Execute(Branch(target), at, s) == Executed(s.(regs := r.(pc := target)), StepOk)
            && Execute(BranchLink(target), at, s) ==
                 Executed(s.(regs := r.(pc := target, gpr := r.gpr[30 := next])), StepOk)
            && var to := if rn == 31 then 0 else r.gpr[rn];
               && Execute(BranchRegister(rn), at, s) == Executed(s.(regs := r.(pc := to)), StepOk)
               && Execute(BranchLinkRegister(rn), at, s) ==
                    Executed(s.(regs := r.(pc := to, gpr := r.gpr[30 := next])), StepOk)
  {
  }

  // A call comes back: after BL, a RET through an unchanged x30 goes on right after the call.
  lemma CallReturns(at: u64, s: Cpu, target: u64, at': u64, s': Cpu)
    requires s'.regs.gpr[30] == Execute(BranchLink(target), at, s).cpu.regs.gpr[30]
    ensures Execute(Return(30), at', s').cpu.regs.pc == (at + 4) % WORD
  {
  }

  // RET goes where its register points, except that RET X0 goes where x30 points.
  lemma ReturnLaw(at: u64, s: Cpu, rn: RegisterIndex)
    ensures var e := Execute(Return(rn), at, s);
            && e.result == StepOk && SameButPc(s.regs, e.cpu.regs) && e.cpu.memory == s.memory
            && e.cpu.regs.pc == s.regs.gpr[if rn == 0 then 30 else rn]
  {
  }

  // CBZ branches on a register that is zero and CBNZ on one that is not, in all 64 bits; else the next instruction
  // follows.
  lemma CompareAndBranchLaw(at: u64, s: Cpu, nonzero: bool, rd: RegisterIndex, target: u64)
    ensures var e := Execute(BranchZero(nonzero, rd, target), at, s);
            var zero := rd == 31 || s.regs.gpr[rd] == 0;
            && e.result == StepOk && SameButPc(s.regs, e.cpu.regs) && e.cpu.memory == s.memory
            && e.cpu.regs.pc == if zero != nonzero then target else (at + 4) % WORD
  {
  }

  // A conditional branch is taken exactly when its condition holds, which for the codes of single flags is the flag and
  // for the code after each its opposite; 14 and 15 always hold.
  lemma ConditionalBranchLaw(at: u64, s: Cpu, cond: byte, target: u64)
    ensures var e, r := Execute(BranchIf(cond, target), at, s), s.regs;
            && e.result == StepOk && SameButPc(r, e.cpu.regs) && e.cpu.memory == s.memory
            && (e.cpu.regs.pc == target || e.cpu.regs.pc == (at + 4) % WORD)
            && (target != (at + 4) % WORD ==> (e.cpu.regs.pc == target <==> EvalCond(r, cond)))
            && (EvalCond(r, 0) <==> r.zero) && (EvalCond(r, 1) <==> !r.zero)
            && (EvalCond(r, 2) <==> r.carry) && (EvalCond(r, 3) <==> !r.carry)
            && (EvalCond(r, 4) <==> r.negative) && (EvalCond(r, 5) <==> !r.negative)
            && (EvalCond(r, 6) <==> r.overflow) && (EvalCond(r, 7) <==> !r.overflow)
            && EvalCond(r, 14) && EvalCond(r, 15)
  {
  }

  // A register instruction has its effect and goes on; a halt goes on past itself and stops the run; an unknown word
  // changes nothing and stops it.
  lemma OtherLaw(at: u64, s: Cpu, effect: Registers -> Registers)
    ensures Execute(Compute(effect), at, s) == Executed(s.(regs := effect(s.regs).(pc := (at + 4) % WORD)), StepOk)
    ensures Execute(Halt, at, s) == Executed(s.(regs := s.regs.(pc := (at + 4) % WORD)), StepHalt)
    ensures Execute(Unimplemented, at, s) == Executed(s, StepUnimplemented)
  {
  }

  // A store drops the cached instructions that start in the bytes it covers, 16 or 8 for a pair, counted from its
  // address and around the end of the address space; no other instruction drops any.
  lemma DroppedLaw(cache: Cache, op: Op, r: Registers, pc: u64)
    ensures if (op.LoadStore? || op.LoadStorePair?) && !op.load then
              var a := if op.LoadStorePair? then FirstOf(op, r)
                       else ((if op.rn == 31 then r.sp else r.gpr[op.rn]) + op.imm) % WORD;
              var n := if op.LoadStore? then op.size else if op.wide then 16 else 8;
              && (pc in Dropped(cache, op, r) <==> pc in cache && !(a <= pc < (a + n) % WORD))
              && (pc in Dropped(cache, op, r) ==> Dropped(cache, op, r)[pc] == cache[pc])
            else Dropped(cache, op, r) == cache
  {
  }

  // A run visits one state after another, each by one step: all its steps but the last are plain, and it ends before
  // the limit only with one that is not.
  lemma {:induction false} RunLaw(decode: Decoder, s: Cpu, n: nat) returns (states: seq<Cpu>)
    requires n > 0
    ensures var ran := Steps(decode, s, n);
            && 1 <= ran.count <= n && |states| == ran.count + 1 && states[0] == s && states[ran.count] == ran.cpu
            && (forall i :: 0 <= i < ran.count ==> states[i + 1] == StepOnce(decode, states[i]).cpu)
            && (forall i :: 0 <= i < ran.count - 1 ==> StepOnce(decode, states[i]).info.result == StepOk)
            && ran.info == StepOnce(decode, states[ran.count - 1]).info
            && (ran.count < n ==> ran.info.result != StepOk)
    decreases n
  {
    hide StepOnce;
    var one := StepOnce(decode, s);
    if one.info.result.StepOk? && n > 1 {
      var rest := RunLaw(decode, one.cpu, n - 1);
      states := [s] + rest;
    } else {
      states := [s, one.cpu];
    }
  }

  // What a step reports: where it was, how many bytes it fetched and what went wrong. A step that cannot fetch its
  // instruction changes nothing.
  lemma ReportLaw(decode: Decoder, s: Cpu)
    ensures var pc, one := s.regs.pc, StepOnce(decode, s);
            && one.info.address == pc
            && if !Has(s.memory, pc, 4) then one.cpu == s && one.info == StepInfo(StepFault, pc, 0, CannotFetch)
               else
                 var e := Execute(decode(pc, WordAt(s.memory, pc)), pc, s);
                 && one.cpu == e.cpu && one.info.result == e.result && one.info.length == 4
                 && (one.info.comment == AccessViolation <==> e.result == StepFault)
                 && (one.info.comment == NotImplemented <==> e.result == StepUnimplemented)
                 && one.info.comment != CannotFetch
  {
    hide Execute, Has;
  }
}
