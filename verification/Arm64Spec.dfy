// AArch64 execution as a function of registers and memory. Decoding is a parameter, and an instruction that only
// works on registers is whatever function of them its decoder says; loads, stores and branches are spelled out,
// because they are what run-time code modification and the op cache are about.

module Arm64Spec {
  import opened MachineTypes
  import opened FlatMemory

  const SP: nat := 31
  const LINK: nat := 30

  type RegisterFile = s: seq<u64> | |s| == 32 witness seq(32, _ => 0)
  type RegisterIndex = n: nat | n < 32

  datatype Registers = Registers(gpr: RegisterFile, sp: u64, pc: u64, negative: bool, zero: bool, carry: bool,
                                 overflow: bool)

  datatype Cpu = Cpu(regs: Registers, memory: Bytemap)

  datatype IndexMode = Offset | PostIndex | PreIndex

  datatype Op =
    | Compute(effect: Registers -> Registers)
    | LoadStore(load: bool, rd: RegisterIndex, rn: RegisterIndex, imm: int, size: Width, wide: bool)
    | LoadStorePair(load: bool, rd: RegisterIndex, rt2: RegisterIndex, rn: RegisterIndex, imm: int, mode: IndexMode,
                    wide: bool)
    | Branch(target: u64)
    | BranchLink(target: u64)
    | BranchIf(cond: byte, target: u64)
    | BranchZero(nonzero: bool, rd: RegisterIndex, target: u64)
    | BranchRegister(rn: RegisterIndex)
    | BranchLinkRegister(rn: RegisterIndex)
    | Return(rn: RegisterIndex)
    | Halt
    | Unimplemented

  type Decoder = (u64, u32) -> Op

  datatype StepResult = StepOk | StepHalt | StepUnimplemented | StepFault
  datatype Comment = NoComment | CannotFetch | NotImplemented | AccessViolation
  datatype StepInfo = StepInfo(result: StepResult, address: u64, length: nat, comment: Comment)

  function ReadReg(r: Registers, index: RegisterIndex, useSp: bool): u64 {
    if index == SP then (if useSp then r.sp else 0) else r.gpr[index]
  }

  // A 32-bit write clears the upper half; index 31 is the stack pointer or the discarded zero register.
  function WriteReg(r: Registers, index: RegisterIndex, value: u64, useSp: bool, wide: bool): Registers {
    var v := if wide then value else value % 0x1_0000_0000;
    if index == SP then (if useSp then r.(sp := v) else r)
    else r.(gpr := r.gpr[index := v])
  }

  function EvalCond(r: Registers, cond: byte): bool {
    var base := match cond / 2
                case 0 => r.zero
                case 1 => r.carry
                case 2 => r.negative
                case 3 => r.overflow
                case 4 => r.carry && !r.zero
                case 5 => r.negative == r.overflow
                case 6 => r.negative == r.overflow && !r.zero
                case 7 => true
                case _ => false;
    if cond % 2 == 1 && cond != 0x0F then !base else base
  }

  function StoreAddress(op: Op, r: Registers): u64
    requires op.LoadStore? || op.LoadStorePair?
  {
    if op.LoadStorePair? && op.mode.PostIndex? then ReadReg(r, op.rn, true) else Wrap(ReadReg(r, op.rn, true) + op.imm)
  }

  // The width of each half of a pair.
  function Half(op: Op): nat
    requires op.LoadStorePair?
  {
    if op.wide then 8 else 4
  }

  // A load or store, before the program counter moves, and whether all its memory was there.
  ghost function Access(op: Op, s: Cpu): (Cpu, bool)
    requires op.LoadStore? || op.LoadStorePair?
  {
    var r, a := s.regs, StoreAddress(op, s.regs);
    match op
    case LoadStore(load, rd, rn, imm, size, wide) =>
      (if load then s.(regs := WriteReg(r, rd, LoadOr0(s.memory, a, size), false, wide))
       else s.(memory := StoreIf(s.memory, a, size, ReadReg(r, rd, false))),
       Has(s.memory, a, size))
    case LoadStorePair(load, rd, rt2, rn, imm, mode, wide) =>
      var n := Half(op);
      var a2 := Wrap(a + n);
      var moved := if load then
                     s.(regs := WriteReg(WriteReg(r, rd, LoadOr0(s.memory, a, n), false, wide),
                                         rt2, LoadOr0(s.memory, a2, n), false, wide))
                   else
                     s.(memory :=
                          StoreIf(StoreIf(s.memory, a, n, ReadReg(r, rd, false)), a2, n, ReadReg(r, rt2, false)));
      (if mode.Offset? then moved
       else moved.(regs := WriteReg(moved.regs, rn, Wrap(ReadReg(r, rn, true) + imm), true, true)),
       Has(s.memory, a, n) && Has(s.memory, a2, n))
  }

  datatype Executed = Executed(cpu: Cpu, result: StepResult)

  ghost function Execute(op: Op, pc: u64, s: Cpu): Executed {
    var next := Wrap(pc + 4);
    var r := s.regs;
    if op.LoadStore? || op.LoadStorePair? then
      var (after, ok) := Access(op, s);
      if ok then Executed(after.(regs := after.regs.(pc := next)), StepOk) else Executed(after, StepFault)
    else match op
    case Compute(effect) => Executed(s.(regs := effect(r).(pc := next)), StepOk)
    case Branch(target) => Executed(s.(regs := r.(pc := target)), StepOk)
    case BranchLink(target) => Executed(s.(regs := r.(gpr := r.gpr[LINK := next], pc := target)), StepOk)
    case BranchIf(cond, target) => Executed(s.(regs := r.(pc := if EvalCond(r, cond) then target else next)), StepOk)
    case BranchZero(nonzero, rd, target) =>
      var taken := if nonzero then ReadReg(r, rd, false) != 0 else ReadReg(r, rd, false) == 0;
      Executed(s.(regs := r.(pc := if taken then target else next)), StepOk)
    case BranchRegister(rn) => Executed(s.(regs := r.(pc := ReadReg(r, rn, false))), StepOk)
    case BranchLinkRegister(rn) =>
      Executed(s.(regs := r.(pc := ReadReg(r, rn, false), gpr := r.gpr[LINK := next])), StepOk)
    case Return(rn) => Executed(s.(regs := r.(pc := r.gpr[if rn == 0 then LINK else rn])), StepOk)
    case Halt => Executed(s.(regs := r.(pc := next)), StepHalt)
    case Unimplemented => Executed(s, StepUnimplemented)
  }

  function InfoOf(pc: u64, result: StepResult): StepInfo {
    StepInfo(result, pc, 4, if result.StepFault? then AccessViolation
                            else if result.StepUnimplemented? then NotImplemented
                            else NoComment)
  }

  datatype Stepped = Stepped(cpu: Cpu, info: StepInfo)

  // The instruction word at the program counter.
  ghost function WordAt(m: Bytemap, pc: u64): u32
    requires Has(m, pc, 4)
  {
    WordBound(m, pc);
    Load(m, pc, 4)
  }

  lemma WordBound(m: Bytemap, pc: u64)
    requires Has(m, pc, 4)
    ensures Load(m, pc, 4) < 0x1_0000_0000
  {
    ToFromBytes(Fetch(m, pc, 4));
    Pow256Values();
  }

  // One uncached step: fetch, decode, execute.
  ghost function StepOnce(decode: Decoder, s: Cpu): Stepped {
    var pc := s.regs.pc;
    if !Has(s.memory, pc, 4) then Stepped(s, StepInfo(StepFault, pc, 0, CannotFetch))
    else
      var e := Execute(decode(pc, WordAt(s.memory, pc)), pc, s);
      Stepped(e.cpu, InfoOf(pc, e.result))
  }

  datatype Ran = Ran(cpu: Cpu, count: nat, info: StepInfo)

  // Up to n steps, stopping after the first that is not plain.
  ghost function Steps(decode: Decoder, s: Cpu, n: nat): Ran
    requires n > 0
    decreases n
  {
    var one := StepOnce(decode, s);
    if one.info.result.StepOk? && n > 1 then
      var rest := Steps(decode, one.cpu, n - 1);
      rest.(count := rest.count + 1)
    else Ran(one.cpu, 1, one.info)
  }
}
