// The AArch64 decoder: which words are which instruction, and what the instructions that only work on registers do.

module Arm64Decode {
  import opened MachineTypes
  import opened FlatMemory
  import opened Bits
  import opened Division
  import opened Alu
  import opened Arm64Spec
  import opened Arm64Flags
  import opened Arm64Cache

  // The n bits of a word from bit lo on.
  function Field(word: nat, lo: nat, n: nat): nat { word / Pow2(lo) % Pow2(n) }

  // The same as a two's complement number.
  function SignedField(word: nat, lo: nat, n: nat): int
    requires n > 0
  {
    var v := Field(word, lo, n);
    if v >= Pow2(n - 1) then v as int - Pow2(n) else v
  }

  function Register(word: u32, lo: nat): RegisterIndex { word / Pow2(lo) % 32 }

  // ---- instructions on registers ----

  function Quiet(r: Registers): Registers { r }

  function MoveWide(r: Registers, opc: nat, rd: RegisterIndex, imm: nat, shift: nat, wide: bool): Registers {
    var v := Wrap(imm * Pow2(shift));
    if opc == 0 then WriteReg(r, rd, Not(v), false, wide)
    else if opc == 2 then WriteReg(r, rd, v, false, wide)
    else
      var was := ReadReg(r, rd, false);
      WriteReg(r, rd, Wrap(was as int - Field(was, shift, 16) * Pow2(shift) + v), false, wide)
  }

  // Shifts left, right or right with the sign; any other kind leaves the value as it is.
  function Shifted(v: u64, kind: nat, amount: nat, wide: bool): u64 {
    if amount == 0 then v
    else
      var x := Masked(v, SizeOf(wide));
      match kind
      case 0 => Masked(Wrap(x * Pow2(amount)), SizeOf(wide))
      case 1 => Wrap(x / Pow2(amount))
      case 2 => Masked(Wrap(SignExtended(v, SizeOf(wide)) / Pow2(amount)), SizeOf(wide))
      case _ => x
  }

  function SumOf(subtract: bool, a: u64, b: u64, wide: bool): Sum {
    if subtract then AddWithCarry(a, Not(b), 1, wide) else AddWithCarry(a, b, 0, wide)
  }

  // Only the immediate form reads the stack pointer, and writes it when it sets no flags.
  function AddImmediate(r: Registers, subtract: bool, setFlags: bool, rn: RegisterIndex, rd: RegisterIndex, imm: u64,
                        wide: bool): Registers {
    var s := SumOf(subtract, ReadReg(r, rn, true), imm, wide);
    if setFlags then WriteReg(FlagsFrom(r, s), rd, s.value, false, wide) else WriteReg(r, rd, s.value, true, wide)
  }

  function AddRegister(r: Registers, subtract: bool, setFlags: bool, rn: RegisterIndex, rd: RegisterIndex, b: u64,
                       wide: bool): Registers {
    var s := SumOf(subtract, ReadReg(r, rn, false), b, wide);
    WriteReg(if setFlags then FlagsFrom(r, s) else r, rd, s.value, false, wide)
  }

  function LogicRegister(r: Registers, opc: nat, rn: RegisterIndex, rd: RegisterIndex, b: u64, wide: bool): Registers {
    var a := ReadReg(r, rn, false);
    var v := if opc == 1 then Or64(a, b) else if opc == 2 then Xor64(a, b) else And64(a, b);
    var shown := Masked(v, SizeOf(wide));
    var flagged := if opc == 3 then FlagsFrom(r, Sum(v, shown >= SignBit(SizeOf(wide)), shown == 0, false, false))
                   else r;
    WriteReg(flagged, rd, v, false, wide)
  }

  // ADR counts bytes from the instruction, ADRP pages from the instruction's page.
  function PcRelative(pc: u64, page: bool, imm: int): u64 {
    if page then Wrap(pc - pc % 0x1000 + imm * 0x1000) else Wrap(pc + imm)
  }

  // ---- decoding ----

  function DecodeBranch(pc: u64, word: u32): (op: Op)
    ensures !op.LoadStore? && !op.LoadStorePair?
  {
    if Field(word, 26, 6) == 0x05 || Field(word, 26, 6) == 0x25 then
      var target := Wrap(pc + 4 * SignedField(word, 0, 26));
      if Field(word, 31, 1) == 1 then BranchLink(target) else Branch(target)
    else if Field(word, 24, 8) == 0x54 then
      BranchIf(word % 16, Wrap(pc + 4 * SignedField(word, 5, 19)))
    else if Field(word, 25, 6) == 0x1A then
      BranchZero(Field(word, 24, 1) == 1, Register(word, 0), Wrap(pc + 4 * SignedField(word, 5, 19)))
    else if Field(word, 25, 7) == 0x6B then
      match Field(word, 21, 4)
      case 0 => BranchRegister(Register(word, 5))
      case 1 => BranchLinkRegister(Register(word, 5))
      case 2 => Return(Register(word, 5))
      case _ => Unimplemented
    else if Field(word, 24, 8) == 0xD4 then Halt
    else Unimplemented
  }

  // Pairs and single accesses with an immediate offset, both scaled by the access size.
  function DecodeMemory(pc: u64, word: u32): Op {
    var rd, rn := Register(word, 0), Register(word, 5);
    if Field(word, 27, 3) == 5 && Field(word, 26, 1) == 0 && 1 <= Field(word, 23, 3) <= 3 then
      var wide := Field(word, 30, 2) == 2;
      var mode := match Field(word, 23, 3) case 1 => PostIndex case 3 => PreIndex case _ => Offset;
      LoadStorePair(Field(word, 22, 1) == 1, rd, Register(word, 10), rn,
                    SignedField(word, 15, 7) * (if wide then 8 else 4), mode, wide)
    else if Field(word, 27, 3) == 7 && Field(word, 26, 1) == 0 && Field(word, 24, 2) == 1 &&
            Field(word, 22, 2) <= 1 then
      var size: Width := match Field(word, 30, 2) case 0 => 1 case 1 => 2 case 2 => 4 case _ => 8;
      LoadStore(Field(word, 22, 2) == 1, rd, rn, Field(word, 10, 12) * size, size, size == 8)
    else DecodeBranch(pc, word)
  }

  function Decode(pc: u64, word: u32): Op {
    var rd, rn, rm := Register(word, 0), Register(word, 5), Register(word, 16);
    var wide, opc := Field(word, 31, 1) == 1, Field(word, 29, 2);
    var kind, amount := Field(word, 22, 2), Field(word, 10, 6);
    if word == 0xD503_201F then Compute(Quiet)
    else if Field(word, 23, 6) == 0x25 then
      var imm, shift := Field(word, 5, 16), Field(word, 21, 2) * 16;
      Compute(r => MoveWide(r, opc, rd, imm, shift, wide))
    else if Field(word, 23, 6) == 0x22 then
      var imm: u64 := Wrap(Field(word, 10, 12) * if Field(word, 22, 1) == 1 then 0x1000 else 1);
      Compute(r => AddImmediate(r, opc >= 2, opc % 2 == 1, rn, rd, imm, wide))
    else if Field(word, 24, 5) == 0x10 then
      var imm := SignedField(word, 5, 19) * 4 + opc;
      var target := PcRelative(pc, wide, imm);
      Compute(r => WriteReg(r, rd, target, false, true))
    else if Field(word, 24, 5) == 0x0B && Field(word, 21, 1) == 0 then
      Compute(r => AddRegister(r, opc >= 2, opc % 2 == 1, rn, rd,
                               Shifted(ReadReg(r, rm, false), kind, amount, wide), wide))
    else if Field(word, 24, 5) == 0x0A then
      Compute(r => LogicRegister(r, opc, rn, rd, Shifted(ReadReg(r, rm, false), kind, amount, wide), wide))
    else DecodeMemory(pc, word)
  }

  predicate Multiple(x: int, n: int)
    requires n > 0
  {
    x % n == 0
  }

  lemma OffsetScaled(pc: u64, word: u32)
    ensures var op := DecodeMemory(pc, word); IsStore(op) && (op.LoadStore? ==> op.size >= 4) ==> Multiple(op.imm, 4)
  {
    hide Field, SignedField, Register, DecodeBranch, Multiple;
    var op := DecodeMemory(pc, word);
    if op.LoadStore? {
      ScaledBy(Field(word, 10, 12), op.size);
    } else if op.LoadStorePair? {
      ScaledBy(SignedField(word, 15, 7), if op.wide then 8 else 4);
    }
  }

  lemma ScaledBy(x: int, size: Width)
    ensures size >= 4 ==> Multiple(x * size, 4)
  {
    if size >= 4 {
      var k := size / 4;
      assert size == k * 4 && x * size == (x * k) * 4;
      Quotient(x * size, 4, x * k, 0);
    }
  }

  // Offsets are scaled by the access size, so from a base aligned to 8 bytes every store of a word or more is aligned.
  lemma DecodedStoreAligned(pc: u64, word: u32, r: Registers)
    ensures var op := Decode(pc, word);
            IsStore(op) && (op.LoadStore? ==> op.size >= 4) && Multiple(ReadReg(r, op.rn, true), 8) ==>
              Multiple(StoreAddress(op, r), 4)
  {
    hide Decode, DecodeMemory, ReadReg, Wrap, Multiple;
    var op := Decode(pc, word);
    StoresFromMemory(pc, word);
    OffsetScaled(pc, word);
    if IsStore(op) {
      WrapAligned(ReadReg(r, op.rn, true), op.imm);
    }
  }

  lemma StoresFromMemory(pc: u64, word: u32)
    ensures IsStore(Decode(pc, word)) ==> Decode(pc, word) == DecodeMemory(pc, word)
  {
    hide DecodeMemory, Field, SignedField, Register;
  }

  lemma WrapAligned(base: u64, imm: int)
    ensures Multiple(base, 8) ==> Multiple(base, 4) && (Multiple(imm, 4) ==> Multiple(Wrap(base + imm), 4))
  {
    if base % 8 == 0 {
      Euclid(base, 8, base / 8, 0);
      Quotient(base, 4, 2 * (base / 8), 0);
      if imm % 4 == 0 {
        var sum := base + imm;
        var q, k := 2 * (base / 8) + imm / 4, sum / WORD;
        Euclid(imm, 4, imm / 4, 0);
        Euclid(sum, WORD, k, Wrap(sum));
        Quotient(Wrap(sum), 4, q - k * 0x4000_0000_0000_0000, 0);
      }
    }
  }

  // MOVZ and three MOVKs put any 64-bit value together out of its four parts.
  lemma ConstantLoaded(r: Registers, rd: RegisterIndex, h0: u16, h1: u16, h2: u16, h3: u16)
    requires rd != SP
    ensures var r0 := MoveWide(r, 2, rd, h0, 0, true);
            var r1 := MoveWide(r0, 3, rd, h1, 16, true);
            var r2 := MoveWide(r1, 3, rd, h2, 32, true);
            var r3 := MoveWide(r2, 3, rd, h3, 48, true);
            ReadReg(r3, rd, false) == h0 as int + 0x1_0000 * h1 + 0x1_0000_0000 * h2 + 0x1_0000_0000_0000 * h3
  {
    assert Pow2(0) == 1;
    hide MoveWide;
    WidePowers();
    var r0 := MoveWide(r, 2, rd, h0, 0, true);
    assert ReadReg(r0, rd, false) == h0 by {
      ZeroedPart(r, rd, h0);
    }
    var r1 := MoveWide(r0, 3, rd, h1, 16, true);
    KeptPart(r0, rd, h1, 16);
    var r2 := MoveWide(r1, 3, rd, h2, 32, true);
    KeptPart(r1, rd, h2, 32);
    KeptPart(r2, rd, h3, 48);
  }

  lemma ZeroedPart(r: Registers, rd: RegisterIndex, h: u16)
    requires rd != SP
    ensures ReadReg(MoveWide(r, 2, rd, h, 0, true), rd, false) == h
  {
    assert Pow2(0) == 1;
  }

  // MOVK over a part that is still 0 adds to the value.
  lemma {:induction false} KeptPart(r: Registers, rd: RegisterIndex, h: u16, shift: nat)
    requires rd != SP && (shift == 16 || shift == 32 || shift == 48) && ReadReg(r, rd, false) < Pow2(shift)
    ensures ReadReg(MoveWide(r, 3, rd, h, shift, true), rd, false) == ReadReg(r, rd, false) + h * Pow2(shift)
  {
    hide Pow2, Field;
    WidePowers();
    NothingAbove(ReadReg(r, rd, false), shift);
    var part := h * Pow2(shift);
    assert part == if shift == 16 then h * 0x1_0000 else if shift == 32 then h * 0x1_0000_0000
                   else h * 0x1_0000_0000_0000;
  }

  lemma NothingAbove(v: nat, shift: nat)
    requires v < Pow2(shift)
    ensures Field(v, shift, 16) == 0
  {
    Quotient(v, Pow2(shift), 0, v);
  }

  lemma WidePowers()
    ensures Pow2(16) == 0x1_0000 && Pow2(32) == 0x1_0000_0000 && Pow2(48) == 0x1_0000_0000_0000
  {
    assert Pow2(0) == 1;
    hide Pow2;
    Pow2Step8(0); Pow2Step8(8); Pow2Step8(16); Pow2Step8(24); Pow2Step8(32); Pow2Step8(40);
  }

  // CMP, the flag-setting subtraction that keeps no result, makes the conditions of branches compare its operands.
  lemma ComparisonDecides(r: Registers, rn: RegisterIndex, b: u64, wide: bool)
    ensures var t := AddRegister(r, true, true, rn, SP, b, wide);
            var a := ReadReg(r, rn, false);
            var x, y := Masked(a, SizeOf(wide)), Masked(b, SizeOf(wide));
            var sx, sy := SignExtended(a, SizeOf(wide)), SignExtended(b, SizeOf(wide));
            && t.gpr == r.gpr && t.sp == r.sp && t.pc == r.pc
            && EvalCond(t, 0x0) == (x == y) && EvalCond(t, 0x1) == (x != y)
            && EvalCond(t, 0x2) == (x >= y) && EvalCond(t, 0x3) == (x < y)
            && EvalCond(t, 0x8) == (x > y) && EvalCond(t, 0x9) == (x <= y)
            && EvalCond(t, 0xA) == (sx >= sy) && EvalCond(t, 0xB) == (sx < sy)
            && EvalCond(t, 0xC) == (sx > sy) && EvalCond(t, 0xD) == (sx <= sy)
  {
    hide EvalCond, AddWithCarry, SignExtended, Masked;
    CompareDecides(r, ReadReg(r, rn, false), b, wide);
  }
}
