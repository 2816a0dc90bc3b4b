// The A64 instruction set's encodings: a word put together from its fields decodes to the instruction with those
// fields, for all of their values.

module Arm64Encoding {
  import opened MachineTypes
  import opened Bits
  import opened Division
  import opened Alu
  import opened Arm64Spec
  import opened Arm64Decode

  function Bit(b: bool): nat { if b then 1 else 0 }

  // Two's complement in so many values.
  function Signed(v: nat, range: nat): int { if 2 * v >= range then v as int - range else v }

  // ---- taking words apart ----

  lemma FieldOf(word: nat, lo: nat, n: nat, high: nat, v: nat, low: nat)
    requires word == (high * Pow2(n) + v) * Pow2(lo) + low && low < Pow2(lo) && v < Pow2(n)
    ensures Field(word, lo, n) == v
  {
    Quotient(word, Pow2(lo), high * Pow2(n) + v, low);
    Quotient(high * Pow2(n) + v, Pow2(n), high, v);
  }

  lemma {:induction false} PowerSum(s: nat, k: nat)
    ensures Pow2(s + k) == Pow2(s) * Pow2(k)
  {
    if s > 0 {
      PowerSum(s - 1, k);
    }
  }

  // The fields above bit s are those of the word's upper part.
  lemma UpperFields(word: nat, s: nat, top: nat, low: nat)
    requires word == top * Pow2(s) + low && low < Pow2(s)
    ensures forall lo: nat, n: nat :: s <= lo ==> Field(word, lo, n) == Field(top, lo - s, n)
  {
    forall lo: nat, n: nat | s <= lo ensures Field(word, lo, n) == Field(top, lo - s, n) {
      PowerSum(s, lo - s);
      DivideTwice(word, Pow2(s), Pow2(lo - s), top, low);
    }
  }

  lemma DivideTwice(word: nat, a: nat, b: nat, top: nat, low: nat)
    requires word == top * a + low && low < a && b > 0
    ensures a * b > 0 && word / (a * b) == top / b
  {
    var q, r := top / b, top % b;
    Euclid(top, b, q, r);
    LessTimes(0, r, a);
    LessTimes(r + 1, b, a);
    LessTimes(1, b, a);
    Regroup(q, b, r, a);
    Quotient(word, a * b, q, r * a + low);
  }

  lemma Regroup(q: int, b: int, r: int, a: int)
    ensures (q * b + r) * a == q * (a * b) + r * a && (r + 1) * a == r * a + a && b * a == a * b
  {
  }

  // A register field.
  lemma RegisterOf(word: u32, lo: nat, high: nat, v: RegisterIndex, low: nat)
    requires word == (high * 32 + v) * Pow2(lo) + low && low < Pow2(lo)
    ensures Register(word, lo) == v
  {
    Quotient(word, Pow2(lo), high * 32 + v, low);
    Quotient(high * 32 + v, 32, high, v);
  }

  lemma NopFields()
    ensures Field(0xD503_201F, 27, 3) == 2 && Field(0xD503_201F, 26, 6) == 0x35 && Field(0xD503_201F, 24, 8) == 0xD5
    ensures Field(0xD503_201F, 25, 7) == 0x6A && Field(0xD503_201F, 23, 6) == 0x2A && Field(0xD503_201F, 24, 5) == 0x15
  {
    SmallPowers();
    hide Pow2;
    FieldOf(0xD503_201F, 27, 3, 3, 2, 0x503_201F);
    FieldOf(0xD503_201F, 26, 6, 0, 0x35, 0x103_201F);
    FieldOf(0xD503_201F, 24, 8, 0, 0xD5, 0x3_201F);
    FieldOf(0xD503_201F, 25, 7, 0, 0x6A, 0x103_201F);
    FieldOf(0xD503_201F, 23, 6, 6, 0x2A, 0x3_201F);
    FieldOf(0xD503_201F, 24, 5, 6, 0x15, 0x3_201F);
  }

  // ---- loads and stores ----

  // opc 101 0 0 mode L imm7 Rt2 Rn Rt
  function PairWord(opc: nat, mode: nat, load: bool, imm: nat, rt2: RegisterIndex, rn: RegisterIndex,
                    rd: RegisterIndex): u32
    requires opc < 4 && mode < 4 && imm < 128
  {
    ((((opc * 0x100 + 0xA0 + mode * 2 + Bit(load)) * 128 + imm) * 32 + rt2) * 32 + rn) * 32 + rd
  }

  lemma PairEncoding(pc: u64, opc: nat, mode: nat, load: bool, imm: nat, rt2: RegisterIndex, rn: RegisterIndex,
                     rd: RegisterIndex)
    requires opc < 4 && 1 <= mode < 4 && imm < 128
    ensures Decode(pc, PairWord(opc, mode, load, imm, rt2, rn, rd)) ==
              LoadStorePair(load, rd, rt2, rn, Signed(imm, 128) * (if opc == 2 then 8 else 4),
                            if mode == 1 then PostIndex else if mode == 2 then Offset else PreIndex, opc == 2)
  {
    var word := PairWord(opc, mode, load, imm, rt2, rn, rd);
    PairOpcode(opc, mode, load, imm, rt2, rn, rd);
    PairOperands(opc, mode, load, imm, rt2, rn, rd);
    NopFields();
    SmallPowers();
    hide Pow2, Field, Register, DecodeBranch, PairWord;
  }

  lemma PairOpcode(opc: nat, mode: nat, load: bool, imm: nat, rt2: RegisterIndex, rn: RegisterIndex, rd: RegisterIndex)
    requires opc < 4 && 1 <= mode < 4 && imm < 128
    ensures var word := PairWord(opc, mode, load, imm, rt2, rn, rd);
            && Field(word, 30, 2) == opc && Field(word, 27, 3) == 5 && Field(word, 26, 1) == 0
            && Field(word, 23, 3) == mode && Field(word, 22, 1) == Bit(load)
            && Field(word, 23, 6) == 16 + mode && Field(word, 24, 5) == 8 + mode / 2
  {
    SmallPowers();
    hide Pow2, Field;
    var top := opc * 0x100 + 0xA0 + mode * 2 + Bit(load);
    UpperFields(PairWord(opc, mode, load, imm, rt2, rn, rd), 22, top, ((imm * 32 + rt2) * 32 + rn) * 32 + rd);
    FieldOf(top, 8, 2, 0, opc, 0xA0 + mode * 2 + Bit(load));
    FieldOf(top, 5, 3, opc, 5, mode * 2 + Bit(load));
    FieldOf(top, 4, 1, opc * 8 + 5, 0, mode * 2 + Bit(load));
    FieldOf(top, 1, 3, opc * 16 + 10, mode, Bit(load));
    FieldOf(top, 0, 1, opc * 128 + 80 + mode, Bit(load), 0);
    FieldOf(top, 1, 6, opc * 2 + 1, 16 + mode, Bit(load));
    FieldOf(top, 2, 5, opc * 2 + 1, 8 + mode / 2, mode % 2 * 2 + Bit(load));
  }

  lemma PairOperands(opc: nat, mode: nat, load: bool, imm: nat, rt2: RegisterIndex, rn: RegisterIndex,
                     rd: RegisterIndex)
    requires opc < 4 && 1 <= mode < 4 && imm < 128
    ensures var word := PairWord(opc, mode, load, imm, rt2, rn, rd);
            && Field(word, 15, 7) == imm
            && Register(word, 10) == rt2 && Register(word, 5) == rn && Register(word, 0) == rd
  {
    SmallPowers();
    hide Pow2, Field, Register;
    var top, word := opc * 0x100 + 0xA0 + mode * 2 + Bit(load), PairWord(opc, mode, load, imm, rt2, rn, rd);
    FieldOf(word, 15, 7, top, imm, (rt2 * 32 + rn) * 32 + rd);
    RegisterOf(word, 10, top * 128 + imm, rt2, rn * 32 + rd);
    RegisterOf(word, 5, (top * 128 + imm) * 32 + rt2, rn, rd);
    RegisterOf(word, 0, ((top * 128 + imm) * 32 + rt2) * 32 + rn, rd, 0);
  }

  // size 111 0 01 0 L imm12 Rn Rt
  function SingleWord(size: nat, load: bool, imm: nat, rn: RegisterIndex, rd: RegisterIndex): u32
    requires size < 4 && imm < 0x1000
  {
    size * 0x4000_0000 + 0x3900_0000 + Bit(load) * 0x40_0000 + imm * 0x400 + rn * 32 + rd
  }

  lemma SingleEncoding(pc: u64, size: nat, load: bool, imm: nat, rn: RegisterIndex, rd: RegisterIndex)
    requires size < 4 && imm < 0x1000
    ensures var bytes: Width := if size == 0 then 1 else if size == 1 then 2 else if size == 2 then 4 else 8;
            Decode(pc, SingleWord(size, load, imm, rn, rd)) == LoadStore(load, rd, rn, imm * bytes, bytes, size == 3)
  {
    SingleFields(size, load, imm, rn, rd);
    NopFields();
    SmallPowers();
    hide Pow2, Field, Register, DecodeBranch, SingleWord;
  }

  lemma SingleFields(size: nat, load: bool, imm: nat, rn: RegisterIndex, rd: RegisterIndex)
    requires size < 4 && imm < 0x1000
    ensures var word := SingleWord(size, load, imm, rn, rd);
            && Field(word, 30, 2) == size
            && Field(word, 27, 3) == 7
            && Field(word, 26, 1) == 0
            && Field(word, 24, 2) == 1
            && Field(word, 22, 2) == Bit(load)
            && Field(word, 23, 6) == 0x32
            && Field(word, 24, 5) == 0x19
            && Field(word, 10, 12) == imm
            && Register(word, 5) == rn
            && Register(word, 0) == rd
  {
    SmallPowers();
    hide Pow2, Field, Register;
    var word := SingleWord(size, load, imm, rn, rd);
    FieldOf(word, 30, 2, 0, size, 0x3900_0000 + Bit(load) * 0x40_0000 + imm * 0x400 + rn * 32 + rd);
    FieldOf(word, 27, 3, size, 7, 0x100_0000 + Bit(load) * 0x40_0000 + imm * 0x400 + rn * 32 + rd);
    FieldOf(word, 26, 1, size * 8 + 7, 0, 0x100_0000 + Bit(load) * 0x40_0000 + imm * 0x400 + rn * 32 + rd);
    FieldOf(word, 24, 2, size * 16 + 14, 1, Bit(load) * 0x40_0000 + imm * 0x400 + rn * 32 + rd);
    FieldOf(word, 22, 2, size * 64 + 57, Bit(load), imm * 0x400 + rn * 32 + rd);
    FieldOf(word, 23, 6, size * 2 + 1, 0x32, Bit(load) * 0x40_0000 + imm * 0x400 + rn * 32 + rd);
    FieldOf(word, 24, 5, size * 2 + 1, 0x19, Bit(load) * 0x40_0000 + imm * 0x400 + rn * 32 + rd);
    FieldOf(word, 10, 12, size * 0x100 + 0xE4 + Bit(load), imm, rn * 32 + rd);
    RegisterOf(word, 5, (size * 0x100 + 0xE4 + Bit(load)) * 0x1000 + imm, rn, rd);
    RegisterOf(word, 0, ((size * 0x100 + 0xE4 + Bit(load)) * 0x1000 + imm) * 32 + rn, rd, 0);
  }

  // ---- branches ----

  // op 00101 imm26
  function JumpWord(link: bool, imm: nat): u32
    requires imm < 0x400_0000
  {
    Bit(link) * 0x8000_0000 + 0x1400_0000 + imm
  }

  lemma JumpEncoding(pc: u64, link: bool, imm: nat)
    requires imm < 0x400_0000
    ensures var target := Wrap(pc + 4 * Signed(imm, 0x400_0000));
            Decode(pc, JumpWord(link, imm)) == if link then BranchLink(target) else Branch(target)
  {
    JumpFields(link, imm);
    NopFields();
    SmallPowers();
    hide Pow2, Field, Register, JumpWord;
  }

  lemma JumpFields(link: bool, imm: nat)
    requires imm < 0x400_0000
    ensures var word := JumpWord(link, imm);
            && Field(word, 26, 6) == Bit(link) * 32 + 5
            && Field(word, 31, 1) == Bit(link)
            && Field(word, 27, 3) == 2
            && Field(word, 23, 6) == 40 + imm / 0x80_0000
            && Field(word, 24, 5) == 20 + imm / 0x100_0000
            && Field(word, 0, 26) == imm
  {
    SmallPowers();
    hide Pow2, Field, Register;
    var word := JumpWord(link, imm);
    FieldOf(word, 26, 6, 0, Bit(link) * 32 + 5, imm);
    FieldOf(word, 31, 1, 0, Bit(link), 0x1400_0000 + imm);
    FieldOf(word, 27, 3, Bit(link) * 2, 2, 0x400_0000 + imm);
    FieldOf(word, 23, 6, Bit(link) * 4, 40 + imm / 0x80_0000, imm % 0x80_0000);
    FieldOf(word, 24, 5, Bit(link) * 4, 20 + imm / 0x100_0000, imm % 0x100_0000);
    FieldOf(word, 0, 26, Bit(link) * 32 + 5, imm, 0);
  }

  // 0101010 0 imm19 0 cond; the last zero is not looked at
  function ConditionalWord(imm: nat, any: bool, cond: nat): u32
    requires imm < 0x8_0000 && cond < 16
  {
    0x5400_0000 + imm * 32 + Bit(any) * 16 + cond
  }

  lemma ConditionalEncoding(pc: u64, imm: nat, any: bool, cond: nat)
    requires imm < 0x8_0000 && cond < 16
    ensures Decode(pc, ConditionalWord(imm, any, cond)) == BranchIf(cond, Wrap(pc + 4 * Signed(imm, 0x8_0000)))
  {
    ConditionalFields(imm, any, cond);
    NopFields();
    SmallPowers();
    hide Pow2, Field, Register, ConditionalWord;
  }

  lemma ConditionalFields(imm: nat, any: bool, cond: nat)
    requires imm < 0x8_0000 && cond < 16
    ensures var word := ConditionalWord(imm, any, cond);
            && Field(word, 24, 8) == 0x54
            && Field(word, 26, 6) == 0x15
            && Field(word, 27, 3) == 2
            && Field(word, 23, 6) == 40 + imm / 0x4_0000
            && Field(word, 24, 5) == 20
            && Field(word, 5, 19) == imm
  {
    SmallPowers();
    hide Pow2, Field, Register;
    var word := ConditionalWord(imm, any, cond);
    FieldOf(word, 24, 8, 0, 0x54, imm * 32 + Bit(any) * 16 + cond);
    FieldOf(word, 26, 6, 0, 0x15, imm * 32 + Bit(any) * 16 + cond);
    FieldOf(word, 27, 3, 1, 2, 0x400_0000 + imm * 32 + Bit(any) * 16 + cond);
    FieldOf(word, 23, 6, 2, 40 + imm / 0x4_0000, imm % 0x4_0000 * 32 + Bit(any) * 16 + cond);
    FieldOf(word, 24, 5, 2, 20, imm * 32 + Bit(any) * 16 + cond);
    FieldOf(word, 5, 19, 0x54, imm, Bit(any) * 16 + cond);
  }

  // sf 011010 op imm19 Rt
  function CompareWord(wide: bool, nonzero: bool, imm: nat, rd: RegisterIndex): u32
    requires imm < 0x8_0000
  {
    Bit(wide) * 0x8000_0000 + 0x3400_0000 + Bit(nonzero) * 0x100_0000 + imm * 32 + rd
  }

  lemma CompareEncoding(pc: u64, wide: bool, nonzero: bool, imm: nat, rd: RegisterIndex)
    requires imm < 0x8_0000
    ensures Decode(pc, CompareWord(wide, nonzero, imm, rd)) ==
              BranchZero(nonzero, rd, Wrap(pc + 4 * Signed(imm, 0x8_0000)))
  {
    CompareTests(wide, nonzero, imm, rd);
    hide Pow2, Field, SignedField, Signed, Register, CompareWord, Bit, Wrap, MoveWide, AddImmediate, AddRegister,
         LogicRegister, Shifted, PcRelative;
  }

  // No other instruction's test comes first.
  lemma CompareTests(wide: bool, nonzero: bool, imm: nat, rd: RegisterIndex)
    requires imm < 0x8_0000
    ensures var word := CompareWord(wide, nonzero, imm, rd);
            && word != 0xD503_201F && Field(word, 23, 6) != 0x25 && Field(word, 23, 6) != 0x22
            && Field(word, 24, 5) != 0x10 && Field(word, 24, 5) != 0x0B && Field(word, 24, 5) != 0x0A
            && Field(word, 27, 3) == 6 && Field(word, 26, 6) != 5 && Field(word, 26, 6) != 0x25
            && Field(word, 24, 8) != 0x54 && Field(word, 25, 6) == 0x1A && (Field(word, 24, 1) == 1) == nonzero
            && Register(word, 0) == rd && SignedField(word, 5, 19) == Signed(imm, 0x8_0000)
  {
    CompareFields(wide, nonzero, imm, rd);
    NopFields();
    SmallPowers();
    hide Pow2, Field, Register, CompareWord;
  }

  lemma CompareFields(wide: bool, nonzero: bool, imm: nat, rd: RegisterIndex)
    requires imm < 0x8_0000
    ensures var word := CompareWord(wide, nonzero, imm, rd);
            && Field(word, 25, 6) == 0x1A
            && Field(word, 24, 8) == Bit(wide) * 0x80 + 0x34 + Bit(nonzero)
            && Field(word, 24, 1) == Bit(nonzero)
            && Field(word, 26, 6) == Bit(wide) * 32 + 13
            && Field(word, 27, 3) == 6
            && Field(word, 23, 6) == 40 + Bit(nonzero) * 2 + imm / 0x4_0000
            && Field(word, 24, 5) == 20 + Bit(nonzero)
            && Field(word, 5, 19) == imm
            && Register(word, 0) == rd
  {
    SmallPowers();
    hide Pow2, Field, Register;
    var word := CompareWord(wide, nonzero, imm, rd);
    FieldOf(word, 25, 6, Bit(wide), 0x1A, Bit(nonzero) * 0x100_0000 + imm * 32 + rd);
    FieldOf(word, 24, 8, 0, Bit(wide) * 0x80 + 0x34 + Bit(nonzero), imm * 32 + rd);
    FieldOf(word, 24, 1, Bit(wide) * 0x40 + 0x1A, Bit(nonzero), imm * 32 + rd);
    FieldOf(word, 26, 6, 0, Bit(wide) * 32 + 13, Bit(nonzero) * 0x100_0000 + imm * 32 + rd);
    FieldOf(word, 27, 3, Bit(wide) * 2, 6, 0x400_0000 + Bit(nonzero) * 0x100_0000 + imm * 32 + rd);
    FieldOf(word, 23, 6, Bit(wide) * 4 + 1, 40 + Bit(nonzero) * 2 + imm / 0x4_0000, imm % 0x4_0000 * 32 + rd);
    FieldOf(word, 24, 5, Bit(wide) * 4 + 1, 20 + Bit(nonzero), imm * 32 + rd);
    FieldOf(word, 5, 19, (Bit(wide) * 0x80 + 0x34 + Bit(nonzero)), imm, rd);
    RegisterOf(word, 0, (Bit(wide) * 0x80 + 0x34 + Bit(nonzero)) * 0x8_0000 + imm, rd, 0);
  }

  // 1101011 opc(4) and then bits that are not looked at, up to Rn; 0 is BR, 1 BLR and 2 RET
  function IndirectWord(opc: nat, any: nat, rn: RegisterIndex, low: RegisterIndex): u32
    requires opc < 16 && any < 0x800
  {
    0xD600_0000 + opc * 0x20_0000 + any * 0x400 + rn * 32 + low
  }

  lemma IndirectEncoding(pc: u64, opc: nat, any: nat, rn: RegisterIndex, low: RegisterIndex)
    requires opc < 16 && any < 0x800
    ensures Decode(pc, IndirectWord(opc, any, rn, low)) ==
              if opc == 0 then BranchRegister(rn) else if opc == 1 then BranchLinkRegister(rn)
              else if opc == 2 then Return(rn) else Unimplemented
  {
    IndirectFields(opc, any, rn, low);
    NopFields();
    SmallPowers();
    hide Pow2, Field, Register, IndirectWord;
  }

  lemma IndirectFields(opc: nat, any: nat, rn: RegisterIndex, low: RegisterIndex)
    requires opc < 16 && any < 0x800
    ensures var word := IndirectWord(opc, any, rn, low);
            && Field(word, 25, 7) == 0x6B
            && Field(word, 21, 4) == opc
            && Field(word, 24, 8) == 0xD6 + opc / 8
            && Field(word, 25, 6) == 0x2B
            && Field(word, 26, 6) == 0x35
            && Field(word, 27, 3) == 2
            && Field(word, 23, 6) == 44 + opc / 4
            && Field(word, 24, 5) == 22 + opc / 8
            && Register(word, 5) == rn
  {
    SmallPowers();
    hide Pow2, Field, Register;
    var word := IndirectWord(opc, any, rn, low);
    FieldOf(word, 25, 7, 0, 0x6B, opc * 0x20_0000 + any * 0x400 + rn * 32 + low);
    FieldOf(word, 21, 4, 0x6B, opc, any * 0x400 + rn * 32 + low);
    FieldOf(word, 24, 8, 0, 0xD6 + opc / 8, opc % 8 * 0x20_0000 + any * 0x400 + rn * 32 + low);
    FieldOf(word, 25, 6, 1, 0x2B, opc * 0x20_0000 + any * 0x400 + rn * 32 + low);
    FieldOf(word, 26, 6, 0, 0x35, 0x200_0000 + opc * 0x20_0000 + any * 0x400 + rn * 32 + low);
    FieldOf(word, 27, 3, 3, 2, 0x600_0000 + opc * 0x20_0000 + any * 0x400 + rn * 32 + low);
    FieldOf(word, 23, 6, 6, 44 + opc / 4, opc % 4 * 0x20_0000 + any * 0x400 + rn * 32 + low);
    FieldOf(word, 24, 5, 6, 22 + opc / 8, opc % 8 * 0x20_0000 + any * 0x400 + rn * 32 + low);
    RegisterOf(word, 5, 0x35_8000 + opc * 0x800 + any, rn, low);
  }

  // 11010100 and then bits that are not looked at
  lemma HaltEncoding(pc: u64, low: nat)
    requires low < 0x100_0000
    ensures Decode(pc, 0xD400_0000 + low) == Halt
  {
    HaltFields(low);
    NopFields();
    SmallPowers();
    hide Pow2, Field, Register;
  }

  lemma HaltFields(low: nat)
    requires low < 0x100_0000
    ensures var word := 0xD400_0000 + low;
            && word != 0xD503_201F && Field(word, 24, 8) == 0xD4 && Field(word, 25, 7) == 0x6A
            && Field(word, 25, 6) == 0x2A && Field(word, 26, 6) == 0x35 && Field(word, 27, 3) == 2
            && Field(word, 23, 6) == 0x28 + low / 0x80_0000 && Field(word, 24, 5) == 0x14
  {
    SmallPowers();
    hide Pow2, Field;
    var word := 0xD400_0000 + low;
    FieldOf(word, 24, 8, 0, 0xD4, low);
    FieldOf(word, 25, 7, 0, 0x6A, low);
    FieldOf(word, 25, 6, 1, 0x2A, low);
    FieldOf(word, 26, 6, 0, 0x35, low);
    FieldOf(word, 27, 3, 3, 2, 0x400_0000 + low);
    FieldOf(word, 23, 6, 6, 0x28 + low / 0x80_0000, low % 0x80_0000);
    FieldOf(word, 24, 5, 6, 0x14, low);
  }

  // ---- instructions on registers ----

  // NOP leaves every register as it is.
  lemma NopEncoding(pc: u64, r: Registers)
    ensures Decode(pc, 0xD503_201F).Compute? && Decode(pc, 0xD503_201F).effect(r) == r
  {
    hide Field, Register, DecodeMemory;
  }

  lemma CodeBits(x: bool, y: bool)
    ensures (Bit(x) * 2 + Bit(y) >= 2) == x && (Bit(x) * 2 + Bit(y)) % 2 == Bit(y) && (Bit(y) == 1) == y
  {
  }

  lemma InWord(v: int)
    requires 0 <= v < WORD
    ensures Wrap(v) == v
  {
  }

  lemma SignedWider(high: nat, low: nat)
    requires low < 4
    ensures Signed(high * 4 + low, 0x20_0000) == Signed(high, 0x8_0000) * 4 + low
  {
  }

  // ADR adds the offset to the address of the instruction, and ADRP so many pages to the start of its page.
  lemma PcRelativeIs(pc: u64, imm: int)
    ensures PcRelative(pc, false, imm) == (pc + imm) % WORD
    ensures PcRelative(pc, true, imm) == (pc / 0x1000 + imm) * 0x1000 % WORD
  {
    Euclid(pc, 0x1000, pc / 0x1000, pc % 0x1000);
  }

  // sf opc 100101 hw imm16 Rd
  function WideWord(wide: bool, opc: nat, hw: nat, imm: nat, rd: RegisterIndex): u32
    requires opc < 4 && hw < 4 && imm < 0x1_0000
  {
    Bit(wide) * 0x8000_0000 + opc * 0x2000_0000 + 0x1280_0000 + hw * 0x20_0000 + imm * 32 + rd
  }

  lemma WideEncoding(pc: u64, wide: bool, opc: nat, hw: nat, imm: nat, rd: RegisterIndex, r: Registers)
    requires opc < 4 && hw < 4 && imm < 0x1_0000
    ensures var op := Decode(pc, WideWord(wide, opc, hw, imm, rd));
            op.Compute? && op.effect(r) == MoveWide(r, opc, rd, imm, hw * 16, wide)
  {
    WideFields(wide, opc, hw, imm, rd);
    NopFields();
    SmallPowers();
    hide Pow2, Field, Register, DecodeMemory, MoveWide, WideWord;
  }

  lemma WideFields(wide: bool, opc: nat, hw: nat, imm: nat, rd: RegisterIndex)
    requires opc < 4 && hw < 4 && imm < 0x1_0000
    ensures var word := WideWord(wide, opc, hw, imm, rd);
            && Field(word, 31, 1) == Bit(wide)
            && Field(word, 29, 2) == opc
            && Field(word, 23, 6) == 0x25
            && Field(word, 21, 2) == hw
            && Field(word, 5, 16) == imm
            && Register(word, 0) == rd
  {
    SmallPowers();
    hide Pow2, Field, Register;
    var word := WideWord(wide, opc, hw, imm, rd);
    FieldOf(word, 31, 1, 0, Bit(wide), opc * 0x2000_0000 + 0x1280_0000 + hw * 0x20_0000 + imm * 32 + rd);
    FieldOf(word, 29, 2, Bit(wide), opc, 0x1280_0000 + hw * 0x20_0000 + imm * 32 + rd);
    FieldOf(word, 23, 6, Bit(wide) * 4 + opc, 0x25, hw * 0x20_0000 + imm * 32 + rd);
    FieldOf(word, 21, 2, (Bit(wide) * 4 + opc) * 64 + 0x25, hw, imm * 32 + rd);
    FieldOf(word, 5, 16, ((Bit(wide) * 4 + opc) * 64 + 0x25) * 4 + hw, imm, rd);
    RegisterOf(word, 0, (((Bit(wide) * 4 + opc) * 64 + 0x25) * 4 + hw) * 0x1_0000 + imm, rd, 0);
  }

  // sf op S 100010 sh imm12 Rn Rd
  function AddImmediateWord(wide: bool, sub: bool, flags: bool, shift: bool, imm: nat, rn: RegisterIndex,
                            rd: RegisterIndex): u32
    requires imm < 0x1000
  {
    Bit(wide) * 0x8000_0000 + Bit(sub) * 0x4000_0000 + Bit(flags) * 0x2000_0000 + 0x1100_0000 + Bit(shift) * 0x40_0000 +
    imm * 0x400 + rn * 32 + rd
  }

  lemma AddImmediateEncoding(pc: u64, wide: bool, sub: bool, flags: bool, shift: bool, imm: nat, rn: RegisterIndex,
                             rd: RegisterIndex, r: Registers)
    requires imm < 0x1000
    ensures var op := Decode(pc, AddImmediateWord(wide, sub, flags, shift, imm, rn, rd));
            && op.Compute?
            && op.effect(r) == AddImmediate(r, sub, flags, rn, rd, if shift then imm * 0x1000 else imm, wide)
  {
    AddImmediateFields(wide, sub, flags, shift, imm, rn, rd);
    NopFields();
    SmallPowers();
    CodeBits(sub, flags);
    InWord(imm);
    InWord(imm * 0x1000);
    hide Pow2, Field, Register, DecodeMemory, AddImmediate, AddImmediateWord, Bit, Wrap;
  }

  lemma AddImmediateFields(wide: bool, sub: bool, flags: bool, shift: bool, imm: nat, rn: RegisterIndex,
                           rd: RegisterIndex)
    requires imm < 0x1000
    ensures var word := AddImmediateWord(wide, sub, flags, shift, imm, rn, rd);
            && Field(word, 31, 1) == Bit(wide)
            && Field(word, 29, 2) == Bit(sub) * 2 + Bit(flags)
            && Field(word, 23, 6) == 0x22
            && Field(word, 22, 1) == Bit(shift)
            && Field(word, 10, 12) == imm
            && Register(word, 5) == rn
            && Register(word, 0) == rd
  {
    SmallPowers();
    hide Pow2, Field, Register;
    var word := AddImmediateWord(wide, sub, flags, shift, imm, rn, rd);
    var top, low := Bit(wide) * 4 + Bit(sub) * 2 + Bit(flags), rn * 32 + rd;
    FieldOf(word, 31, 1, 0, Bit(wide), Bit(sub) * 0x4000_0000 + Bit(flags) * 0x2000_0000 + 0x1100_0000 +
                                       Bit(shift) * 0x40_0000 + imm * 0x400 + low);
    FieldOf(word, 29, 2, Bit(wide), Bit(sub) * 2 + Bit(flags),
            0x1100_0000 + Bit(shift) * 0x40_0000 + imm * 0x400 + low);
    FieldOf(word, 23, 6, top, 0x22, Bit(shift) * 0x40_0000 + imm * 0x400 + low);
    FieldOf(word, 22, 1, top * 64 + 0x22, Bit(shift), imm * 0x400 + low);
    FieldOf(word, 10, 12, (top * 64 + 0x22) * 2 + Bit(shift), imm, low);
    RegisterOf(word, 5, ((top * 64 + 0x22) * 2 + Bit(shift)) * 0x1000 + imm, rn, rd);
    RegisterOf(word, 0, (((top * 64 + 0x22) * 2 + Bit(shift)) * 0x1000 + imm) * 32 + rn, rd, 0);
  }

  // op immlo 10000 immhi Rd; op 0 counts bytes from the instruction, op 1 pages from its page
  function AddressWord(page: bool, low: nat, high: nat, rd: RegisterIndex): u32
    requires low < 4 && high < 0x8_0000
  {
    Bit(page) * 0x8000_0000 + low * 0x2000_0000 + 0x1000_0000 + high * 32 + rd
  }

  lemma AddressEncoding(pc: u64, page: bool, low: nat, high: nat, rd: RegisterIndex, r: Registers)
    requires low < 4 && high < 0x8_0000
    ensures var op, offset := Decode(pc, AddressWord(page, low, high, rd)), Signed(high * 4 + low, 0x20_0000);
            && op.Compute?
            && op.effect(r) == WriteReg(r, rd, PcRelative(pc, page, offset), false, true)
  {
    AddressOffset(page, low, high, rd);
    hide Bit, Pow2, Field, Register, Decode, WriteReg, AddressWord, PcRelative, OffsetIn, Signed;
    AddressDecoded(pc, AddressWord(page, low, high, rd), r);
  }

  // The 21-bit offset, in two parts.
  function OffsetIn(word: u32): int { SignedField(word, 5, 19) * 4 + Field(word, 29, 2) }

  lemma AddressDecoded(pc: u64, word: u32, r: Registers)
    requires Field(word, 24, 5) == 0x10 && Field(word, 23, 6) != 0x25 && Field(word, 23, 6) != 0x22
    requires word != 0xD503_201F
    ensures var op := Decode(pc, word);
            && op.Compute?
            && op.effect(r) ==
                 WriteReg(r, Register(word, 0), PcRelative(pc, Field(word, 31, 1) == 1, OffsetIn(word)), false, true)
  {
    hide Field, Register, SignedField, WriteReg, PcRelative;
  }

  lemma AddressOffset(page: bool, low: nat, high: nat, rd: RegisterIndex)
    requires low < 4 && high < 0x8_0000
    ensures OffsetIn(AddressWord(page, low, high, rd)) == Signed(high * 4 + low, 0x20_0000)
    ensures var word := AddressWord(page, low, high, rd);
            && Field(word, 23, 6) != 0x25 && Field(word, 23, 6) != 0x22 && Field(word, 24, 5) == 0x10
            && (Field(word, 31, 1) == 1) == page && Register(word, 0) == rd && word != 0xD503_201F
  {
    AddressFields(page, low, high, rd);
    NopFields();
    SmallPowers();
    SignedWider(high, low);
    hide Pow2, Field, AddressWord;
  }

  lemma AddressFields(page: bool, low: nat, high: nat, rd: RegisterIndex)
    requires low < 4 && high < 0x8_0000
    ensures var word := AddressWord(page, low, high, rd);
            && Field(word, 31, 1) == Bit(page)
            && Field(word, 29, 2) == low
            && Field(word, 24, 5) == 0x10
            && Field(word, 23, 6) == 0x20 + high / 0x4_0000
            && Field(word, 5, 19) == high
            && Register(word, 0) == rd
  {
    SmallPowers();
    hide Pow2, Field, Register;
    var word := AddressWord(page, low, high, rd);
    FieldOf(word, 31, 1, 0, Bit(page), low * 0x2000_0000 + 0x1000_0000 + high * 32 + rd);
    FieldOf(word, 29, 2, Bit(page), low, 0x1000_0000 + high * 32 + rd);
    FieldOf(word, 24, 5, Bit(page) * 4 + low, 0x10, high * 32 + rd);
    FieldOf(word, 23, 6, Bit(page) * 4 + low, 0x20 + high / 0x4_0000, high % 0x4_0000 * 32 + rd);
    FieldOf(word, 5, 19, (Bit(page) * 4 + low) * 32 + 0x10, high, rd);
    RegisterOf(word, 0, ((Bit(page) * 4 + low) * 32 + 0x10) * 0x8_0000 + high, rd, 0);
  }

  // sf op S 01011 shift 0 Rm imm6 Rn Rd
  function AddRegisterWord(wide: bool, sub: bool, flags: bool, kind: nat, rm: RegisterIndex, amount: nat,
                           rn: RegisterIndex, rd: RegisterIndex): u32
    requires kind < 4 && amount < 64
  {
    Bit(wide) * 0x8000_0000 + Bit(sub) * 0x4000_0000 + Bit(flags) * 0x2000_0000 + 0x0B00_0000 + kind * 0x40_0000 +
    rm * 0x1_0000 + amount * 0x400 + rn * 32 + rd
  }

  lemma AddRegisterEncoding(pc: u64, wide: bool, sub: bool, flags: bool, kind: nat, rm: RegisterIndex, amount: nat,
                            rn: RegisterIndex, rd: RegisterIndex, r: Registers)
    requires kind < 4 && amount < 64
    ensures var op := Decode(pc, AddRegisterWord(wide, sub, flags, kind, rm, amount, rn, rd));
            && op.Compute?
            && op.effect(r) ==
                 AddRegister(r, sub, flags, rn, rd, Shifted(ReadReg(r, rm, false), kind, amount, wide), wide)
  {
    AddRegisterFields(wide, sub, flags, kind, rm, amount, rn, rd);
    NopFields();
    SmallPowers();
    CodeBits(sub, flags);
    hide Pow2, Field, Register, DecodeMemory, AddRegister, Shifted, AddRegisterWord, Bit;
  }

  lemma AddRegisterFields(wide: bool, sub: bool, flags: bool, kind: nat, rm: RegisterIndex, amount: nat,
                          rn: RegisterIndex, rd: RegisterIndex)
    requires kind < 4 && amount < 64
    ensures var word := AddRegisterWord(wide, sub, flags, kind, rm, amount, rn, rd);
            && Field(word, 31, 1) == Bit(wide)
            && Field(word, 29, 2) == Bit(sub) * 2 + Bit(flags)
            && Field(word, 23, 6) == 22 + kind / 2
            && Field(word, 24, 5) == 0x0B
            && Field(word, 21, 1) == 0
            && Field(word, 22, 2) == kind
            && Field(word, 10, 6) == amount
            && Register(word, 16) == rm
            && Register(word, 5) == rn
            && Register(word, 0) == rd
  {
    SmallPowers();
    hide Pow2, Field, Register;
    var word := AddRegisterWord(wide, sub, flags, kind, rm, amount, rn, rd);
    var top, low := Bit(wide) * 4 + Bit(sub) * 2 + Bit(flags), amount * 0x400 + rn * 32 + rd;
    FieldOf(word, 31, 1, 0, Bit(wide), Bit(sub) * 0x4000_0000 + Bit(flags) * 0x2000_0000 + 0x0B00_0000 +
                                       kind * 0x40_0000 + rm * 0x1_0000 + low);
    FieldOf(word, 29, 2, Bit(wide), Bit(sub) * 2 + Bit(flags), 0x0B00_0000 + kind * 0x40_0000 + rm * 0x1_0000 + low);
    FieldOf(word, 23, 6, top, 22 + kind / 2, kind % 2 * 0x40_0000 + rm * 0x1_0000 + low);
    FieldOf(word, 24, 5, top, 0x0B, kind * 0x40_0000 + rm * 0x1_0000 + low);
    FieldOf(word, 21, 1, top * 128 + 0x2C + kind, 0, rm * 0x1_0000 + low);
    FieldOf(word, 22, 2, top * 32 + 0x0B, kind, rm * 0x1_0000 + low);
    FieldOf(word, 10, 6, ((top * 32 + 0x0B) * 8 + kind * 2) * 32 + rm, amount, rn * 32 + rd);
    RegisterOf(word, 16, (top * 32 + 0x0B) * 8 + kind * 2, rm, low);
    RegisterOf(word, 5, (((top * 32 + 0x0B) * 8 + kind * 2) * 32 + rm) * 64 + amount, rn, rd);
    RegisterOf(word, 0, ((((top * 32 + 0x0B) * 8 + kind * 2) * 32 + rm) * 64 + amount) * 32 + rn, rd, 0);
  }

  // sf opc 01010 shift N Rm imm6 Rn Rd; N is not looked at
  function LogicWord(wide: bool, opc: nat, kind: nat, any: bool, rm: RegisterIndex, amount: nat, rn: RegisterIndex,
                     rd: RegisterIndex): u32
    requires opc < 4 && kind < 4 && amount < 64
  {
    Bit(wide) * 0x8000_0000 + opc * 0x2000_0000 + 0x0A00_0000 + kind * 0x40_0000 + Bit(any) * 0x20_0000 +
    rm * 0x1_0000 + amount * 0x400 + rn * 32 + rd
  }

  lemma LogicEncoding(pc: u64, wide: bool, opc: nat, kind: nat, any: bool, rm: RegisterIndex, amount: nat,
                      rn: RegisterIndex, rd: RegisterIndex, r: Registers)
    requires opc < 4 && kind < 4 && amount < 64
    ensures var op := Decode(pc, LogicWord(wide, opc, kind, any, rm, amount, rn, rd));
            && op.Compute?
            && op.effect(r) == LogicRegister(r, opc, rn, rd, Shifted(ReadReg(r, rm, false), kind, amount, wide), wide)
  {
    LogicFields(wide, opc, kind, any, rm, amount, rn, rd);
    NopFields();
    SmallPowers();
    hide Pow2, Field, Register, DecodeMemory, LogicRegister, Shifted, LogicWord;
  }

  lemma LogicFields(wide: bool, opc: nat, kind: nat, any: bool, rm: RegisterIndex, amount: nat, rn: RegisterIndex,
                    rd: RegisterIndex)
    requires opc < 4 && kind < 4 && amount < 64
    ensures var word := LogicWord(wide, opc, kind, any, rm, amount, rn, rd);
            && Field(word, 31, 1) == Bit(wide)
            && Field(word, 29, 2) == opc
            && Field(word, 23, 6) == 20 + kind / 2
            && Field(word, 24, 5) == 0x0A
            && Field(word, 22, 2) == kind
            && Field(word, 10, 6) == amount
            && Register(word, 16) == rm
            && Register(word, 5) == rn
            && Register(word, 0) == rd
  {
    SmallPowers();
    hide Pow2, Field, Register;
    var word := LogicWord(wide, opc, kind, any, rm, amount, rn, rd);
    var top, low := Bit(wide) * 4 + opc, amount * 0x400 + rn * 32 + rd;
    FieldOf(word, 31, 1, 0, Bit(wide), opc * 0x2000_0000 + 0x0A00_0000 + kind * 0x40_0000 +
                                       Bit(any) * 0x20_0000 + rm * 0x1_0000 + low);
    FieldOf(word, 29, 2, Bit(wide), opc, 0x0A00_0000 + kind * 0x40_0000 + Bit(any) * 0x20_0000 + rm * 0x1_0000 + low);
    FieldOf(word, 23, 6, top, 20 + kind / 2, kind % 2 * 0x40_0000 + Bit(any) * 0x20_0000 + rm * 0x1_0000 + low);
    FieldOf(word, 24, 5, top, 0x0A, kind * 0x40_0000 + Bit(any) * 0x20_0000 + rm * 0x1_0000 + low);
    FieldOf(word, 22, 2, top * 32 + 0x0A, kind, Bit(any) * 0x20_0000 + rm * 0x1_0000 + low);
    FieldOf(word, 10, 6, ((top * 32 + 0x0A) * 8 + kind * 2 + Bit(any)) * 32 + rm, amount, rn * 32 + rd);
    RegisterOf(word, 16, (top * 32 + 0x0A) * 8 + kind * 2 + Bit(any), rm, low);
    RegisterOf(word, 5, (((top * 32 + 0x0A) * 8 + kind * 2 + Bit(any)) * 32 + rm) * 64 + amount, rn, rd);
    RegisterOf(word, 0, ((((top * 32 + 0x0A) * 8 + kind * 2 + Bit(any)) * 32 + rm) * 64 + amount) * 32 + rn, rd, 0);
  }
}
