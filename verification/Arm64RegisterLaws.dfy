// What the AArch64 instructions on registers compute, bit by bit.

module Arm64RegisterLaws {
  import opened MachineTypes
  import opened Bits
  import opened Division
  import opened Alu
  import opened Arm64Spec
  import opened Arm64Flags
  import opened Arm64Decode

  function Width64(wide: bool): nat { if wide then 64 else 32 }

  lemma WidthPowers(wide: bool)
    ensures Pow2(64) == WORD && Pow2(Width64(wide)) == Range(SizeOf(wide)) && Width64(wide) == 8 * SizeOf(wide)
  {
    SmallPowers();
    Pow2Values();
    hide Pow2;
    Pow2Step8(24);
  }

  // The low part of a value keeps its bits.
  lemma MaskedBits(v: u64, wide: bool, k: nat)
    ensures BitAt(Masked(v, SizeOf(wide)), k) <==> k < Width64(wide) && BitAt(v, k)
  {
    hide BitAt, Pow2;
    WidthPowers(wide);
    LowBits(v, Width64(wide), k);
  }

  // A register written with v reads back the bits of v that fit; the other registers stay.
  lemma WrittenBits(r: Registers, rd: RegisterIndex, v: u64, useSp: bool, wide: bool, k: nat)
    requires rd != SP
    ensures var t := WriteReg(r, rd, v, useSp, wide);
            && (BitAt(t.gpr[rd], k) <==> k < Width64(wide) && BitAt(v, k))
            && (forall i :: 0 <= i < 32 && i != rd ==> t.gpr[i] == r.gpr[i]) && t.(gpr := r.gpr) == r
  {
    hide BitAt;
    MaskedBits(v, wide, k);
    if wide {
      NoMask(v);
    }
  }

  lemma NoMask(v: u64)
    ensures Masked(v, 8) == v
  {
  }

  // ---- AND, ORR, EOR and ANDS ----

  lemma LogicLaw(r: Registers, opc: nat, rn: RegisterIndex, rd: RegisterIndex, b: u64, wide: bool, k: nat)
    requires opc < 4 && rd != SP
    ensures var t, a := LogicRegister(r, opc, rn, rd, b, wide), if rn == 31 then 0 else r.gpr[rn];
            && (BitAt(t.gpr[rd], k) <==>
                  k < Width64(wide) &&
                  (if opc == 1 then BitAt(a, k) || BitAt(b, k) else if opc == 2 then BitAt(a, k) != BitAt(b, k)
                   else BitAt(a, k) && BitAt(b, k)))
            && (forall i :: 0 <= i < 32 && i != rd ==> t.gpr[i] == r.gpr[i])
            && t.sp == r.sp && t.pc == r.pc
            && (if opc == 3 then
                  && t.zero == (t.gpr[rd] == 0) && t.negative == BitAt(t.gpr[rd], Width64(wide) - 1)
                  && !t.carry && !t.overflow
                else t.negative == r.negative && t.zero == r.zero && t.carry == r.carry && t.overflow == r.overflow)
  {
    hide BitAt, Pow2, WriteReg, SignBit, And64, Or64, Xor64, Masked;
    var v := LogicOf(opc, ReadReg(r, rn, false), b);
    LogicBits(opc, ReadReg(r, rn, false), b, k);
    LogicSteps(r, opc, rn, rd, b, wide);
    var shown := Masked(v, SizeOf(wide));
    MaskedBelow(v, SizeOf(wide));
    SignBitTest(shown, SizeOf(wide));
    WidthPowers(wide);
    var flagged := if opc == 3 then FlagsFrom(r, Sum(v, shown >= SignBit(SizeOf(wide)), shown == 0, false, false))
                   else r;
    WrittenBits(flagged, rd, v, false, wide, k);
    WrittenIs(flagged, rd, v, wide);
  }

  function LogicOf(opc: nat, a: u64, b: u64): u64 {
    if opc == 1 then Or64(a, b) else if opc == 2 then Xor64(a, b) else And64(a, b)
  }

  lemma LogicBits(opc: nat, a: u64, b: u64, k: nat)
    ensures BitAt(LogicOf(opc, a, b), k) <==>
              if opc == 1 then BitAt(a, k) || BitAt(b, k) else if opc == 2 then BitAt(a, k) != BitAt(b, k)
              else BitAt(a, k) && BitAt(b, k)
  {
    hide BitAt, And, Or, Xor;
    AndBit(a, b, k);
    OrBit(a, b, k);
    XorBit(a, b, k);
  }

  lemma LogicSteps(r: Registers, opc: nat, rn: RegisterIndex, rd: RegisterIndex, b: u64, wide: bool)
    ensures var v := LogicOf(opc, ReadReg(r, rn, false), b);
            var shown := Masked(v, SizeOf(wide));
            LogicRegister(r, opc, rn, rd, b, wide) ==
              WriteReg(if opc == 3 then
                         FlagsFrom(r, Sum(v, shown >= SignBit(SizeOf(wide)), shown == 0, false, false))
                       else r, rd, v, false, wide)
  {
    hide WriteReg, And64, Or64, Xor64, Masked, ReadReg;
  }

  lemma WrittenIs(r: Registers, rd: RegisterIndex, v: u64, wide: bool)
    requires rd != SP
    ensures WriteReg(r, rd, v, false, wide).gpr[rd] == Masked(v, SizeOf(wide))
  {
  }

  // ---- shifted operands ----

  // LSL moves the bits up, LSR down, and ASR down with the sign coming after; bits that leave the width are lost.
  lemma ShiftLaw(v: u64, kind: nat, amount: nat, wide: bool, k: nat)
    requires kind < 3 && 0 < amount < 64
    ensures BitAt(Shifted(v, kind, amount, wide), k) <==>
              k < Width64(wide) &&
              (if kind == 0 then k >= amount && BitAt(v, k - amount)
               else if kind == 1 then k + amount < Width64(wide) && BitAt(v, k + amount)
               else BitAt(v, Min(k + amount, Width64(wide) - 1)))
  {
    hide BitAt, Pow2, Masked, SignExtended;
    var n := Width64(wide);
    var x := Masked(v, SizeOf(wide));
    WidthPowers(wide);
    if kind == 0 {
      BitOfSum(0, x, amount, k);
      ZeroBit(k);
      LowBits(x * Pow2(amount), 64, k);
      MaskedBits(Wrap(x * Pow2(amount)), wide, k);
      if k >= amount {
        MaskedBits(v, wide, k - amount);
      }
    } else if kind == 1 {
      BitOfQuotient(x, amount, k);
      MaskedBits(v, wide, k + amount);
      QuotientFits(x, Pow2(amount));
    } else {
      SignedShift(v, amount, wide, k);
    }
  }

  lemma QuotientFits(x: u64, p: nat)
    requires p > 0
    ensures Wrap(x / p) == x / p
  {
    Euclid(x, p, x / p, x % p);
    LessTimes(1, p, x / p);
  }

  lemma SignedShift(v: u64, amount: nat, wide: bool, k: nat)
    requires 0 < amount < 64
    ensures BitAt(Masked(Wrap(SignExtended(v, SizeOf(wide)) / Pow2(amount)), SizeOf(wide)), k) <==>
              k < Width64(wide) && BitAt(v, Min(k + amount, Width64(wide) - 1))
  {
    var n, w := Width64(wide), SizeOf(wide);
    var negative := Masked(v, w) >= SignBit(w);
    var u := ShiftedAsOnes(v, amount, wide);
    var ones := if negative then Pow2(amount) - 1 else 0;
    WidthPowers(wide);
    MaskedBelow(v, w);
    SignBitTest(Masked(v, w), w);
    MaskedBits(v, wide, n - 1);
    MaskedBits(v, wide, k + amount);
    hide BitAt, Pow2, Masked, SignExtended, Wrap;
    LowBits(u / Pow2(amount), n, k);
    BitOfQuotient(u, amount, k);
    BitOfSum(Masked(v, w), ones, n, k + amount);
    if k + amount >= n {
      ZeroBit(k + amount - n);
      AllOnes(amount, k + amount - n);
    }
  }

  // A negative value shifts like the same bits under as many ones.
  lemma ShiftedAsOnes(v: u64, amount: nat, wide: bool) returns (u: nat)
    requires 0 < amount < 64
    ensures var n, w := Width64(wide), SizeOf(wide);
            && u == Masked(v, w) + (if Masked(v, w) >= SignBit(w) then Pow2(amount) - 1 else 0) * Pow2(n)
            && u / Pow2(amount) >= 0
            && Masked(Wrap(SignExtended(v, w) / Pow2(amount)), w) == u / Pow2(amount) % Pow2(n)
  {
    var n, w, p := Width64(wide), SizeOf(wide), Pow2(amount);
    var m := Pow2(n);
    var negative := Masked(v, w) >= SignBit(w);
    WidthPowers(wide);
    WrapMasked(SignExtended(v, w) / p, w);
    OnesTimes(p, m);
    hide BitAt, Pow2, Masked, Wrap;
    u := Masked(v, w) + (if negative then p - 1 else 0) * m;
    SplitAt(u, p);
    if negative {
      QuotientBelow(SignExtended(v, w), u, p, m);
      DropMultiple(u / p, -1, m);
    }
  }

  lemma OnesTimes(p: nat, m: nat)
    requires p > 0
    ensures 0 <= (p - 1) * m == p * m - m && m * p == p * m
  {
  }

  lemma QuotientBelow(y: int, u: nat, p: nat, m: nat)
    requires p > 0 && y == u - m * p
    ensures y / p == u / p - m
  {
    Euclid(u, p, u / p, u % p);
    Quotient(y, p, u / p - m, u % p);
  }

  lemma WrapMasked(x: int, w: Width)
    ensures Masked(Wrap(x), w) == x % Range(w)
  {
    var k := WORD / Range(w);
    assert Range(w) * k == WORD && Range(w) >= 0x100;
    hide Range;
    ModMod(x, Range(w), k);
  }

  // ---- MOVN, MOVZ and MOVK ----

  // MOVZ puts the immediate at its place among zeros, MOVN complements that, and MOVK leaves the other bits as they
  // were.
  lemma MoveWideLaw(r: Registers, opc: nat, rd: RegisterIndex, imm: u16, hw: nat, wide: bool, k: nat)
    requires opc < 4 && hw < 4 && rd != SP
    ensures var t, here := MoveWide(r, opc, rd, imm, hw * 16, wide), hw * 16 <= k < hw * 16 + 16;
            && (BitAt(t.gpr[rd], k) <==>
                  k < Width64(wide) &&
                  (if here then BitAt(imm, k - hw * 16) != (opc == 0)
                   else if opc == 0 then true else if opc == 2 then false else BitAt(r.gpr[rd], k)))
            && (forall i :: 0 <= i < 32 && i != rd ==> t.gpr[i] == r.gpr[i]) && t.(gpr := r.gpr) == r
  {
    hide BitAt, Pow2, WriteReg, Field;
    var shift := hw * 16;
    var v := Wrap(imm * Pow2(shift));
    PlacedBits(imm, shift, k);
    if opc == 0 {
      if k < 64 {
        NotBit(v, k);
      }
      WrittenBits(r, rd, Not(v), false, wide, k);
    } else if opc == 2 {
      WrittenBits(r, rd, v, false, wide, k);
    } else {
      var was := ReadReg(r, rd, false);
      ReplacedBits(was, imm, shift, k);
      WrittenBits(r, rd, Wrap(was as int - Field(was, shift, 16) * Pow2(shift) + v), false, wide, k);
    }
  }

  lemma ImmediateFits(imm: u16, shift: nat)
    requires shift == 0 || shift == 16 || shift == 32 || shift == 48
    ensures var p := Pow2(shift); p == 1 || p == 0x1_0000 || p == 0x1_0000_0000 || p == 0x1_0000_0000_0000
    ensures Pow2(16) == 0x1_0000
    ensures 0 <= imm * Pow2(shift) < WORD && Wrap(imm * Pow2(shift)) == imm * Pow2(shift)
  {
    assert Pow2(0) == 1;
    WidePowers();
    hide Pow2;
    assert imm * Pow2(shift) == if shift == 0 then imm as int else if shift == 16 then imm * 0x1_0000
                                else if shift == 32 then imm * 0x1_0000_0000 else imm * 0x1_0000_0000_0000;
  }

  lemma PlacedBits(imm: u16, shift: nat, k: nat)
    requires shift == 0 || shift == 16 || shift == 32 || shift == 48
    ensures BitAt(Wrap(imm * Pow2(shift)), k) <==> shift <= k < shift + 16 && BitAt(imm, k - shift)
  {
    hide BitAt, Pow2;
    ImmediateFits(imm, shift);
    BitOfSum(0, imm, shift, k);
    ZeroBit(k);
    if k >= shift + 16 {
      BitsAbove(imm, 16, k - shift);
    }
  }

  // Replacing sixteen bits of a value.
  lemma ReplacedBits(was: u64, imm: u16, shift: nat, k: nat)
    requires shift == 0 || shift == 16 || shift == 32 || shift == 48
    ensures BitAt(Wrap(was as int - Field(was, shift, 16) * Pow2(shift) + Wrap(imm * Pow2(shift))), k) <==>
              if shift <= k < shift + 16 then BitAt(imm, k - shift) else BitAt(was, k)
  {
    hide BitAt, Pow2;
    var low, part, high := ThreeParts(was, shift);
    ReplacedPart(low, part, high, was, imm, shift);
    hide Field, Wrap;
    SidesBits(low, imm, high, shift, k);
    SidesBits(low, part, high, shift, k);
  }

  lemma ReplacedPart(low: nat, part: nat, high: nat, was: u64, imm: u16, shift: nat)
    requires shift == 0 || shift == 16 || shift == 32 || shift == 48
    requires was == low + (part + high * 0x1_0000) * Pow2(shift) && low < Pow2(shift) && part < 0x1_0000
    requires Field(was, shift, 16) == part
    ensures Wrap(was as int - Field(was, shift, 16) * Pow2(shift) + Wrap(imm * Pow2(shift))) ==
            low + (imm + high * 0x1_0000) * Pow2(shift)
  {
    hide Pow2, Field, Wrap;
    ImmediateFits(imm, shift);
    PartsOf(low, part, imm, high, Pow2(shift));
    NowFits(low, imm, high, Pow2(shift), was, part);
  }

  // Sixteen bits between those below and those above.
  lemma SidesBits(low: nat, part: nat, high: nat, shift: nat, k: nat)
    requires low < Pow2(shift) && part < 0x1_0000
    ensures BitAt(low + (part + high * 0x1_0000) * Pow2(shift), k) <==>
              if k < shift then BitAt(low, k) else if k < shift + 16 then BitAt(part, k - shift)
              else BitAt(high, k - shift - 16)
  {
    SmallPowers();
    hide BitAt, Pow2;
    BitOfSum(low, part + high * 0x1_0000, shift, k);
    if k >= shift {
      BitOfSum(part, high, 16, k - shift);
    }
  }

  lemma ThreeParts(was: u64, shift: nat) returns (low: nat, part: nat, high: nat)
    requires shift == 0 || shift == 16 || shift == 32 || shift == 48
    ensures was == low + (part + high * 0x1_0000) * Pow2(shift)
    ensures low < Pow2(shift) && part < 0x1_0000 && Field(was, shift, 16) == part
  {
    ImmediateFits(0, shift);
    hide Pow2;
    var p := Pow2(shift);
    SplitAt(was, p);
    low, part, high := was % p, was / p % 0x1_0000, was / p / 0x1_0000;
    SplitAt(was / p, 0x1_0000);
  }

  lemma PartsOf(low: nat, part: nat, imm: nat, high: nat, p: nat)
    ensures low + (imm + high * 0x1_0000) * p == low + (part + high * 0x1_0000) * p - part * p + imm * p
  {
  }

  lemma NowFits(low: nat, imm: u16, high: nat, p: nat, was: u64, part: nat)
    requires p > 0 && low < p && (p == 1 || p == 0x1_0000 || p == 0x1_0000_0000 || p == 0x1_0000_0000_0000)
    requires was == low + (part + high * 0x1_0000) * p && part < 0x1_0000
    ensures 0 <= low + (imm + high * 0x1_0000) * p < WORD
    ensures Wrap(low + (imm + high * 0x1_0000) * p) == low + (imm + high * 0x1_0000) * p
  {
  }

  // ---- ADD, ADDS, SUB and SUBS ----

  function ModulusOf(wide: bool): int { if wide then 0x1_0000_0000_0000_0000 else 0x1_0000_0000 }

  // The exact sum or difference of the operands' low parts.
  function ExactSum(subtract: bool, a: u64, b: u64, wide: bool): int {
    var x, y := a % ModulusOf(wide), b % ModulusOf(wide);
    if subtract then x - y else x + y
  }

  function AsSigned(x: u64, wide: bool): int {
    var v := x % ModulusOf(wide);
    if v >= ModulusOf(wide) / 2 then v - ModulusOf(wide) else v
  }

  function SignedSum(subtract: bool, a: u64, b: u64, wide: bool): int {
    if subtract then AsSigned(a, wide) - AsSigned(b, wide) else AsSigned(a, wide) + AsSigned(b, wide)
  }

  // N and Z describe the result, C is the carry of an addition and the missing borrow of a subtraction, and V says that
  // the signed result does not fit.
  predicate SumFlags(t: Registers, subtract: bool, a: u64, b: u64, wide: bool) {
    var m, exact := ModulusOf(wide), ExactSum(subtract, a, b, wide);
    && (t.negative <==> exact % m >= m / 2) && (t.zero <==> exact % m == 0)
    && (t.carry <==> if subtract then exact >= 0 else exact >= m)
    && (t.overflow <==> !(-(m / 2) <= SignedSum(subtract, a, b, wide) < m / 2))
  }

  predicate SameFlags(r: Registers, t: Registers) {
    t.negative == r.negative && t.zero == r.zero && t.carry == r.carry && t.overflow == r.overflow
  }

  lemma SumLaw(subtract: bool, a: u64, b: u64, wide: bool, r: Registers)
    ensures var s := SumOf(subtract, a, b, wide);
            && s.value == ExactSum(subtract, a, b, wide) % ModulusOf(wide)
            && SumFlags(FlagsFrom(r, s), subtract, a, b, wide)
  {
    hide AddWithCarry, Not, Added, ExactSum, SumFlags;
    if subtract {
      AddWithCarryMeans(a, Not(b), 1, wide);
      DifferenceMeans(a, b, wide, r);
    } else {
      AddWithCarryMeans(a, b, 0, wide);
      SumMeans(a, b, wide, r);
    }
  }

  // Both are said of the modulus rather than of the operand size.
  lemma LowParts(a: u64, wide: bool)
    ensures var m, w := ModulusOf(wide), SizeOf(wide);
            Range(w) == m && SignBit(w) == m / 2 && Masked(a, w) == a % m && SignExtended(a, w) == AsSigned(a, wide)
  {
  }

  function SumWith(o: Outcome): Sum { Sum(o.value, o.flags.sign, o.flags.zero, o.flags.carry, o.flags.overflow) }

  lemma SumMeans(a: u64, b: u64, wide: bool, r: Registers)
    ensures var s := SumWith(Added(a, b, false, SizeOf(wide)));
            s.value == ExactSum(false, a, b, wide) % ModulusOf(wide) && SumFlags(FlagsFrom(r, s), false, a, b, wide)
  {
    LowParts(a, wide);
    LowParts(b, wide);
    hide Masked, SignExtended, Range, SignBit, EvenParity, AsSigned, ModulusOf;
  }

  lemma DifferenceMeans(a: u64, b: u64, wide: bool, r: Registers)
    ensures var s := SumWith(Added(a, Not(b), true, SizeOf(wide)));
            s.value == ExactSum(true, a, b, wide) % ModulusOf(wide) && SumFlags(FlagsFrom(r, s), true, a, b, wide)
  {
    var m := ModulusOf(wide);
    LowParts(a, wide);
    LowParts(b, wide);
    MaskedComplement(b, SizeOf(wide));
    SignedComplement(b, wide);
    hide Masked, SignExtended, Range, SignBit, EvenParity, AsSigned, ModulusOf, Not;
    DropMultiple(a % m - b % m, 1, m);
  }

  lemma SignedComplement(b: u64, wide: bool)
    ensures SignExtended(Not(b), SizeOf(wide)) == -1 - AsSigned(b, wide)
  {
    hide Not;
    MaskedComplement(b, SizeOf(wide));
  }

  // The immediate form works on the stack pointer where the index is 31, but for a result that comes with flags, which
  // is dropped. Nothing else changes.
  lemma AddImmediateLaw(r: Registers, subtract: bool, setFlags: bool, rn: RegisterIndex, rd: RegisterIndex, imm: u64,
                        wide: bool)
    ensures var t, a := AddImmediate(r, subtract, setFlags, rn, rd, imm, wide), if rn == 31 then r.sp else r.gpr[rn];
            var v := ExactSum(subtract, a, imm, wide) % ModulusOf(wide);
            && (forall i :: 0 <= i < 32 ==> t.gpr[i] == if i == rd && i != 31 then v else r.gpr[i])
            && t.sp == (if rd == 31 && !setFlags then v else r.sp) && t.pc == r.pc
            && if setFlags then SumFlags(t, subtract, a, imm, wide) else SameFlags(r, t)
  {
    hide AddWithCarry, SumOf, SumFlags, ExactSum;
    var a := ReadReg(r, rn, true);
    SumLaw(subtract, a, imm, wide, r);
    Described(r, AddImmediate(r, subtract, setFlags, rn, rd, imm, wide), subtract, a, imm, wide);
  }

  // The register form has a zero register at index 31.
  lemma AddRegisterLaw(r: Registers, subtract: bool, setFlags: bool, rn: RegisterIndex, rd: RegisterIndex, b: u64,
                       wide: bool)
    ensures var t, a := AddRegister(r, subtract, setFlags, rn, rd, b, wide), if rn == 31 then 0 else r.gpr[rn];
            var v := ExactSum(subtract, a, b, wide) % ModulusOf(wide);
            && (forall i :: 0 <= i < 32 ==> t.gpr[i] == if i == rd && i != 31 then v else r.gpr[i])
            && t.sp == r.sp && t.pc == r.pc
            && if setFlags then SumFlags(t, subtract, a, b, wide) else SameFlags(r, t)
  {
    hide AddWithCarry, SumOf, SumFlags, ExactSum;
    var a := ReadReg(r, rn, false);
    SumLaw(subtract, a, b, wide, r);
    Described(r, AddRegister(r, subtract, setFlags, rn, rd, b, wide), subtract, a, b, wide);
  }

  lemma Described(r: Registers, t: Registers, subtract: bool, a: u64, b: u64, wide: bool)
    requires SumFlags(FlagsFrom(r, SumOf(subtract, a, b, wide)), subtract, a, b, wide)
    ensures SameFlags(t, FlagsFrom(r, SumOf(subtract, a, b, wide))) ==> SumFlags(t, subtract, a, b, wide)
  {
    hide SumOf, ExactSum, SignedSum;
  }
}
