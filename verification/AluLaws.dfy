// What programs rely on: CMP followed by a condition decides a comparison, and chains of ADD/ADC or SUB/SBB compute
// with numbers of any length.

module AluLaws {
  import opened MachineTypes
  import opened Alu
  import opened Bits
  import opened Division
  import Arith128

  // The condition codes of Jcc, SETcc and CMOVcc; an odd code negates the one before it.
  function EvalCond(cond: byte, f: Flags): bool {
    var base := match cond / 2
                case 0 => f.overflow
                case 1 => f.carry
                case 2 => f.zero
                case 3 => f.carry || f.zero
                case 4 => f.sign
                case 5 => f.parity
                case 6 => f.sign != f.overflow
                case 7 => f.zero || f.sign != f.overflow
                case _ => false;
    if cond % 2 == 1 then !base else base
  }

  const COND_B: byte := 0x2
  const COND_AE: byte := 0x3
  const COND_E: byte := 0x4
  const COND_NE: byte := 0x5
  const COND_BE: byte := 0x6
  const COND_A: byte := 0x7
  const COND_L: byte := 0xC
  const COND_GE: byte := 0xD
  const COND_LE: byte := 0xE
  const COND_G: byte := 0xF

  // After CMP (or SUB) of two operands of any width, the ten conditions decide their unsigned order, their equality
  // and their signed order.
  lemma CompareDecides(op: nat, a: u64, b: u64, w: Width, flags: Flags)
    requires op == ALU_CMP || op == ALU_SUB
    ensures var f, x, y := Outcomes(op, a, b, w, flags).flags, Masked(a, w), Masked(b, w);
            && EvalCond(COND_B, f) == (x < y) && EvalCond(COND_AE, f) == (x >= y)
            && EvalCond(COND_BE, f) == (x <= y) && EvalCond(COND_A, f) == (x > y)
            && EvalCond(COND_E, f) == (x == y) && EvalCond(COND_NE, f) == (x != y)
    ensures var f, x, y := Outcomes(op, a, b, w, flags).flags, SignExtended(a, w), SignExtended(b, w);
            && EvalCond(COND_L, f) == (x < y) && EvalCond(COND_GE, f) == (x >= y)
            && EvalCond(COND_LE, f) == (x <= y) && EvalCond(COND_G, f) == (x > y)
  {
    hide Range, SignBit, EvenParity, SignExtended, Fits, Masked, Subtracted;
    DifferenceMeans(a, b, w);
  }

  lemma DifferenceMeans(a: u64, b: u64, w: Width)
    ensures var f := Subtracted(a, b, false, w).flags;
            && (f.carry <==> Masked(a, w) < Masked(b, w)) && (f.zero <==> Masked(a, w) == Masked(b, w))
            && (f.zero <==> SignExtended(a, w) == SignExtended(b, w))
            && (f.sign != f.overflow <==> SignExtended(a, w) < SignExtended(b, w))
  {
    hide Range, SignBit, EvenParity;
    WidthIs(w);
    WrapOnce(Masked(a, w) as int - Masked(b, w), Range(w));
  }

  // The value of a number stored as limbs, least significant first.
  function Number(xs: seq<u64>, w: Width): nat {
    if xs == [] then 0 else
      assert Range(w) * Number(xs[1..], w) >= 0;
      Masked(xs[0], w) + Range(w) * Number(xs[1..], w)
  }

  function Power(w: Width, n: nat): (p: int)
    ensures p >= 1
  {
    if n == 0 then 1 else
      assert Range(w) * Power(w, n - 1) >= 1;
      Range(w) * Power(w, n - 1)
  }

  // One instruction per limb: op for the lowest, next for all the others.
  function Chain(op: nat, next: nat, xs: seq<u64>, ys: seq<u64>, w: Width, f: Flags): (r: (seq<u64>, Flags))
    requires op < 8 && next < 8 && |xs| == |ys|
    ensures |r.0| == |xs|
    decreases |xs|
  {
    if xs == [] then ([], f)
    else
      var o := Outcomes(op, xs[0], ys[0], w, f);
      var rest := Chain(next, next, xs[1..], ys[1..], w, o.flags);
      ([o.value] + rest.0, rest.1)
  }

  lemma MaskedIs(x: u64, w: Width)
    ensures Masked(x, w) < Range(w) && (x < Range(w) ==> Masked(x, w) == x)
  {
  }

  lemma LimbSum(a: u64, b: u64, c: bool, w: Width)
    ensures var o := Added(a, b, c, w);
            && Masked(o.value, w) == o.value
            && o.value + Weight(o.flags.carry, Range(w)) == Masked(a, w) as int + Masked(b, w) + Weight(c, 1)
  {
    hide Range, SignBit, Masked, Added;
    WidthIs(w);
    OutcomeIs(a, b, c, w);
    MaskedIs(a, w); MaskedIs(b, w); MaskedIs(Added(a, b, c, w).value, w);
    WrapOnce(Masked(a, w) as int + Masked(b, w) + Weight(c, 1), Range(w));
  }

  lemma LimbDifference(a: u64, b: u64, c: bool, w: Width)
    ensures var o := Subtracted(a, b, c, w);
            && Masked(o.value, w) == o.value
            && o.value - Weight(o.flags.carry, Range(w)) == Masked(a, w) as int - Masked(b, w) - Weight(c, 1)
  {
    hide Range, SignBit, Masked, Subtracted;
    WidthIs(w);
    OutcomeIs(a, b, c, w);
    MaskedIs(a, w); MaskedIs(b, w); MaskedIs(Subtracted(a, b, c, w).value, w);
    WrapOnce(Masked(a, w) as int - Masked(b, w) - Weight(c, 1), Range(w));
  }

  // With v the low result limb and r the number of the others, each adding up, the whole number does.
  lemma LimbsAddUp(m: int, v: int, x: int, y: int, c0: int, c1: bool, r: int, xs: int, ys: int, c2: bool, p: int)
    requires v + Weight(c1, m) == x + y + c0 && r + Weight(c2, p) == xs + ys + Weight(c1, 1)
    ensures v + m * r + Weight(c2, m * p) == (x + m * xs) + (y + m * ys) + c0
  {
    hide Weight;
    WeightTimes(m, c2, p);
    WeightTimes(m, c1, 1);
    assert m * (r + Weight(c2, p)) == m * (xs + ys + Weight(c1, 1));
  }

  lemma LimbsTakeAway(m: int, v: int, x: int, y: int, c0: int, c1: bool, r: int, xs: int, ys: int, c2: bool, p: int)
    requires v - Weight(c1, m) == x - y - c0 && r - Weight(c2, p) == xs - ys - Weight(c1, 1)
    ensures v + m * r - Weight(c2, m * p) == (x + m * xs) - (y + m * ys) - c0
  {
    hide Weight;
    WeightTimes(m, c2, p);
    WeightTimes(m, c1, 1);
    assert m * (r - Weight(c2, p)) == m * (xs - ys - Weight(c1, 1));
  }

  lemma WeightTimes(m: int, flag: bool, p: int)
    ensures m * Weight(flag, p) == Weight(flag, m * p)
  {
  }

  lemma {:induction false} NumberOf(x: u64, xs: seq<u64>, w: Width)
    ensures Number([x] + xs, w) == Masked(x, w) + Range(w) * Number(xs, w)
  {
    assert ([x] + xs)[1..] == xs;
  }

  lemma {:induction false} NumberStep(xs: seq<u64>, w: Width)
    requires xs != []
    ensures Number(xs, w) == Masked(xs[0], w) + Range(w) * Number(xs[1..], w)
  {
  }

  lemma PlainOutcomes(a: u64, b: u64, w: Width, f: Flags)
    ensures Outcomes(ALU_ADC, a, b, w, f) == Added(a, b, f.carry, w)
    ensures Outcomes(ALU_SBB, a, b, w, f) == Subtracted(a, b, f.carry, w)
  {
  }

  lemma {:induction false} ChainStep(op: nat, xs: seq<u64>, ys: seq<u64>, w: Width, f: Flags)
    requires op < 8 && |xs| == |ys| && xs != []
    ensures var o := Outcomes(op, xs[0], ys[0], w, f);
            var rest := Chain(op, op, xs[1..], ys[1..], w, o.flags);
            Chain(op, op, xs, ys, w, f) == ([o.value] + rest.0, rest.1)
    ensures Power(w, |xs|) == Range(w) * Power(w, |xs| - 1)
  {
  }

  // An ADC chain computes the sum of two numbers of any length and an incoming carry; CF is the outgoing carry.
  lemma {:induction false} AdcChainSums(xs: seq<u64>, ys: seq<u64>, w: Width, f: Flags)
    requires |xs| == |ys|
    ensures var (r, g) := Chain(ALU_ADC, ALU_ADC, xs, ys, w, f);
            Number(r, w) + Weight(g.carry, Power(w, |xs|)) == Number(xs, w) + Number(ys, w) + Weight(f.carry, 1)
    decreases |xs|
  {
    if xs != [] {
      hide Outcomes, Added, Range, Masked, Weight, Number, Chain, Power;
      PlainOutcomes(xs[0], ys[0], w, f);
      var o := Outcomes(ALU_ADC, xs[0], ys[0], w, f);
      var (r, g) := Chain(ALU_ADC, ALU_ADC, xs[1..], ys[1..], w, o.flags);
      ChainStep(ALU_ADC, xs, ys, w, f);
      LimbSum(xs[0], ys[0], f.carry, w);
      AdcChainSums(xs[1..], ys[1..], w, o.flags);
      NumberOf(o.value, r, w); NumberOf(xs[0], xs[1..], w); NumberOf(ys[0], ys[1..], w);
      assert xs == [xs[0]] + xs[1..] && ys == [ys[0]] + ys[1..];
      LimbsAddUp(Range(w), o.value, Masked(xs[0], w), Masked(ys[0], w), Weight(f.carry, 1), o.flags.carry,
                 Number(r, w), Number(xs[1..], w), Number(ys[1..], w), g.carry, Power(w, |xs| - 1));
    }
  }

  // An SBB chain computes the difference of two numbers of any length less an incoming borrow; CF is the borrow.
  lemma {:induction false} SbbChainDiffers(xs: seq<u64>, ys: seq<u64>, w: Width, f: Flags)
    requires |xs| == |ys|
    ensures var (r, g) := Chain(ALU_SBB, ALU_SBB, xs, ys, w, f);
            Number(r, w) - Weight(g.carry, Power(w, |xs|)) == Number(xs, w) - Number(ys, w) - Weight(f.carry, 1)
    decreases |xs|
  {
    if xs != [] {
      hide Outcomes, Subtracted, Range, Masked, Weight, Number, Chain, Power;
      PlainOutcomes(xs[0], ys[0], w, f);
      var o := Outcomes(ALU_SBB, xs[0], ys[0], w, f);
      var (r, g) := Chain(ALU_SBB, ALU_SBB, xs[1..], ys[1..], w, o.flags);
      ChainStep(ALU_SBB, xs, ys, w, f);
      LimbDifference(xs[0], ys[0], f.carry, w);
      SbbChainDiffers(xs[1..], ys[1..], w, o.flags);
      NumberOf(o.value, r, w);
      NumberStep(xs, w);
      NumberStep(ys, w);
      LimbsTakeAway(Range(w), o.value, Masked(xs[0], w), Masked(ys[0], w), Weight(f.carry, 1), o.flags.carry,
                    Number(r, w), Number(xs[1..], w), Number(ys[1..], w), g.carry, Power(w, |xs| - 1));
    }
  }

  lemma {:induction false} NumberBound(xs: seq<u64>, w: Width)
    ensures Number(xs, w) < Power(w, |xs|)
  {
    if xs != [] {
      hide Range, Masked;
      NumberBound(xs[1..], w);
      MaskedIs(xs[0], w);
      assert Range(w) * Number(xs[1..], w) <= Range(w) * (Power(w, |xs| - 1) - 1);
      assert Range(w) * (Power(w, |xs| - 1) - 1) == Range(w) * Power(w, |xs| - 1) - Range(w);
    }
  }

  // Starting a chain with the plain instruction is starting it with no carry.
  lemma {:induction false} FirstLimb(op: nat, next: nat, xs: seq<u64>, ys: seq<u64>, w: Width, f: Flags)
    requires (op == ALU_ADD && next == ALU_ADC) || (op == ALU_SUB && next == ALU_SBB)
    requires |xs| == |ys| && xs != []
    ensures Chain(op, next, xs, ys, w, f) == Chain(next, next, xs, ys, w, f.(carry := false))
  {
  }

  // ADD of the lowest limbs and ADC of the rest, whatever the flags were: the exact sum, CF the carry out of it.
  lemma {:induction false} AddChainExact(xs: seq<u64>, ys: seq<u64>, w: Width, f: Flags)
    requires |xs| == |ys| && xs != []
    ensures var (r, g) := Chain(ALU_ADD, ALU_ADC, xs, ys, w, f);
            && Number(r, w) + Weight(g.carry, Power(w, |xs|)) == Number(xs, w) + Number(ys, w)
            && (g.carry <==> Number(xs, w) + Number(ys, w) >= Power(w, |xs|))
  {
    hide Outcomes, Number, Power;
    FirstLimb(ALU_ADD, ALU_ADC, xs, ys, w, f);
    AdcChainSums(xs, ys, w, f.(carry := false));
    NumberBound(Chain(ALU_ADD, ALU_ADC, xs, ys, w, f).0, w);
  }

  // SUB of the lowest limbs and SBB of the rest: the exact difference, CF set exactly when it is negative.
  lemma {:induction false} SubChainExact(xs: seq<u64>, ys: seq<u64>, w: Width, f: Flags)
    requires |xs| == |ys| && xs != []
    ensures var (r, g) := Chain(ALU_SUB, ALU_SBB, xs, ys, w, f);
            && Number(r, w) - Weight(g.carry, Power(w, |xs|)) == Number(xs, w) - Number(ys, w)
            && (g.carry <==> Number(xs, w) < Number(ys, w))
  {
    hide Outcomes, Number, Power;
    FirstLimb(ALU_SUB, ALU_SBB, xs, ys, w, f);
    SbbChainDiffers(xs, ys, w, f.(carry := false));
    NumberBound(Chain(ALU_SUB, ALU_SBB, xs, ys, w, f).0, w);
  }

  // Subtracting an addend from a sum gives the other one back, and borrows exactly when the addition carried.
  lemma {:induction false} SubUndoesAdd(xs: seq<u64>, ys: seq<u64>, w: Width, f: Flags)
    requires |xs| == |ys| && xs != []
    ensures var (sum, g) := Chain(ALU_ADD, ALU_ADC, xs, ys, w, f);
            var (back, h) := Chain(ALU_SUB, ALU_SBB, sum, ys, w, g);
            Number(back, w) == Number(xs, w) && h.carry == g.carry
  {
    hide Outcomes, Number, Power, Chain;
    var (sum, g) := Chain(ALU_ADD, ALU_ADC, xs, ys, w, f);
    AddChainExact(xs, ys, w, f);
    SubChainExact(sum, ys, w, g);
    NumberBound(xs, w);
    NumberBound(ys, w);
    NumberBound(Chain(ALU_SUB, ALU_SBB, sum, ys, w, g).0, w);
  }

  // The stored low part of a signed product of operands narrower than a register, and the flag that says it is not all.
  function ImulLow(product: int, w: Width): u64 { Masked(Wrap(product), w) }

  predicate ImulNarrowOverflows(product: int, w: Width) { SignExtended(ImulLow(product, w), w) != product }

  // The product never leaves a signed 64-bit register, and CF and OF tell exactly whether it leaves the operand size.
  lemma ImulNarrowExact(a: u64, b: u64, w: Width)
    requires w < 8
    ensures var product := SignExtended(a, w) * SignExtended(b, w);
            Arith128.FitsSigned(product) && (ImulNarrowOverflows(product, w) <==> !Fits(product, w))
  {
    Arith128.SignedProductBound(SignExtended(a, w), SignExtended(b, w), 0x8000_0000);
    LowPartOf(SignExtended(a, w) * SignExtended(b, w), w);
  }

  lemma LowPartOf(product: int, w: Width)
    ensures ImulNarrowOverflows(product, w) <==> !Fits(product, w)
  {
    WidthIs(w);
    assert Range(w) * (WORD / Range(w)) == WORD;
    hide Range, SignBit;
    ModMod(product, Range(w), WORD / Range(w));
    SignedRemainder(product, SignBit(w));
  }

  lemma SignedRemainder(p: int, h: int)
    requires h > 0
    ensures var r := p % (2 * h); (if r >= h then r - 2 * h else r) == p <==> -h <= p < h
  {
    if 0 <= p < h {
      Quotient(p, 2 * h, 0, p);
    } else if -h <= p < 0 {
      Quotient(p, 2 * h, -1, p + 2 * h);
    }
  }

  // ---- each operation code ----

  // The arithmetic codes: 0 adds and 2 adds with the carry, 5 and 7 subtract, 3 subtracts with the borrow.
  lemma ArithmeticCodes(a: u64, b: u64, w: Width, f: Flags)
    ensures var x: int, y: int, c := a % Range(w), b % Range(w), if f.carry then 1 else 0;
            && Outcomes(0, a, b, w, f).value == (x + y) % Range(w)
            && Outcomes(2, a, b, w, f).value == (x + y + c) % Range(w)
            && Outcomes(3, a, b, w, f).value == (x - y - c) % Range(w)
            && Outcomes(5, a, b, w, f).value == Outcomes(7, a, b, w, f).value == (x - y) % Range(w)
  {
    hide SignExtended, Fits, EvenParity;
  }

  lemma RangeIsPower(w: Width)
    ensures Range(w) == Pow2(8 * w)
  {
    assert Pow2(0) == 1;
    hide Pow2;
    Pow2Step8(0);
    Pow2Values();
    Pow2Step8(8);
    Pow2Step8(24);
    Pow2Step8(16);
  }

  // The bitwise codes, bit by bit: 1 is OR, 4 is AND and 6 is XOR, cut to the operand size.
  lemma BitwiseCodes(a: u64, b: u64, w: Width, f: Flags, k: nat)
    ensures BitAt(Outcomes(1, a, b, w, f).value, k) <==> k < 8 * w && (BitAt(a, k) || BitAt(b, k))
    ensures BitAt(Outcomes(4, a, b, w, f).value, k) <==> k < 8 * w && BitAt(a, k) && BitAt(b, k)
    ensures BitAt(Outcomes(6, a, b, w, f).value, k) <==> k < 8 * w && BitAt(a, k) != BitAt(b, k)
  {
    hide BitAt, And, Or, Xor, Pow2, EvenParity, Range, SignBit;
    RangeIsPower(w);
    OrBit(a, b, k);
    AndBit(a, b, k);
    XorBit(a, b, k);
    LowBits(Or64(a, b), 8 * w, k);
    LowBits(And64(a, b), 8 * w, k);
    LowBits(Xor64(a, b), 8 * w, k);
  }

  // Their flags: CF, OF and AF are clear, ZF tells a zero result and SF its top bit.
  lemma BitwiseFlags(op: nat, a: u64, b: u64, w: Width, f: Flags)
    requires op == 1 || op == 4 || op == 6
    ensures var o := Outcomes(op, a, b, w, f);
            && !o.flags.carry && !o.flags.overflow && !o.flags.half
            && (o.flags.zero <==> o.value == 0) && (o.flags.sign <==> BitAt(o.value, 8 * w - 1))
  {
    hide BitAt, And, Or, Xor, Pow2, EvenParity, Range, SignBit;
    var o := Outcomes(op, a, b, w, f);
    MaskedIs(if op == 1 then Or64(a, b) else if op == 4 then And64(a, b) else Xor64(a, b), w);
    SignBitTest(o.value, w);
  }

  // XOR of a register with itself clears it and sets ZF; OR and AND of a register with itself leave it as it is.
  lemma WithItself(a: u64, w: Width, f: Flags)
    ensures Outcomes(6, a, a, w, f).value == 0 && Outcomes(6, a, a, w, f).flags.zero
    ensures Outcomes(1, a, a, w, f).value == Outcomes(4, a, a, w, f).value == a % Range(w)
  {
    hide And, Or, Xor, EvenParity, SignBit;
    BitwiseSame(a);
  }

  // O and NO, S and NS after a subtraction: the signed difference does not fit, and its top bit.
  lemma SignConditions(a: u64, b: u64, w: Width, f: Flags)
    ensures var o := Outcomes(5, a, b, w, f);
            var d := SignExtended(a, w) - SignExtended(b, w);
            && EvalCond(0x0, o.flags) == !(-(SignBit(w) as int) <= d < SignBit(w))
            && EvalCond(0x1, o.flags) == !EvalCond(0x0, o.flags)
            && EvalCond(0x8, o.flags) == BitAt(o.value, 8 * w - 1) && EvalCond(0x9, o.flags) == !EvalCond(0x8, o.flags)
  {
    hide BitAt, EvenParity, SignExtended, Pow2;
    SignBitTest(Outcomes(5, a, b, w, f).value, w);
  }
}
