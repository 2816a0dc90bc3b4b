// The x86 integer ALU: the flags are computed with bit tricks on registers; the specification says what they mean
// as facts about integers.

module Alu {
  import opened MachineTypes
  import opened Bits
  import opened Division

  function SignBitIndex(w: Width): nat { 8 * w - 1 }

  // One more than the largest value of an operand, and the value of its sign bit.
  function Range(w: Width): int {
    match w
    case 1 => 0x100
    case 2 => 0x1_0000
    case 4 => 0x1_0000_0000
    case _ => 0x1_0000_0000_0000_0000
  }

  function SignBit(w: Width): u64 {
    match w
    case 1 => 0x80
    case 2 => 0x8000
    case 4 => 0x8000_0000
    case _ => 0x8000_0000_0000_0000
  }

  // x & _mask(w)
  function Masked(x: u64, w: Width): u64 { x % Range(w) }

  function SignExtended(x: u64, w: Width): int {
    var v := Masked(x, w);
    if v >= SignBit(w) then v - Range(w) else v
  }

  predicate Fits(x: int, w: Width) { -(SignBit(w) as int) <= x < SignBit(w) }

  // The arithmetic flags CF, PF, AF, ZF, SF and OF.
  datatype Flags = Flags(carry: bool, parity: bool, half: bool, zero: bool, sign: bool, overflow: bool)

  datatype Outcome = Outcome(value: u64, flags: Flags)

  // How many of the low n bits of v are set.
  function OnesBelow(v: nat, n: nat): nat {
    if n == 0 then 0 else OnesBelow(v, n - 1) + if BitAt(v, n - 1) then 1 else 0
  }

  predicate EvenParity(v: u64) { OnesBelow(v % 256, 8) % 2 == 0 }

  // ---- what each instruction means ----

  // a + b + carry: CF when the unsigned sum does not fit, OF when the signed sum does not, AF when the low digits
  // carry.
  function Added(a: u64, b: u64, carry: bool, w: Width): Outcome {
    var x, y := Masked(a, w), Masked(b, w);
    var c := if carry then 1 else 0;
    var r := (x + y + c) % Range(w);
    Outcome(r, Flags(x as int + y + c >= Range(w), EvenParity(r), x % 16 + y % 16 + c >= 16, r == 0, r >= SignBit(w),
                     !Fits(SignExtended(a, w) + SignExtended(b, w) + c, w)))
  }

  function Subtracted(a: u64, b: u64, borrow: bool, w: Width): Outcome {
    var x: int, y: int := Masked(a, w), Masked(b, w);
    var c := if borrow then 1 else 0;
    var r := (x - y - c) % Range(w);
    Outcome(r, Flags(x - y - c < 0, EvenParity(r), x % 16 - y % 16 - c < 0, r == 0, r >= SignBit(w),
                     !Fits(SignExtended(a, w) - SignExtended(b, w) - c, w)))
  }

  function Logical(r: u64, w: Width): Outcome {
    var v := Masked(r, w);
    Outcome(v, Flags(false, EvenParity(v), false, v == 0, v >= SignBit(w), false))
  }

  const ALU_ADD: nat := 0
  const ALU_OR: nat := 1
  const ALU_ADC: nat := 2
  const ALU_SBB: nat := 3
  const ALU_AND: nat := 4
  const ALU_SUB: nat := 5
  const ALU_XOR: nat := 6
  const ALU_CMP: nat := 7

  function Outcomes(op: nat, a: u64, b: u64, w: Width, flags: Flags): Outcome
    requires op < 8
  {
    if op == ALU_ADD then Added(a, b, false, w)
    else if op == ALU_ADC then Added(a, b, flags.carry, w)
    else if op == ALU_SBB then Subtracted(a, b, flags.carry, w)
    else if op == ALU_SUB || op == ALU_CMP then Subtracted(a, b, false, w)
    else Logical(if op == ALU_OR then Or64(a, b) else if op == ALU_AND then And64(a, b) else Xor64(a, b), w)
  }

  function And64(x: u64, y: u64): u64 { Pow2Values(); BitwiseBounds(x, y, 64); And(x, y) }
  function Or64(x: u64, y: u64): u64 { Pow2Values(); BitwiseBounds(x, y, 64); Or(x, y) }
  function Xor64(x: u64, y: u64): u64 { Pow2Values(); BitwiseBounds(x, y, 64); Xor(x, y) }

  // ---- the bit tricks ----

  lemma {:induction false} SignBitTest(x: u64, w: Width)
    requires x < Range(w)
    ensures BitAt(x, SignBitIndex(w)) <==> x >= SignBit(w)
  {
    hide BitAt, Pow2;
    Pow2Values();
    TopBit(x, SignBitIndex(w));
  }

  lemma {:induction false} NotBit(x: u64, k: nat)
    requires k < 64
    ensures BitAt(Not(x), k) <==> !BitAt(x, k)
  {
    hide BitAt, Pow2;
    Pow2Values();
    ComplementBit(x, 64, k);
  }

  // ~(a ^ b) & (a ^ r) & sign: the operands' signs agree and the result's differs.
  lemma SameSignTest(x: u64, y: u64, r: u64, w: Width)
    requires x < Range(w) && y < Range(w) && r < Range(w)
    ensures And64(And64(Not(Xor64(x, y)), Xor64(x, r)), SignBit(w)) != 0 <==>
            (x >= SignBit(w)) == (y >= SignBit(w)) && (x >= SignBit(w)) != (r >= SignBit(w))
  {
    hide BitAt, And, Xor, Pow2;
    var k := SignBitIndex(w);
    SignBitTest(x, w); SignBitTest(y, w); SignBitTest(r, w);
    MaskIsSignBit(And64(Not(Xor64(x, y)), Xor64(x, r)), w);
    AndBit(Not(Xor64(x, y)), Xor64(x, r), k);
    NotBit(Xor64(x, y), k);
    XorBit(x, y, k);
    XorBit(x, r, k);
  }

  lemma {:induction false} MaskIsSignBit(z: u64, w: Width)
    ensures And(z, SignBit(w)) != 0 <==> BitAt(z, SignBitIndex(w))
  {
    Pow2Values();
    MaskTestsBit(z, SignBitIndex(w));
  }

  // (a ^ b) & (a ^ r) & sign: the operands' signs differ and so do the first operand's and the result's.
  lemma DifferentSignTest(x: u64, y: u64, r: u64, w: Width)
    requires x < Range(w) && y < Range(w) && r < Range(w)
    ensures And64(And64(Xor64(x, y), Xor64(x, r)), SignBit(w)) != 0 <==>
            (x >= SignBit(w)) != (y >= SignBit(w)) && (x >= SignBit(w)) != (r >= SignBit(w))
  {
    hide BitAt, And, Xor, Pow2;
    var k := SignBitIndex(w);
    SignBitTest(x, w); SignBitTest(y, w); SignBitTest(r, w);
    MaskIsSignBit(And64(Xor64(x, y), Xor64(x, r)), w);
    AndBit(Xor64(x, y), Xor64(x, r), k);
    XorBit(x, y, k);
    XorBit(x, r, k);
  }

  lemma {:induction false} FourthBit(x: nat)
    ensures And(x, 0x10) != 0 <==> x / 16 % 2 == 1
    ensures BitAt(x, 4) <==> x / 16 % 2 == 1
  {
    Pow2Values();
    MaskTestsBit(x, 4);
    assert BitAt(x, 4) == BitAt(x / 2, 3) == BitAt(x / 2 / 2, 2) == BitAt(x / 2 / 2 / 2, 1) ==
             BitAt(x / 2 / 2 / 2 / 2, 0);
    assert x / 2 / 2 / 2 / 2 == x / 16;
  }

  // (a ^ b ^ r) & 0x10: bit 4 of the sum is not what bits 4 of the operands alone give, so the low digits carried.
  lemma HalfCarryTest(x: u64, y: u64, r: u64)
    ensures And64(Xor64(Xor64(x, y), r), 0x10) != 0 <==> (x / 16 % 2 + y / 16 % 2 + r / 16 % 2) % 2 == 1
  {
    hide BitAt, And, Xor, Pow2;
    FourthBit(Xor64(Xor64(x, y), r));
    FourthBit(x); FourthBit(y); FourthBit(r);
    XorBit(Xor64(x, y), r, 4);
    XorBit(x, y, 4);
    OddSum(x / 16 % 2, y / 16 % 2, r / 16 % 2);
  }

  lemma OddSum(p: int, q: int, s: int)
    requires 0 <= p <= 1 && 0 <= q <= 1 && 0 <= s <= 1
    ensures (p + q + s) % 2 == 1 <==> ((p == 1) != (q == 1)) != (s == 1)
  {
  }

  lemma WrapOnce(z: int, m: int)
    requires m > 0 && -m <= z < 2 * m
    ensures z % m == if z < 0 then z + m else if z >= m then z - m else z
  {
  }

  lemma WidthIs(w: Width)
    ensures Range(w) == 2 * SignBit(w) as int && SignBit(w) >= 0x80 && (w == 8 <==> Range(w) == WORD)
  {
  }

  lemma SumOverflows(a: u64, b: u64, c: int, w: Width)
    requires 0 <= c <= 1
    ensures var x: int, y: int := Masked(a, w), Masked(b, w);
            var r := (x + y + c) % Range(w);
            !Fits(SignExtended(a, w) + SignExtended(b, w) + c, w) <==>
            (x >= SignBit(w)) == (y >= SignBit(w)) && (x >= SignBit(w)) != (r >= SignBit(w))
  {
    hide Range, SignBit;
    WidthIs(w);
    WrapOnce(Masked(a, w) as int + Masked(b, w) + c, Range(w));
  }

  lemma DifferenceOverflows(a: u64, b: u64, c: int, w: Width)
    requires 0 <= c <= 1
    ensures var x: int, y: int := Masked(a, w), Masked(b, w);
            var r := (x - y - c) % Range(w);
            !Fits(SignExtended(a, w) - SignExtended(b, w) - c, w) <==>
            (x >= SignBit(w)) != (y >= SignBit(w)) && (x >= SignBit(w)) != (r >= SignBit(w))
  {
    hide Range, SignBit;
    WidthIs(w);
    WrapOnce(Masked(a, w) as int - Masked(b, w) - c, Range(w));
  }

  // Adding or subtracting low digits first, the carry or borrow moves into the next digit.
  lemma CarryBySixteens(x: int, y: int)
    ensures (x + y) / 16 == x / 16 + y / 16 + if x % 16 + y % 16 >= 16 then 1 else 0
    ensures (x - y) / 16 == x / 16 - y / 16 - if x % 16 - y % 16 < 0 then 1 else 0
  {
  }

  // The carry out of the low digits shows in bit 4 of the sum, and a borrow in bit 4 of the difference.
  lemma HalfCarry(x: int, y: int, r: int, w: Width)
    requires 0 <= x < Range(w) && 0 <= y < Range(w) && r == (x + y) % Range(w)
    ensures (x / 16 % 2 + y / 16 % 2 + r / 16 % 2) % 2 == 1 <==> x % 16 + y % 16 >= 16
  {
    var n := Range(w) / 32;
    assert Range(w) == 32 * n;
    hide Range;
    WrapOnce(x + y, Range(w));
    CarryBit(x, y, r, n);
  }

  lemma HalfBorrow(x: int, y: int, r: int, w: Width)
    requires 0 <= x < Range(w) && 0 <= y < Range(w) && r == (x - y) % Range(w)
    ensures (x / 16 % 2 + y / 16 % 2 + r / 16 % 2) % 2 == 1 <==> x % 16 - y % 16 < 0
  {
    var n := Range(w) / 32;
    assert Range(w) == 32 * n;
    hide Range;
    WrapOnce(x - y, Range(w));
    BorrowBit(x, y, r, n);
  }

  lemma CarryBit(x: int, y: int, r: int, n: int)
    requires r == x + y || r == x + y - 32 * n
    ensures (x / 16 % 2 + y / 16 % 2 + r / 16 % 2) % 2 == 1 <==> x % 16 + y % 16 >= 16
  {
    CarryBySixteens(x, y);
    DropsEven(x + y, n);
    ParityOut(x / 16, y / 16, if x % 16 + y % 16 >= 16 then 1 else 0);
  }

  lemma BorrowBit(x: int, y: int, r: int, n: int)
    requires r == x - y || r == x - y + 32 * n
    ensures (x / 16 % 2 + y / 16 % 2 + r / 16 % 2) % 2 == 1 <==> x % 16 - y % 16 < 0
  {
    CarryBySixteens(x, y);
    DropsEven(x - y, n);
    ParityOut(x / 16, y / 16, if x % 16 - y % 16 < 0 then 1 else 0);
  }

  lemma ParityOut(p: int, q: int, c: int)
    requires 0 <= c <= 1
    ensures (p % 2 + q % 2 + (p + q + c) % 2) % 2 == c && (p % 2 + q % 2 + (p - q - c) % 2) % 2 == c
  {
    var pb, qb := p % 2, q % 2;
    assert (p + q + c) % 2 == (pb + qb + c) % 2 by {
      assert p + q + c == 2 * (p / 2 + q / 2) + (pb + qb + c);
    }
    assert (p - q - c) % 2 == (pb - qb - c) % 2 by {
      assert p - q - c == 2 * (p / 2 - q / 2) + (pb - qb - c);
    }
  }

  lemma DropsEven(z: int, n: int)
    ensures (z - 32 * n) / 16 % 2 == z / 16 % 2 == (z + 32 * n) / 16 % 2
  {
    DropMultiple(z % 16, 0, 16);
    Quotient(z + 32 * n, 16, z / 16 + 2 * n, z % 16);
    Quotient(z - 32 * n, 16, z / 16 - 2 * n, z % 16);
    DropMultiple(z / 16, n, 2);
    DropMultiple(z / 16, -n, 2);
  }

  lemma MaskedBelow(x: u64, w: Width)
    ensures Masked(x, w) < Range(w)
  {
  }

  // The sum's flags with the bit tricks in place of their meanings.
  lemma AddedByBits(a: u64, b: u64, c: u64, w: Width)
    requires c <= 1
    ensures var x, y, r := Masked(a, w), Masked(b, w), Masked((a as int + b + c) % WORD, w);
            && x < Range(w) && y < Range(w) && r < Range(w) && r == (x as int + y + c) % Range(w)
            && Added(a, b, c == 1, w).flags ==
               Flags(x as int + y + c >= Range(w), EvenParity(r), x % 16 + y % 16 + c >= 16, r == 0,
                     And64(r, SignBit(w)) != 0, And64(And64(Not(Xor64(x, y)), Xor64(x, r)), SignBit(w)) != 0)
  {
    hide BitAt, And, Xor, Pow2, EvenParity, SignExtended, Fits, Range, SignBit, Xor64, Masked;
    WidthIs(w);
    MaskedBelow(a, w);
    MaskedBelow(b, w);
    MaskedBelow((a as int + b + c) % WORD, w);
    MaskedSum(a, b, c, w);
    var x, y, r := Masked(a, w), Masked(b, w), Masked((a as int + b + c) % WORD, w);
    SameSignTest(x, y, r, w);
    SumOverflows(a, b, c, w);
    MaskIsSignBit(r, w);
    SignBitTest(r, w);
  }

  lemma SubtractedByBits(a: u64, b: u64, c: u64, w: Width)
    requires c <= 1
    ensures var x, y, r := Masked(a, w), Masked(b, w), Masked((a as int - b - c) % WORD, w);
            && x < Range(w) && y < Range(w) && r < Range(w) && r == (x as int - y - c) % Range(w)
            && Subtracted(a, b, c == 1, w).flags ==
               Flags(x as int - y - c < 0, EvenParity(r), x as int % 16 - y % 16 - c < 0, r == 0,
                     And64(r, SignBit(w)) != 0, And64(And64(Xor64(x, y), Xor64(x, r)), SignBit(w)) != 0)
  {
    hide BitAt, And, Xor, Pow2, EvenParity, SignExtended, Fits, Range, SignBit, Xor64, Masked;
    WidthIs(w);
    MaskedBelow(a, w);
    MaskedBelow(b, w);
    MaskedBelow((a as int - b - c) % WORD, w);
    MaskedSum(a, b, -(c as int), w);
    var x, y, r := Masked(a, w), Masked(b, w), Masked((a as int - b - c) % WORD, w);
    DifferentSignTest(x, y, r, w);
    DifferenceOverflows(a, b, c, w);
    MaskIsSignBit(r, w);
    SignBitTest(r, w);
  }

  // The flags live in the registers; each instruction replaces all six.
  class X86Alu {
    var flags: Flags

    constructor (flags: Flags)
      ensures this.flags == flags
    {
      this.flags := flags;
    }

    method Parity(v: byte) returns (even: bool)
      ensures even == EvenParity(v)
    {
      hide And, BitAt, Pow2;
      var count := 0;
      for i := 0 to 8
        invariant count == OnesBelow(v, i)
      {
        MaskTestsBit(v, i);
        if And(v, Pow2(i)) != 0 {
          count := count + 1;
        }
      }
      even := count % 2 == 0;
    }

    method SetFlagsAdd(a: u64, b: u64, res: u64, w: Width)
      requires res == (a as int + b) % WORD
      modifies this
      ensures flags == Added(a, b, false, w).flags
    {
      hide BitAt, And, Pow2, EvenParity, Range, SignBit, Masked, Xor64, Added, Subtracted;
      WidthIs(w);
      AddedByBits(a, b, 0, w);
      var x, y, r := Masked(a, w), Masked(b, w), Masked(res, w);
      var carry := if w < 8 then (x as int + y) / Range(w) % 2 != 0 else r < x;
      CarryTest(x, y, 0, Range(w));
      var overflow := And64(And64(Not(Xor64(x, y)), Xor64(x, r)), SignBit(w)) != 0;
      var half := And64(Xor64(Xor64(x, y), r), 0x10) != 0;
      HalfCarryTest(x, y, r);
      HalfCarry(x, y, r, w);
      var sign := And64(r, SignBit(w)) != 0;
      ParityOfLowByte(r);
      var parity := Parity(r % 256);
      flags := Flags(carry, parity, half, r == 0, sign, overflow);
    }

    method SetFlagsSub(a: u64, b: u64, res: u64, w: Width)
      requires res == (a as int - b) % WORD
      modifies this
      ensures flags == Subtracted(a, b, false, w).flags
    {
      hide BitAt, And, Pow2, EvenParity, Range, SignBit, Masked, Xor64, Added, Subtracted;
      WidthIs(w);
      SubtractedByBits(a, b, 0, w);
      var x, y, r := Masked(a, w), Masked(b, w), Masked(res, w);
      var overflow := And64(And64(Xor64(x, y), Xor64(x, r)), SignBit(w)) != 0;
      var half := And64(Xor64(Xor64(x, y), r), 0x10) != 0;
      HalfCarryTest(x, y, r);
      HalfBorrow(x, y, r, w);
      var sign := And64(r, SignBit(w)) != 0;
      ParityOfLowByte(r);
      var parity := Parity(r % 256);
      flags := Flags(x < y, parity, half, r == 0, sign, overflow);
    }

    method SetFlagsAdc(a: u64, b: u64, carry: u64, res: u64, w: Width)
      requires carry <= 1 && res == (a as int + b + carry) % WORD
      modifies this
      ensures flags == Added(a, b, carry == 1, w).flags
    {
      hide BitAt, And, Pow2, Not, EvenParity, Range, SignBit, Masked, Xor64, Added, Subtracted;
      WidthIs(w);
      AddedByBits(a, b, carry, w);
      var x, y, r := Masked(a, w), Masked(b, w), Masked(res, w);
      var carryOut;
      CarryTest(x, y, carry, Range(w));
      if w < 8 {
        carryOut := (x as int + y + carry) / Range(w) % 2 != 0;
      } else {
        var low := (x as int + y) % WORD;
        carryOut := low < x || (low + carry) % WORD < low;
      }
      assert carryOut <==> x as int + y + carry >= Range(w);
      var overflow := And64(And64(Not(Xor64(x, y)), Xor64(x, r)), SignBit(w)) != 0;
      var half := And64(x % 16 + y % 16 + carry, 0x10) != 0;
      FourthBit(x % 16 + y % 16 + carry);
      LowCarry(x % 16, y % 16, carry);
      var sign := And64(r, SignBit(w)) != 0;
      ParityOfLowByte(r);
      var parity := Parity(r % 256);
      flags := Flags(carryOut, parity, half, r == 0, sign, overflow);
    }

    method SetFlagsSbb(a: u64, b: u64, borrow: u64, res: u64, w: Width)
      requires borrow <= 1 && res == (a as int - b - borrow) % WORD
      modifies this
      ensures flags == Subtracted(a, b, borrow == 1, w).flags
    {
      hide BitAt, And, Pow2, EvenParity, Range, SignBit, Masked, Xor64, Added, Subtracted;
      WidthIs(w);
      SubtractedByBits(a, b, borrow, w);
      var x, y, r := Masked(a, w), Masked(b, w), Masked(res, w);
      var borrowOut := if borrow != 0 then x <= y else x < y;
      var overflow := And64(And64(Xor64(x, y), Xor64(x, r)), SignBit(w)) != 0;
      var low: u64 := (x as int % 16 - y % 16 - borrow) % WORD;
      var half := And64(low, 0x10) != 0;
      FourthBit(low);
      LowBorrow(x % 16, y % 16, borrow);
      var sign := And64(r, SignBit(w)) != 0;
      ParityOfLowByte(r);
      var parity := Parity(r % 256);
      flags := Flags(borrowOut, parity, half, r == 0, sign, overflow);
    }

    method SetFlagsLogic(res: u64, w: Width)
      modifies this
      ensures flags == Logical(res, w).flags
    {
      hide BitAt, And, Xor, Pow2, EvenParity, Range, SignBit;
      WidthIs(w);
      var r := Masked(res, w);
      var sign := And64(r, SignBit(w)) != 0;
      MaskIsSignBit(r, w);
      SignBitTest(r, w);
      ParityOfLowByte(r);
      var parity := Parity(r % 256);
      flags := Flags(false, parity, false, r == 0, sign, false);
    }

    // INC and DEC: the flags of adding or subtracting 1, except that CF stays what it was.
    method SetFlagsIncDec(a: u64, res: u64, w: Width, increment: bool)
      requires res == if increment then (a as int + 1) % WORD else (a as int - 1) % WORD
      modifies this
      ensures flags ==
                (if increment then Added(a, 1, false, w)
                 else Subtracted(a, 1, false, w)).flags.(carry := old(flags).carry)
    {
      hide BitAt, And, Pow2, Not, EvenParity, Range, SignBit, Masked, Xor64, Added, Subtracted;
      WidthIs(w);
      OneIsOne(w);
      AddedByBits(a, 1, 0, w);
      SubtractedByBits(a, 1, 0, w);
      var x, r := Masked(a, w), Masked(res, w);
      var signs := if increment then Not(Xor64(x, 1)) else Xor64(x, 1);
      var overflow := And64(And64(signs, Xor64(x, r)), SignBit(w)) != 0;
      var half := And64(Xor64(Xor64(x, 1), r), 0x10) != 0;
      HalfCarryTest(x, 1, r);
      if increment {
        HalfCarry(x, 1, r, w);
      } else {
        HalfBorrow(x, 1, r, w);
      }
      var sign := And64(r, SignBit(w)) != 0;
      ParityOfLowByte(r);
      var parity := Parity(r % 256);
      flags := flags.(overflow := overflow, half := half, zero := r == 0, sign := sign, parity := parity);
    }

    // One instruction of the ADD..CMP family: the masked result, the new flags, and whether the result is stored.
    method AluCompute(op: nat, a: u64, b: u64, w: Width) returns (result: u64, writeBack: bool)
      requires op < 8
      modifies this
      ensures Outcome(result, flags) == Outcomes(op, a, b, w, old(flags))
      ensures writeBack <==> op != 7
    {
      hide BitAt, And, Xor, Or, Pow2, EvenParity, SignExtended, Fits, Range, SignBit, And64, Or64, Xor64, Added,
           Subtracted, Logical, Masked;
      writeBack := true;
      ghost var flags0 := flags;
      var carry: u64 := if flags.carry then 1 else 0;
      match op {
        case 0 => result := (a as int + b) % WORD; SetFlagsAdd(a, b, result, w);
        case 1 => result := Or64(a, b); SetFlagsLogic(result, w);
        case 2 => result := (a as int + b + carry) % WORD; SetFlagsAdc(a, b, carry, result, w);
        case 3 => result := (a as int - b - carry) % WORD; SetFlagsSbb(a, b, carry, result, w);
        case 4 => result := And64(a, b); SetFlagsLogic(result, w);
        case 5 => result := (a as int - b) % WORD; SetFlagsSub(a, b, result, w);
        case 6 => result := Xor64(a, b); SetFlagsLogic(result, w);
        case _ => result := (a as int - b) % WORD; SetFlagsSub(a, b, result, w); writeBack := false;
      }
      ValueIs(a, b, flags0.carry, w);
      ValueIs(a, b, false, w);
      LogicalValue(result, w);
      result := Masked(result, w);
    }
  }

  lemma OneIsOne(w: Width)
    ensures Masked(1, w) == 1
  {
  }

  lemma LowCarry(p: int, q: int, c: int)
    requires 0 <= p < 16 && 0 <= q < 16 && 0 <= c <= 1
    ensures (p + q + c) / 16 % 2 == 1 <==> p + q + c >= 16
  {
  }

  lemma LowBorrow(p: int, q: int, c: int)
    requires 0 <= p < 16 && 0 <= q < 16 && 0 <= c <= 1
    ensures (p - q - c) % WORD / 16 % 2 == 1 <==> p - q - c < 0
  {
    WrapOnce(p - q - c, WORD);
  }

  // Whether a sum carries out, read off its bit past the width or off the wrapped sum.
  lemma CarryTest(x: int, y: int, c: int, m: int)
    requires 0 <= x < m && 0 <= y < m && 0 <= c <= 1 && m >= 2
    ensures (x + y + c) / m % 2 != 0 <==> x + y + c >= m
    ensures (x + y) % m < x <==> x + y >= m
    ensures c == 0 ==> (x + y + c) % m == (x + y) % m
    ensures ((x + y) % m < x || ((x + y) % m + c) % m < (x + y) % m) <==> x + y + c >= m
  {
    WrapOnce(x + y, m);
    WrapOnce((x + y) % m + c, m);
    if x + y + c >= m {
      Quotient(x + y + c, m, 1, x + y + c - m);
    } else {
      Quotient(x + y + c, m, 0, x + y + c);
    }
  }

  // Masking commutes with the register's own wrap-around.
  lemma MaskedSum(a: u64, b: u64, c: int, w: Width)
    ensures Masked((a as int + b + c) % WORD, w) == (Masked(a, w) as int + Masked(b, w) + c) % Range(w)
    ensures Masked((a as int - b + c) % WORD, w) == (Masked(a, w) as int - Masked(b, w) + c) % Range(w)
  {
    assert Range(w) * (WORD / Range(w)) == WORD && Range(w) >= 0x100;
    hide Range;
    ModMod(a as int + b + c, Range(w), WORD / Range(w));
    ModMod(a as int - b + c, Range(w), WORD / Range(w));
    ModSum(a, b, c, Range(w));
  }

  // A carry flag's weight.
  function Weight(flag: bool, m: int): int { if flag then m else 0 }

  lemma OutcomeIs(a: u64, b: u64, c: bool, w: Width)
    ensures var o, z := Added(a, b, c, w), Masked(a, w) as int + Masked(b, w) + Weight(c, 1);
            o.value == z % Range(w) && (o.flags.carry <==> z >= Range(w))
    ensures var o, z := Subtracted(a, b, c, w), Masked(a, w) as int - Masked(b, w) - Weight(c, 1);
            o.value == z % Range(w) && (o.flags.carry <==> z < 0)
  {
  }

  lemma ValueIs(a: u64, b: u64, carry: bool, w: Width)
    ensures var c := if carry then 1 else 0;
            && Added(a, b, carry, w).value == Masked((a as int + b + c) % WORD, w)
            && Subtracted(a, b, carry, w).value == Masked((a as int - b - c) % WORD, w)
  {
    hide Range, Masked, Added, Subtracted;
    OutcomeIs(a, b, carry, w);
    MaskedSum(a, b, Weight(carry, 1), w);
    MaskedSum(a, b, -Weight(carry, 1), w);
  }

  lemma LogicalValue(r: u64, w: Width)
    ensures Logical(r, w).value == Masked(r, w)
  {
  }

  lemma ParityOfLowByte(v: u64)
    ensures EvenParity(v % 256) == EvenParity(v)
  {
    hide OnesBelow;
    assert v % 256 % 256 == v % 256;
  }
}
