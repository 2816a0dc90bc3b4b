// AArch64 addition with carry, and what the condition codes say after a comparison made with it.

module Arm64Flags {
  import opened MachineTypes
  import opened Bits
  import opened Alu
  import opened Division
  import Arm64Spec

  datatype Sum = Sum(value: u64, negative: bool, zero: bool, carry: bool, overflow: bool)

  function AddWithCarry(a: u64, b: u64, carryIn: u64, wide: bool): Sum
    requires carryIn <= 1
  {
    if wide then
      var r1: u64 := (a as int + b) % WORD;
      var c1 := r1 < a;
      var r2: u64 := (r1 as int + carryIn) % WORD;
      var c2 := r2 < r1;
      Sum(r2, BitAt(r2, 63), r2 == 0, c1 || c2,
          And64(And64(Not(Xor64(a, b)), Xor64(a, r2)), 0x8000_0000_0000_0000) != 0)
    else
      var x, y := Masked(a, 4), Masked(b, 4);
      var full := x + y + carryIn;
      var r := Masked(full, 4);
      Sum(r, BitAt(r, 31), r == 0, full / 0x1_0000_0000 % 2 == 1,
          And64(And64(Not(Xor64(x, y)), Xor64(x, r)), 0x8000_0000) != 0)
  }

  function SizeOf(wide: bool): Width { if wide then 8 else 4 }

  // The value and the four flags are those of an exact addition with carry.
  lemma AddWithCarryMeans(a: u64, b: u64, c: u64, wide: bool)
    requires c <= 1
    ensures var s, o := AddWithCarry(a, b, c, wide), Added(a, b, c == 1, SizeOf(wide));
            && s.value == o.value && s.negative == o.flags.sign && s.zero == o.flags.zero
            && s.carry == o.flags.carry && s.overflow == o.flags.overflow
  {
    if wide {
      WideMeans(a, b, c);
    } else {
      NarrowMeans(a, b, c);
    }
  }

  lemma WideMeans(a: u64, b: u64, c: u64)
    requires c <= 1
    ensures var s, o := AddWithCarry(a, b, c, true), Added(a, b, c == 1, 8);
            s == Sum(o.value, o.flags.sign, o.flags.zero, o.flags.carry, o.flags.overflow)
  {
    hide BitAt, And, Xor64, Pow2, EvenParity, Added, Not, Masked;
    MaskedWide(a); MaskedWide(b); MaskedWide((a as int + b + c) % WORD);
    AddedByBits(a, b, c, 8);
    ValueIs(a, b, c == 1, 8);
    CarryTest(a, b, c, WORD);
    ModSumOnce(a, b, c);
    SignBitTest((a as int + b + c) % WORD, 8);
    MaskIsSignBit((a as int + b + c) % WORD, 8);
  }

  lemma NarrowMeans(a: u64, b: u64, c: u64)
    requires c <= 1
    ensures var s, o := AddWithCarry(a, b, c, false), Added(a, b, c == 1, 4);
            s == Sum(o.value, o.flags.sign, o.flags.zero, o.flags.carry, o.flags.overflow)
  {
    hide BitAt, And, Xor64, Pow2, EvenParity, Added, Not, Masked;
    AddedByBits(a, b, c, 4);
    ValueIs(a, b, c == 1, 4);
    NarrowSum(Masked(a, 4), Masked(b, 4), c);
    SignBitTest(Masked((a as int + b + c) % WORD, 4), 4);
    MaskIsSignBit(Masked((a as int + b + c) % WORD, 4), 4);
  }

  lemma MaskedWide(x: u64)
    ensures Masked(x, 8) == x
  {
  }

  lemma NarrowSum(x: int, y: int, c: int)
    requires 0 <= x < Range(4) && 0 <= y < Range(4) && 0 <= c <= 1
    ensures Masked(x + y + c, 4) == (x + y + c) % Range(4)
    ensures (x + y + c) / 0x1_0000_0000 % 2 == 1 <==> x + y + c >= Range(4)
  {
  }

  lemma ModSumOnce(a: u64, b: u64, c: int)
    requires 0 <= c <= 1
    ensures ((a as int + b) % WORD + c) % WORD == (a as int + b + c) % WORD
  {
  }

  function FlagsFrom(r: Arm64Spec.Registers, s: Sum): Arm64Spec.Registers {
    r.(negative := s.negative, zero := s.zero, carry := s.carry, overflow := s.overflow)
  }

  // CMP is SUBS: a plus the complement of b plus one. The conditions then decide equality (0, 1), the unsigned order
  // (2, 3, 8, 9) and the signed order (A to D).
  lemma CompareDecides(r: Arm64Spec.Registers, a: u64, b: u64, wide: bool)
    ensures var f := FlagsFrom(r, AddWithCarry(a, Not(b), 1, wide));
            var x, y := Masked(a, SizeOf(wide)), Masked(b, SizeOf(wide));
            && Arm64Spec.EvalCond(f, 0x0) == (x == y) && Arm64Spec.EvalCond(f, 0x1) == (x != y)
            && Arm64Spec.EvalCond(f, 0x2) == (x >= y) && Arm64Spec.EvalCond(f, 0x3) == (x < y)
            && Arm64Spec.EvalCond(f, 0x8) == (x > y) && Arm64Spec.EvalCond(f, 0x9) == (x <= y)
    ensures var f := FlagsFrom(r, AddWithCarry(a, Not(b), 1, wide));
            var x, y := SignExtended(a, SizeOf(wide)), SignExtended(b, SizeOf(wide));
            && Arm64Spec.EvalCond(f, 0xA) == (x >= y) && Arm64Spec.EvalCond(f, 0xB) == (x < y)
            && Arm64Spec.EvalCond(f, 0xC) == (x > y) && Arm64Spec.EvalCond(f, 0xD) == (x <= y)
  {
    hide AddWithCarry, Added, SignExtended, Masked;
    AddWithCarryMeans(a, Not(b), 1, wide);
    ComplementMeans(a, b, SizeOf(wide));
  }

  lemma ComplementMeans(a: u64, b: u64, w: Width)
    ensures var f := Added(a, Not(b), true, w).flags;
            && (f.carry <==> Masked(a, w) >= Masked(b, w)) && (f.zero <==> Masked(a, w) == Masked(b, w))
            && (f.zero <==> SignExtended(a, w) == SignExtended(b, w))
            && (f.sign == f.overflow <==> SignExtended(a, w) >= SignExtended(b, w))
  {
    MaskedComplement(b, w);
    hide Range, SignBit, EvenParity, Not;
    WidthIs(w);
    WrapOnce(Masked(a, w) as int + Masked(Not(b), w) + 1, Range(w));
  }

  lemma MaskedComplement(b: u64, w: Width)
    ensures Masked(Not(b), w) == Range(w) - 1 - Masked(b, w)
  {
    var m, k := Range(w), WORD / Range(w);
    assert k * m == WORD;
    hide Range;
    var q, r := b / m, b % m;
    Euclid(b, m, q, r);
    assert (k - 1 - q) * m == WORD - m - q * m;
    Quotient(Not(b), m, k - 1 - q, m - 1 - r);
  }
}
