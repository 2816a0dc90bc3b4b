// Bitwise operators on register values, and what testing a single bit of their results tells.

module Bits {
  import opened MachineTypes
  import opened Division

  function Pow2(n: nat): (p: nat)
    ensures p >= 1
  {
    if n == 0 then 1 else 2 * Pow2(n - 1)
  }

  // The bit of x at position k.
  predicate BitAt(x: nat, k: nat) {
    if k == 0 then x % 2 == 1 else BitAt(x / 2, k - 1)
  }

  function And(x: nat, y: nat): nat {
    if x == 0 || y == 0 then 0 else 2 * And(x / 2, y / 2) + if x % 2 == 1 && y % 2 == 1 then 1 else 0
  }

  function Or(x: nat, y: nat): nat
    decreases x + y
  {
    if x == 0 && y == 0 then 0 else 2 * Or(x / 2, y / 2) + if x % 2 == 1 || y % 2 == 1 then 1 else 0
  }

  function Xor(x: nat, y: nat): nat
    decreases x + y
  {
    if x == 0 && y == 0 then 0 else 2 * Xor(x / 2, y / 2) + if x % 2 != y % 2 then 1 else 0
  }

  function Not(x: u64): u64 { U64_MAX - x }

  lemma {:induction false} ZeroBit(k: nat)
    ensures !BitAt(0, k)
  {
    if k > 0 { ZeroBit(k - 1); }
  }

  lemma {:induction false} AndBit(x: nat, y: nat, k: nat)
    ensures BitAt(And(x, y), k) <==> BitAt(x, k) && BitAt(y, k)
  {
    ZeroBit(k);
    if k > 0 && x > 0 && y > 0 {
      assert And(x, y) / 2 == And(x / 2, y / 2);
      AndBit(x / 2, y / 2, k - 1);
    }
  }

  lemma {:induction false} OrHalves(x: nat, y: nat)
    ensures Or(x, y) / 2 == Or(x / 2, y / 2) && (Or(x, y) % 2 == 1 <==> x % 2 == 1 || y % 2 == 1)
  {
  }

  lemma {:induction false} OrBit(x: nat, y: nat, k: nat)
    ensures BitAt(Or(x, y), k) <==> BitAt(x, k) || BitAt(y, k)
  {
    hide Or;
    OrHalves(x, y);
    if k > 0 {
      OrBit(x / 2, y / 2, k - 1);
    }
  }

  lemma {:induction false} XorHalves(x: nat, y: nat)
    ensures Xor(x, y) / 2 == Xor(x / 2, y / 2) && (Xor(x, y) % 2 == 1 <==> x % 2 != y % 2)
  {
  }

  lemma {:induction false} XorBit(x: nat, y: nat, k: nat)
    ensures BitAt(Xor(x, y), k) <==> BitAt(x, k) != BitAt(y, k)
  {
    hide Xor;
    XorHalves(x, y);
    if k > 0 {
      XorBit(x / 2, y / 2, k - 1);
    }
  }

  // Complementing within 2^n flips every bit below n.
  lemma {:induction false} ComplementBit(x: nat, n: nat, k: nat)
    requires x < Pow2(n) && k < n
    ensures BitAt(Pow2(n) - 1 - x, k) <==> !BitAt(x, k)
  {
    if k > 0 {
      assert (Pow2(n) - 1 - x) / 2 == Pow2(n - 1) - 1 - x / 2;
      ComplementBit(x / 2, n - 1, k - 1);
    }
  }

  // Masking with a power of two tests that bit.
  lemma {:induction false} MaskTestsBit(x: nat, k: nat)
    ensures And(x, Pow2(k)) != 0 <==> BitAt(x, k)
  {
    ZeroBit(k);
    if k > 0 && x > 0 {
      MaskTestsBit(x / 2, k - 1);
    }
  }

  // The top bit says which half of the range a value lies in.
  lemma {:induction false} TopBit(x: nat, n: nat)
    requires x < 2 * Pow2(n)
    ensures BitAt(x, n) <==> x >= Pow2(n)
  {
    if n > 0 {
      TopBit(x / 2, n - 1);
    }
  }

  // Cutting a value to its low n bits keeps those bits and clears the others.
  lemma {:induction false} LowBits(x: nat, n: nat, k: nat)
    ensures BitAt(x % Pow2(n), k) <==> k < n && BitAt(x, k)
  {
    if n == 0 {
      Quotient(x, 1, x, 0);
      ZeroBit(k);
    } else {
      HalfOfRest(x, Pow2(n - 1));
      if k > 0 {
        LowBits(x / 2, n - 1, k - 1);
      }
    }
  }

  lemma HalfOfRest(x: nat, p: nat)
    requires p > 0
    ensures (x % (2 * p)) / 2 == (x / 2) % p && (x % (2 * p)) % 2 == x % 2
  {
    var h, b := x / 2, x % 2;
    var q, r := h / p, h % p;
    Euclid(h, p, q, r);
    assert x == q * (2 * p) + (2 * r + b);
    Quotient(x, 2 * p, q, 2 * r + b);
  }

  // The bits of two numbers side by side.
  lemma {:induction false} BitOfSum(low: nat, high: nat, n: nat, k: nat)
    requires low < Pow2(n)
    ensures BitAt(low + high * Pow2(n), k) <==> if k < n then BitAt(low, k) else BitAt(high, k - n)
  {
    if n > 0 {
      var p := Pow2(n - 1);
      assert low + high * Pow2(n) == 2 * (low / 2 + high * p) + low % 2;
      if k > 0 {
        BitOfSum(low / 2, high, n - 1, k - 1);
      }
    }
  }

  lemma {:induction false} AllOnes(n: nat, k: nat)
    ensures BitAt(Pow2(n) - 1, k) <==> k < n
  {
    if n == 0 {
      ZeroBit(k);
    } else {
      assert (Pow2(n) - 1) / 2 == Pow2(n - 1) - 1 && (Pow2(n) - 1) % 2 == 1;
      if k > 0 {
        AllOnes(n - 1, k - 1);
      }
    }
  }

  lemma {:induction false} BitsAbove(x: nat, n: nat, k: nat)
    requires x < Pow2(n) && n <= k
    ensures !BitAt(x, k)
  {
    if n == 0 {
      ZeroBit(k);
    } else {
      BitsAbove(x / 2, n - 1, k - 1);
    }
  }

  // Dividing by a power of two drops that many bits.
  lemma BitOfQuotient(x: nat, n: nat, k: nat)
    ensures x / Pow2(n) >= 0 && (BitAt(x / Pow2(n), k) <==> BitAt(x, k + n))
  {
    hide BitAt, Pow2;
    SplitAt(x, Pow2(n));
    BitOfSum(x % Pow2(n), x / Pow2(n), n, k + n);
  }

  lemma {:induction false} BitwiseSame(x: nat)
    ensures And(x, x) == x && Or(x, x) == x && Xor(x, x) == 0
  {
    if x > 0 {
      BitwiseSame(x / 2);
    }
  }

  // Bitwise results stay within the width of their operands.
  lemma {:induction false} BitwiseBounds(x: nat, y: nat, n: nat)
    requires x < Pow2(n) && y < Pow2(n)
    ensures And(x, y) < Pow2(n) && Or(x, y) < Pow2(n) && Xor(x, y) < Pow2(n)
  {
    if n > 0 {
      BitwiseBounds(x / 2, y / 2, n - 1);
    }
  }

  lemma Pow2Values()
    ensures Pow2(4) == 0x10 && Pow2(7) == 0x80 && Pow2(15) == 0x8000 && Pow2(31) == 0x8000_0000
    ensures Pow2(63) == 0x8000_0000_0000_0000 && Pow2(64) == 0x1_0000_0000_0000_0000
  {
    assert Pow2(3) == 8 && Pow2(0) == 1;
    hide Pow2;
    Pow2Step4(0); Pow2Step4(3); Pow2Step8(7);
    Pow2Step8(15); Pow2Step8(23); Pow2Step8(31); Pow2Step8(39); Pow2Step8(47); Pow2Step8(55);
    Pow2Step8(56); Pow2Step8(48); Pow2Step8(40); Pow2Step8(32); Pow2Step8(24); Pow2Step8(16); Pow2Step8(8);
    Pow2Step8(0);
  }

  lemma Pow2Step8(n: nat)
    ensures Pow2(n + 8) == 256 * Pow2(n)
  {
    Pow2Step4(n);
    Pow2Step4(n + 4);
  }

  lemma Pow2Step4(n: nat)
    ensures Pow2(n + 4) == 16 * Pow2(n)
  {
    assert Pow2(n + 1) == 2 * Pow2(n) && Pow2(n + 2) == 2 * Pow2(n + 1);
    assert Pow2(n + 3) == 2 * Pow2(n + 2) && Pow2(n + 4) == 2 * Pow2(n + 3);
  }

  lemma SmallPowers()
    ensures Pow2(0) == 1 && Pow2(1) == 2 && Pow2(2) == 4 && Pow2(3) == 8 && Pow2(4) == 0x10 && Pow2(5) == 0x20
    ensures Pow2(6) == 0x40 && Pow2(7) == 0x80 && Pow2(8) == 0x100 && Pow2(10) == 0x400 && Pow2(12) == 0x1000
    ensures Pow2(15) == 0x8000 && Pow2(16) == 0x1_0000 && Pow2(18) == 0x4_0000 && Pow2(19) == 0x8_0000
    ensures Pow2(21) == 0x20_0000 && Pow2(22) == 0x40_0000 && Pow2(23) == 0x80_0000 && Pow2(24) == 0x100_0000
    ensures Pow2(25) == 0x200_0000 && Pow2(26) == 0x400_0000 && Pow2(27) == 0x800_0000 && Pow2(29) == 0x2000_0000
    ensures Pow2(30) == 0x4000_0000 && Pow2(31) == 0x8000_0000
  {
    assert Pow2(0) == 1 && Pow2(1) == 2 && Pow2(2) == 4 && Pow2(3) == 8;
    hide Pow2;
    Pow2Step4(0); Pow2Step4(1); Pow2Step4(2); Pow2Step4(3);
    Pow2Step8(0); Pow2Step8(1); Pow2Step8(2); Pow2Step8(3); Pow2Step8(4); Pow2Step8(5); Pow2Step8(6); Pow2Step8(7);
    Pow2Step8(8); Pow2Step8(9); Pow2Step8(10); Pow2Step8(11); Pow2Step8(13); Pow2Step8(14); Pow2Step8(15);
    Pow2Step8(16); Pow2Step8(17); Pow2Step8(18); Pow2Step8(19); Pow2Step8(21); Pow2Step8(22); Pow2Step8(23);
  }
}
