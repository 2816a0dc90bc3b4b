// 128-bit products and quotients out of 64-bit halves, as the x86 MUL, IMUL, DIV and IDIV instructions need them.

module Arith128 {
  import opened MachineTypes
  import opened Bits
  import opened Division

  const B32: int := 0x1_0000_0000
  const B63: int := 0x8000_0000_0000_0000

  // ~x + 1
  function Negate(x: u64): u64 { Wrap(U64_MAX - x + 1) }

  // The two's complement readings of a register and of a register pair.
  function Signed(x: u64): int { if x >= B63 then x - WORD else x }
  function Signed128(lo: u64, hi: u64): int { Signed(hi) * WORD + lo }

  predicate FitsSigned(x: int) { -B63 <= x < B63 }

  // ---- multiplication ----

  lemma ProductBound(x: int, y: int, m: int)
    requires 0 <= x <= m && 0 <= y <= m
    ensures 0 <= x * y <= m * m
  {
    assert x * y <= x * m <= m * m;
  }

  lemma ProductOfHalves(a: int, b: int, a0: int, a1: int, b0: int, b1: int)
    requires a == a1 * B32 + a0 && b == b1 * B32 + b0
    ensures a * b == a1 * b1 * WORD + (a0 * b1 + a1 * b0) * B32 + a0 * b0
  {
    var c := B32;
    assert a * b == (a1 * c) * (b1 * c) + (a1 * c) * b0 + a0 * (b1 * c) + a0 * b0 by {
      assert a * b == (a1 * c + a0) * (b1 * c + b0);
    }
    assert (a1 * c) * (b1 * c) == a1 * b1 * (c * c);
    assert (a1 * c) * b0 == a1 * b0 * c && a0 * (b1 * c) == a0 * b1 * c;
  }

  // Every intermediate below is a u64: nothing overflows on the way to the exact product.
  function MultiplyUnsigned64(a: u64, b: u64): (r: (u64, u64))
    ensures r.1 * WORD + r.0 == a * b
  {
    var a0: u32, a1: u32 := a % B32, a / B32;
    var b0: u32, b1: u32 := b % B32, b / B32;
    ProductBound(a0, b0, B32 - 1); ProductBound(a0, b1, B32 - 1); ProductBound(a1, b0, B32 - 1);
    ProductBound(a1, b1, B32 - 1);
    ProductOfHalves(a, b, a0, a1, b0, b1);
    ProductBound(a, b, WORD - 1);
    var p00: u64, p01: u64 := a0 * b0, a0 * b1;
    var p10: u64, p11: u64 := a1 * b0, a1 * b1;
    var middle: u64 := p00 / B32 + p01 % B32 + p10 % B32;
    var lo: u64 := middle % B32 * B32 + p00 % B32;
    var hi: u64 := p11 + p01 / B32 + p10 / B32 + middle / B32;
    (lo, hi)
  }

  // The signed product, by correcting the high half of the unsigned one.
  function MultiplySigned64(a: u64, b: u64): (r: (u64, u64))
    ensures Signed128(r.0, r.1) == Signed(a) * Signed(b)
  {
    hide MultiplyUnsigned64;
    var (lo, hi) := MultiplyUnsigned64(a, b);
    var hi1 := if a >= B63 then Wrap(hi - b) else hi;
    var hi2 := if b >= B63 then Wrap(hi1 - a) else hi1;
    SignedProduct(a, b, lo, hi, hi2);
    (lo, hi2)
  }

  lemma SignedWrap(x: int)
    requires FitsSigned(x)
    ensures Signed(Wrap(x)) == x
  {
  }

  lemma SignedProduct(a: u64, b: u64, lo: u64, hi: u64, hi2: u64)
    requires hi * WORD + lo == a * b
    requires hi2 == Wrap((if a >= B63 then Wrap(hi - b) else hi) - (if b >= B63 then a else 0))
    ensures Signed128(lo, hi2) == Signed(a) * Signed(b)
  {
    SignedTimes(a, b);
    SignedProductBound(Signed(a), Signed(b), B63);
    CorrectedHigh(a, b, lo, hi, hi2, Signed(a) * Signed(b));
  }

  lemma CorrectedHigh(a: u64, b: u64, lo: u64, hi: u64, hi2: u64, product: int)
    requires hi2 == Wrap((if a >= B63 then Wrap(hi - b) else hi) - (if b >= B63 then a else 0))
    requires product == hi * WORD + lo - (if a >= B63 then b else 0) * WORD - (if b >= B63 then a else 0) * WORD
                        + (if a >= B63 && b >= B63 then WORD * WORD else 0)
    requires -(B63 * B63) <= product <= B63 * B63
    ensures Signed128(lo, hi2) == product
  {
    var high := hi - (if a >= B63 then b else 0) - (if b >= B63 then a else 0)
                + (if a >= B63 && b >= B63 then WORD else 0);
    HighHalfFits(high, lo, product);
    assert hi2 == Wrap(high);
    SignedWrap(high);
  }

  lemma SignedTimes(a: u64, b: u64)
    ensures Signed(a) * Signed(b) == a * b - (if a >= B63 then b else 0) * WORD - (if b >= B63 then a else 0) * WORD
                                     + (if a >= B63 && b >= B63 then WORD * WORD else 0)
  {
    Distribute(a, b, WORD);
  }

  lemma Distribute(a: int, b: int, c: int)
    ensures (a - c) * (b - c) == a * b - a * c - b * c + c * c
    ensures (a - c) * b == a * b - b * c && a * (b - c) == a * b - a * c
  {
  }

  lemma HighHalfFits(high: int, lo: u64, product: int)
    requires product == high * WORD + lo && -(B63 * B63) <= product <= B63 * B63
    ensures FitsSigned(high)
  {
  }

  lemma SignedProductBound(x: int, y: int, m: int)
    requires -m <= x <= m && -m <= y <= m
    ensures -(m * m) <= x * y <= m * m
  {
    var ax, ay := if x < 0 then -x else x, if y < 0 then -y else y;
    ProductBound(ax, ay, m);
    SignsOut(x, y, ax, ay);
  }

  lemma SignsOut(x: int, y: int, ax: int, ay: int)
    requires (ax == x || ax == -x) && (ay == y || ay == -y)
    ensures x * y == ax * ay || x * y == -(ax * ay)
  {
  }

  // The overflow test of a 64-bit IMUL: the high half is not the sign extension of the low half.
  predicate ImulOverflows(lo: u64, hi: u64) {
    hi != if lo >= B63 then U64_MAX else 0
  }

  lemma ImulOverflowExact(a: u64, b: u64)
    ensures var (lo, hi) := MultiplySigned64(a, b);
            && (ImulOverflows(lo, hi) <==> !FitsSigned(Signed(a) * Signed(b)))
            && (!ImulOverflows(lo, hi) ==> Signed(lo) == Signed(a) * Signed(b))
  {
    hide MultiplySigned64;
    var (lo, hi) := MultiplySigned64(a, b);
    OverflowFromHalves(lo, hi, Signed(a) * Signed(b));
  }

  lemma OverflowFromHalves(lo: u64, hi: u64, product: int)
    requires Signed128(lo, hi) == product
    ensures ImulOverflows(lo, hi) <==> !FitsSigned(product)
    ensures !ImulOverflows(lo, hi) ==> Signed(lo) == product
  {
  }

  // ---- division ----

  // The bits of x from position n up.
  function Top(x: nat, n: nat): int { x / Pow2(n) }

  lemma TopStep(x: nat, n: nat)
    ensures Top(x, n) == 2 * Top(x, n + 1) + Top(x, n) % 2
  {
    var p := Pow2(n);
    HalfOfQuotient(x, p);
  }

  lemma HalfOfQuotient(x: nat, p: nat)
    requires p > 0
    ensures x / (2 * p) == x / p / 2
  {
    var q, r := x / p, x % p;
    var h, b := q / 2, q % 2;
    assert x == (2 * h + b) * p + r;
    assert (2 * h + b) * p == h * (2 * p) + b * p;
    Quotient(x, 2 * p, h, b * p + r);
  }

  lemma QuotientFits(n: nat, d: int, bound: nat)
    requires d > 0
    ensures n / d < bound <==> n < bound * d
  {
    var q, r := n / d, n % d;
    assert n == q * d + r;
    if q < bound {
      LessTimes(q + 1, bound, d);
      assert (q + 1) * d == q * d + d;
    } else {
      LessTimes(bound, q, d);
    }
  }

  // Bit-by-bit division of hi:lo. It succeeds exactly when the quotient fits in 64 bits.
  method DivideUnsigned128(hi: u64, lo: u64, divisor: u64) returns (ok: bool, quotient: u64, remainder: u64)
    ensures ok <==> divisor != 0 && (hi * WORD + lo) / divisor < WORD
    ensures ok ==> quotient * divisor + remainder == hi * WORD + lo && remainder < divisor
    ensures ok ==> quotient == (hi * WORD + lo) / divisor && remainder == (hi * WORD + lo) % divisor
  {
    if divisor > 0 {
      QuotientFits(hi * WORD + lo, divisor, WORD);
    }
    if divisor == 0 || hi >= divisor {
      return false, 0, 0;
    }
    ok := true;
    if hi == 0 {
      quotient, remainder := lo / divisor, lo % divisor;
      Euclid(lo, divisor, quotient, remainder);
    } else {
      quotient, remainder := DivideBits(hi, lo, divisor);
      Quotient(hi * WORD + lo, divisor, quotient, remainder);
    }
  }

  ghost function Times(x: int, y: int): int { x * y }

  // One quotient bit per round. The remainder register may lose its top bit to the shift; the carry stands in for it.
  method DivideBits(hi: u64, lo: u64, divisor: u64) returns (q: u64, r: u64)
    requires hi < divisor
    ensures q * divisor + r == hi * WORD + lo && r < divisor
  {
    hide Pow2, Top, Times;
    q, r := 0, hi;
    ghost var top: nat := 0;      // q without its trailing zero bits
    DivisionStart(hi, lo, divisor);
    for bit := 64 downto 0
      invariant r < divisor
      invariant q == Times(top, Pow2(bit)) && q + Pow2(bit) <= WORD
      invariant Times(hi, Pow2(64 - bit)) + Top(lo, bit) == Times(top, divisor) + r
    {
      var carry := r >= B63;
      var b := Top(lo, bit) % 2;
      TopStep(lo, bit);
      DivisionStep(hi, top, divisor, bit);
      r := Wrap(2 * r) + b;
      top := 2 * top;
      if carry || r >= divisor {
        r := Wrap(r - divisor);
        q := q + Pow2(bit);
        top := top + 1;
      }
    }
    DivisionEnd(hi, lo, divisor, q, top);
  }

  lemma DivisionStart(hi: int, lo: nat, divisor: int)
    requires lo < WORD
    ensures Pow2(64) == WORD && Top(lo, 64) == 0
    ensures Times(hi, Pow2(0)) == hi && Times(0, Pow2(64)) == 0 && Times(0, divisor) == 0
  {
    Pow2Values();
  }

  lemma DivisionEnd(hi: int, lo: nat, divisor: int, q: int, top: int)
    ensures Times(hi, Pow2(64)) == hi * WORD && Top(lo, 0) == lo
    ensures q == Times(top, Pow2(0)) ==> Times(top, divisor) == q * divisor
  {
    Pow2Values();
    assert Pow2(0) == 1;
  }

  lemma DivisionStep(hi: nat, top: nat, divisor: nat, bit: nat)
    requires bit < 64
    ensures Times(hi, Pow2(64 - bit)) == 2 * Times(hi, Pow2(64 - (bit + 1))) && Pow2(bit + 1) == 2 * Pow2(bit)
    ensures Times(2 * top, divisor) == 2 * Times(top, divisor)
    ensures Times(2 * top + 1, divisor) == 2 * Times(top, divisor) + divisor
    ensures Times(2 * top, Pow2(bit)) == Times(top, Pow2(bit + 1))
    ensures Times(2 * top + 1, Pow2(bit)) == Times(top, Pow2(bit + 1)) + Pow2(bit)
  {
    assert Pow2(64 - bit) == 2 * Pow2(64 - bit - 1);
    assert Pow2(bit + 1) == 2 * Pow2(bit);
    TimesTwo(hi, Pow2(64 - bit - 1));
    TimesTwo(top, Pow2(bit));
    TimesTwo(top, divisor);
  }

  lemma TimesTwo(x: int, y: int)
    ensures x * (2 * y) == 2 * (x * y) && (2 * x) * y == 2 * (x * y) && (2 * x + 1) * y == 2 * (x * y) + y
  {
  }

  // Division that rounds toward zero, with the remainder taking the numerator's sign.
  function TruncQuotient(n: int, d: int): int
    requires d != 0
  {
    if (n < 0) == (d < 0) then Abs(n) / Abs(d) else -(Abs(n) / Abs(d))
  }

  function TruncRemainder(n: int, d: int): int
    requires d != 0
  {
    if n < 0 then -(Abs(n) % Abs(d)) else Abs(n) % Abs(d)
  }

  function Abs(x: int): nat { if x < 0 then -x else x }

  // These are the unique quotient and remainder of that kind.
  lemma TruncIs(n: int, d: int, q: int, r: int)
    requires d != 0
    ensures q == TruncQuotient(n, d) && r == TruncRemainder(n, d) <==>
            n == q * d + r && Abs(r) < Abs(d) && (r > 0 ==> n > 0) && (r < 0 ==> n < 0)
  {
    SignedDivision(n, d, TruncQuotient(n, d), TruncRemainder(n, d));
    if n == q * d + r && Abs(r) < Abs(d) && (r > 0 ==> n > 0) && (r < 0 ==> n < 0) {
      var q' := if (n < 0) == (d < 0) then q else -q;
      MagnitudeProduct(q, d);
      Quotient(Abs(n), Abs(d), q', Abs(r));
    } else {
      hide TruncQuotient, TruncRemainder;
    }
  }

  lemma MagnitudeProduct(q: int, d: int)
    ensures q * Abs(d) == if d < 0 then -(q * d) else q * d
    ensures (-q) * Abs(d) == if d < 0 then q * d else -(q * d)
  {
  }

  lemma SignedDivision(n: int, d: int, q: int, r: int)
    requires d != 0 && q == TruncQuotient(n, d) && r == TruncRemainder(n, d)
    ensures n == q * d + r && Abs(r) < Abs(d) && (r > 0 ==> n > 0) && (r < 0 ==> n < 0)
  {
    hide TruncQuotient, TruncRemainder;
    var sq, sr := MagnitudesOf(n, d);
    FromMagnitudes(n, d, q, r, sq, sr);
  }

  lemma MagnitudesOf(n: int, d: int) returns (sq: int, sr: int)
    requires d != 0
    ensures 0 <= sq && 0 <= sr < Abs(d) && Abs(n) == sq * Abs(d) + sr
    ensures TruncQuotient(n, d) == (if (n < 0) == (d < 0) then sq else -sq)
    ensures TruncRemainder(n, d) == if n < 0 then -sr else sr
  {
    hide TruncQuotient, TruncRemainder;
    sq, sr := Abs(n) / Abs(d), Abs(n) % Abs(d);
    Euclid(Abs(n), Abs(d), sq, sr);
    TruncFromMagnitudes(n, d, sq, sr);
  }

  lemma FromMagnitudes(n: int, d: int, q: int, r: int, sq: int, sr: int)
    requires d != 0 && 0 <= sq && 0 <= sr < Abs(d) && Abs(n) == sq * Abs(d) + sr
    requires q == (if (n < 0) == (d < 0) then sq else -sq) && r == if n < 0 then -sr else sr
    ensures n == q * d + r && Abs(r) < Abs(d) && (r > 0 ==> n > 0) && (r < 0 ==> n < 0)
  {
    TimesCases(q, d, sq, Abs(d));
    SmallOperand(Abs(n), Abs(d), sq, sr);
  }

  // A zero numerator leaves nothing over.
  lemma SmallOperand(n: int, d: int, q: int, r: int)
    requires d > 0 && n == q * d + r && 0 <= r < d && 0 <= q
    ensures n == 0 ==> q == 0 && r == 0
  {
    LessTimes(0, q, d);
    if q > 0 {
      LessTimes(1, q, d);
    }
  }

  lemma TimesCases(q: int, d: int, sq: int, ad: int)
    ensures q == sq && d == ad ==> q * d == sq * ad
    ensures q == -sq && d == ad ==> q * d == -(sq * ad)
    ensures q == sq && d == -ad ==> q * d == -(sq * ad)
    ensures q == -sq && d == -ad ==> q * d == sq * ad
  {
  }

  lemma TruncFromMagnitudes(n: int, d: int, q: int, r: int)
    requires d != 0 && q == Abs(n) / Abs(d) && r == Abs(n) % Abs(d)
    ensures TruncQuotient(n, d) == if (n < 0) == (d < 0) then q else -q
    ensures TruncRemainder(n, d) == if n < 0 then -r else r
    ensures 0 <= q && 0 <= r < Abs(d)
  {
    Euclid(Abs(n), Abs(d), q, r);
    if q < 0 {
      LessTimes(q, -1, Abs(d));
    }
  }

  lemma SignedIs(x: u64, lo: u64)
    ensures Signed(x) == (if x >= B63 then x - WORD else x) && Signed128(lo, x) == Signed(x) * WORD + lo
    ensures x >= B63 ==> Negate(x) == -Signed(x)
  {
  }

  lemma NegateSmall(x: u64)
    ensures x < B63 ==> Signed(x) == x
    ensures x <= B63 ==> Signed(Negate(x)) == -(x as int)
  {
  }

  lemma Magnitude128(hi: u64, lo: u64)
    requires hi >= B63
    ensures var lo1 := Negate(lo);
            Wrap((U64_MAX - hi) as int + if lo1 == 0 then 1 else 0) * WORD + lo1 == -Signed128(lo, hi)
  {
  }

  // Signed division of hi:lo by way of the magnitudes. It succeeds exactly when the truncated quotient fits.
  method DivideSigned128(hi: u64, lo: u64, divisor: u64) returns (ok: bool, quotient: u64, remainder: u64)
    ensures ok <==> divisor != 0 && FitsSigned(TruncQuotient(Signed128(lo, hi), Signed(divisor)))
    ensures ok ==> && Signed(quotient) == TruncQuotient(Signed128(lo, hi), Signed(divisor))
                   && Signed(remainder) == TruncRemainder(Signed128(lo, hi), Signed(divisor))
  {
    hide TruncQuotient, TruncRemainder, Signed, Signed128, Negate, Wrap;
    ghost var n, d := Signed128(lo, hi), Signed(divisor);
    var negativeNumerator, negativeDivisor := hi >= B63, divisor >= B63;
    var lo1, hi1, divisor1 := lo, hi, divisor;
    SignedIs(hi, lo);
    SignedIs(divisor, 0);
    if negativeNumerator {
      Magnitude128(hi, lo);
      lo1 := Negate(lo);
      hi1 := Wrap((U64_MAX - hi) as int + if lo1 == 0 then 1 else 0);
    }
    if negativeDivisor {
      divisor1 := Negate(divisor);
    }
    assert hi1 * WORD + lo1 == Abs(n) && divisor1 == Abs(d);
    var valid, q, r := DivideUnsigned128(hi1, lo1, divisor1);
    if d != 0 {
      TruncFromMagnitudes(n, d, Abs(n) / Abs(d), Abs(n) % Abs(d));
    }
    if !valid {
      return false, 0, 0;
    }
    var negativeQuotient := negativeNumerator != negativeDivisor;
    if q > if negativeQuotient then B63 else B63 - 1 {
      return false, 0, 0;
    }
    ok := true;
    NegateSmall(q);
    NegateSmall(r);
    quotient := if negativeQuotient then Negate(q) else q;
    remainder := if negativeNumerator then Negate(r) else r;
  }

  // Dividing a product by one of its factors gives back the other.
  method DivideProduct(a: u64, b: u64) returns (q: u64, r: u64)
    requires b != 0
    ensures q == a && r == 0
  {
    var (lo, hi) := MultiplyUnsigned64(a, b);
    Quotient(a * b, b, a, 0);
    var ok;
    ok, q, r := DivideUnsigned128(hi, lo, b);
  }
}
