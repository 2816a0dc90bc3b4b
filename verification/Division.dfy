// Facts about Euclidean quotients and remainders of arbitrary integers.

module Division {

  // Dropping one factor keeps a product in order.
  lemma LessTimes(x: int, y: int, d: int)
    requires 0 <= d && x <= y
    ensures x * d <= y * d
  {
  }

  lemma Euclid(n: int, d: int, q: int, r: int)
    requires d > 0 && q == n / d && r == n % d
    ensures n == q * d + r && 0 <= r < d
  {
  }

  lemma SplitAt(x: nat, p: nat)
    requires p > 0
    ensures x == x % p + x / p * p && 0 <= x % p < p && 0 <= x / p
  {
    Euclid(x, p, x / p, x % p);
    if x / p < 0 {
      LessTimes(x / p, -1, p);
    }
  }

  // The quotient and remainder are the only ones there are.
  lemma Quotient(n: int, d: int, q: int, r: int)
    requires d > 0 && n == q * d + r && 0 <= r < d
    ensures n / d == q && n % d == r
  {
    var q', r' := n / d, n % d;
    assert (q - q') * d == r' - r;
    if q > q' {
      LessTimes(1, q - q', d);
    } else if q < q' {
      LessTimes(q - q', -1, d);
    }
  }

  // Adding a multiple of the divisor does not change the remainder.
  lemma DropMultiple(n: int, k: int, d: int)
    requires d > 0
    ensures (n + k * d) % d == n % d
  {
    Euclid(n, d, n / d, n % d);
    assert n + k * d == (n / d + k) * d + n % d;
    Quotient(n + k * d, d, n / d + k, n % d);
  }

  // Reducing modulo a multiple first changes nothing.
  lemma ModMod(n: int, d: int, k: int)
    requires d > 0 && k > 0 && d * k > 0
    ensures n % (d * k) % d == n % d
  {
    Euclid(n, d * k, n / (d * k), n % (d * k));
    var q := n / (d * k);
    assert n % (d * k) == n + (-q * k) * d;
    DropMultiple(n, -q * k, d);
  }

  lemma ModSum(x: int, y: int, c: int, d: int)
    requires d > 0
    ensures (x + y + c) % d == (x % d + y % d + c) % d
    ensures (x - y + c) % d == (x % d - y % d + c) % d
  {
    ModAdd(y + c, x, d);
    ModAdd(x % d + c, y, d);
    ModAdd(-y + c, x, d);
    ModTakeAway(x % d + c, y, d);
  }

  lemma ModAdd(z: int, x: int, d: int)
    requires d > 0
    ensures (z + x) % d == (z + x % d) % d
  {
    Euclid(x, d, x / d, x % d);
    DropMultiple(z + x % d, x / d, d);
  }

  lemma ModTakeAway(z: int, x: int, d: int)
    requires d > 0
    ensures (z - x) % d == (z - x % d) % d
  {
    Euclid(x, d, x / d, x % d);
    DropMultiple(z - x % d, -(x / d), d);
  }
}
