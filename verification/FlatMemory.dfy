// Guest memory as a flat map from committed addresses to bytes, with little-endian typed access.
// The memory manager refines this view; the CPU and operating-system models work on it directly.

module FlatMemory {
  import opened MachineTypes
  import opened Division

  type Bytemap = map<int, byte>

  // Memory as the memory manager can map it: whole pages, all of them below the limit.
  ghost predicate Mappable(m: Bytemap) {
    && (forall x :: x in m ==> 0 <= x < LIMIT)
    && (forall x, y :: x in m && y / PAGE_SIZE == x / PAGE_SIZE ==> y in m)
  }

  function Filled(a: int, b: int, v: byte): (m: Bytemap)
    ensures forall x :: x in m <==> a <= x < b
    ensures forall x :: x in m ==> m[x] == v
    decreases b - a
  {
    if a >= b then map[] else Filled(a + 1, b, v)[a := v]
  }

  function Zeros(a: int, b: int): Bytemap { Filled(a, b, 0) }

  // Every byte of [a, a + n) is committed.
  predicate Has(m: Bytemap, a: int, n: int) {
    forall x :: a <= x < a + n ==> x in m
  }

  function Patch(m: Bytemap, a: int, data: seq<byte>): Bytemap {
    map x | x in m :: if a <= x < a + |data| then data[x - a] else m[x]
  }

  function Fetch(m: Bytemap, a: int, n: nat): (data: seq<byte>)
    requires Has(m, a, n)
    ensures |data| == n
    decreases n
  {
    if n == 0 then [] else [m[a]] + Fetch(m, a + 1, n - 1)
  }

  lemma {:induction false} FetchAt(m: Bytemap, a: int, n: nat, k: nat)
    requires Has(m, a, n) && k < n
    ensures Fetch(m, a, n)[k] == m[a + k]
    decreases n
  {
    if k > 0 { FetchAt(m, a + 1, n - 1, k - 1); }
  }

  lemma PatchTwice(m: Bytemap, a: int, xs: seq<byte>, ys: seq<byte>)
    ensures Patch(Patch(m, a, xs), a + |xs|, ys) == Patch(m, a, xs + ys)
  {
  }

  lemma PatchNothing(m: Bytemap, a: int)
    ensures Patch(m, a, []) == m
  {
  }

  // Continuing a partial write.
  lemma PatchStep(m: Bytemap, a: int, data: seq<byte>, done: nat, chunk: nat, sofar: Bytemap, now: Bytemap)
    requires done + chunk <= |data| && sofar == Patch(m, a, data[..done])
    requires now == Patch(sofar, a + done, data[done..done + chunk])
    ensures now == Patch(m, a, data[..done + chunk])
  {
    PatchTwice(m, a, data[..done], data[done..done + chunk]);
    assert data[..done + chunk] == data[..done] + data[done..done + chunk];
  }

  // Continuing a partial read.
  lemma FetchStep(m: Bytemap, a: int, data: seq<byte>, piece: seq<byte>)
    requires Has(m, a, |data|) && data == Fetch(m, a, |data|)
    requires Has(m, a + |data|, |piece|) && piece == Fetch(m, a + |data|, |piece|)
    ensures Has(m, a, |data + piece|) && data + piece == Fetch(m, a, |data + piece|)
  {
    FetchSplit(m, a, |data|, |piece|);
  }

  // A run of bytes that agrees with the map everywhere is what Fetch returns.
  lemma {:induction false} FetchIs(m: Bytemap, a: int, data: seq<byte>)
    requires Has(m, a, |data|)
    requires forall x :: a <= x < a + |data| ==> data[x - a] == m[x]
    ensures data == Fetch(m, a, |data|)
  {
    forall k | 0 <= k < |data| ensures data[k] == Fetch(m, a, |data|)[k] {
      FetchAt(m, a, |data|, k);
      assert data[(a + k) - a] == m[a + k];
    }
  }

  // A fetch depends on the fetched bytes only.
  lemma {:induction false} FetchFrame(m: Bytemap, m': Bytemap, a: int, n: nat)
    requires Has(m, a, n) && Has(m', a, n) && forall x :: a <= x < a + n ==> m[x] == m'[x]
    ensures Fetch(m, a, n) == Fetch(m', a, n)
    decreases n
  {
    if n > 0 {
      FetchFrame(m, m', a + 1, n - 1);
    }
  }

  // ---- little-endian numbers ----

  function Pow256(n: nat): (p: nat)
    ensures p > 0
  {
    if n == 0 then 1 else 256 * Pow256(n - 1)
  }

  function FromBytes(data: seq<byte>): nat {
    if data == [] then 0 else data[0] + 256 * FromBytes(data[1..])
  }

  function ToBytes(v: nat, n: nat): (data: seq<byte>)
    ensures |data| == n
  {
    if n == 0 then [] else [v % 256] + ToBytes(v / 256, n - 1)
  }

  lemma {:induction false} FromToBytes(v: nat, n: nat)
    requires v < Pow256(n)
    ensures FromBytes(ToBytes(v, n)) == v
  {
    if n > 0 {
      FromToBytes(v / 256, n - 1);
      assert ToBytes(v, n)[1..] == ToBytes(v / 256, n - 1);
    }
  }

  lemma {:induction false} ToFromBytes(data: seq<byte>)
    ensures FromBytes(data) < Pow256(|data|)
    ensures ToBytes(FromBytes(data), |data|) == data
  {
    if data != [] {
      ToFromBytes(data[1..]);
      LowDigit(data[0], FromBytes(data[1..]));
      assert data == [data[0]] + data[1..];
    }
  }

  // Only the low n bytes of a value are stored.
  lemma {:induction false} ToBytesCut(v: nat, n: nat)
    ensures ToBytes(v, n) == ToBytes(v % Pow256(n), n)
  {
    if n > 0 {
      DigitOfRest(v, Pow256(n - 1));
      ToBytesCut(v / 256, n - 1);
    }
  }

  lemma DigitOfRest(v: nat, p: nat)
    requires p > 0
    ensures (v % (256 * p)) % 256 == v % 256 && (v % (256 * p)) / 256 == (v / 256) % p
  {
    var h, d := v / 256, v % 256;
    var q, r := h / p, h % p;
    Euclid(h, p, q, r);
    assert v == q * (256 * p) + (256 * r + d);
    Quotient(v, 256 * p, q, 256 * r + d);
  }

  lemma LowDigit(b: byte, rest: nat)
    ensures (b + 256 * rest) % 256 == b && (b + 256 * rest) / 256 == rest
  {
  }

  lemma {:induction false} FromBytesConcat(xs: seq<byte>, ys: seq<byte>)
    ensures FromBytes(xs + ys) == FromBytes(xs) + Pow256(|xs|) * FromBytes(ys)
  {
    if xs == [] {
      assert xs + ys == ys;
    } else {
      assert (xs + ys)[1..] == xs[1..] + ys;
      FromBytesConcat(xs[1..], ys);
      ScaledBy256(xs[0], FromBytes(xs[1..]), Pow256(|xs| - 1), FromBytes(ys));
    }
  }

  lemma ScaledBy256(low: int, rest: int, p: int, v: int)
    ensures low + 256 * (rest + p * v) == low + 256 * rest + (256 * p) * v
  {
  }

  function Load(m: Bytemap, a: int, n: nat): nat
    requires Has(m, a, n)
  {
    FromBytes(Fetch(m, a, n))
  }

  function Store(m: Bytemap, a: int, n: nat, v: nat): Bytemap {
    Patch(m, a, ToBytes(v, n))
  }

  lemma {:induction false} FetchPatched(m: Bytemap, a: int, data: seq<byte>, b: int, n: nat)
    requires Has(m, b, n)
    ensures Has(Patch(m, a, data), b, n)
    ensures a == b && n == |data| ==> Fetch(Patch(m, a, data), b, n) == data
    ensures a + |data| <= b || b + n <= a ==> Fetch(Patch(m, a, data), b, n) == Fetch(m, b, n)
  {
    var p := Patch(m, a, data);
    forall k | 0 <= k < n
      ensures Fetch(p, b, n)[k] == p[b + k] && Fetch(m, b, n)[k] == m[b + k]
    {
      FetchAt(p, b, n, k);
      FetchAt(m, b, n, k);
    }
  }

  // A load after a store to the same place returns the stored value.
  lemma {:induction false} LoadStored(m: Bytemap, a: int, n: nat, v: nat)
    requires Has(m, a, n) && v < Pow256(n)
    ensures Has(Store(m, a, n, v), a, n) && Load(Store(m, a, n, v), a, n) == v
  {
    FetchPatched(m, a, ToBytes(v, n), a, n);
    FromToBytes(v, n);
  }

  // A store changes no disjoint load.
  lemma LoadApart(m: Bytemap, a: int, n: nat, v: nat, b: int, k: nat)
    requires Has(m, b, k) && (a + n <= b || b + k <= a)
    ensures Has(Store(m, a, n, v), b, k) && Load(Store(m, a, n, v), b, k) == Load(m, b, k)
  {
    FetchPatched(m, a, ToBytes(v, n), b, k);
  }

  // A wide load is assembled from narrower ones.
  lemma LoadAssembled(m: Bytemap, a: int, n: nat, k: nat)
    requires Has(m, a, n + k)
    ensures Load(m, a, n + k) == Load(m, a, n) + Pow256(n) * Load(m, a + n, k)
  {
    FetchSplit(m, a, n, k);
    FromBytesConcat(Fetch(m, a, n), Fetch(m, a + n, k));
  }

  lemma {:induction false} FetchSplit(m: Bytemap, a: int, n: nat, k: nat)
    requires Has(m, a, n + k)
    ensures Fetch(m, a, n + k) == Fetch(m, a, n) + Fetch(m, a + n, k)
    decreases n
  {
    if n > 0 {
      FetchSplit(m, a + 1, n - 1, k);
    }
  }

  lemma Pow256Values()
    ensures Pow256(1) == 0x100 && Pow256(2) == 0x1_0000 && Pow256(4) == 0x1_0000_0000
    ensures Pow256(8) == 0x1_0000_0000_0000_0000
  {
    assert Pow256(3) == 0x100_0000 && Pow256(5) == 0x100_0000_0000 && Pow256(6) == 0x1_0000_0000_0000;
  }

  // ---- guest accesses ----

  // A failed load delivers 0 and a failed store changes nothing.
  ghost function LoadOr0(m: Bytemap, a: u64, n: nat): (v: u64)
    requires n <= 8
  {
    if Has(m, a, n) then LoadBound(m, a, n); Load(m, a, n) else 0
  }

  ghost function StoreIf(m: Bytemap, a: u64, n: nat, v: u64): Bytemap {
    if Has(m, a, n) then Store(m, a, n, v) else m
  }

  lemma LoadBound(m: Bytemap, a: int, n: nat)
    requires Has(m, a, n) && n <= 8
    ensures Load(m, a, n) < 0x1_0000_0000_0000_0000
  {
    ToFromBytes(Fetch(m, a, n));
    Pow256Values();
    Pow256Grows(n, 8);
  }

  lemma {:induction false} Pow256Grows(n: nat, k: nat)
    requires n <= k
    ensures Pow256(n) <= Pow256(k)
  {
    if n < k { Pow256Grows(n, k - 1); }
  }
}
