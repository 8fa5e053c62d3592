/** Division and powers of two, for packed fields. */
module Arithmetic {

  function Pow2(n: nat): (p: nat)
    ensures p > 0
  {
    if n == 0 then 1 else 2 * Pow2(n - 1)
  }

  lemma {:induction false} PowAdd(a: nat, b: nat)
    ensures Pow2(a + b) == Pow2(a) * Pow2(b)
  {
    if a > 0 {
      PowAdd(a - 1, b);
      assert Pow2(a + b) == 2 * Pow2(a - 1 + b) && Pow2(a) == 2 * Pow2(a - 1);
      hide Pow2;
      Doubled(Pow2(a - 1), Pow2(b));
    }
  }

  lemma Doubled(x: nat, y: nat)
    ensures 2 * (x * y) == 2 * x * y
  {
  }

  /** The powers a byte needs. */
  lemma PowByte()
    ensures Pow2(0) == 1 && Pow2(1) == 2 && Pow2(2) == 4 && Pow2(3) == 8 && Pow2(4) == 16
    ensures Pow2(5) == 32 && Pow2(6) == 64 && Pow2(7) == 128 && Pow2(8) == 256 && Pow2(16) == 65536
  {
    PowAdd(8, 8);
    assert Pow2(4) == 16 && Pow2(8) == 2 * Pow2(7) && Pow2(7) == 2 * Pow2(6) && Pow2(6) == 2 * Pow2(5) && Pow2(5) == 2 * Pow2(4);
  }

  lemma QuotientIs(x: nat, q: nat, r: nat, m: nat)
    requires m > 0 && r < m && x == q * m + r
    ensures x / m == q && x % m == r
  {
    var d := x / m - q;
    assert x == (q + d) * m + x % m;
    assert (q + d) * m == q * m + d * m;
    assert d >= 1 ==> d * m >= m;
    assert d <= -1 ==> d * m + m <= 0;
  }

  lemma DivideShift(x: nat, q: nat, m: nat)
    requires m > 0
    ensures (q * m + x) / m == q + x / m && (q * m + x) % m == x % m
  {
    var y, r := x / m, x % m;
    assert q * m + x == (q + y) * m + r;
    QuotientIs(q * m + x, q + y, r, m);
  }

  lemma RowBelow(row: nat, low: nat, m: nat, k: nat)
    requires low < m && row < k
    ensures row * m + low < m * k
  {
    assert (row + 1) * m <= k * m;
    assert (row + 1) * m == row * m + m;
  }

  lemma Regroup(q: nat, r: nat, m: nat, k: nat)
    ensures (q * k + r) * m == q * (m * k) + r * m
  {
    assert (q * k + r) * m == q * k * m + r * m;
    assert q * k * m == q * (m * k);
  }

  /** Dividing by a product drops a low part; the remainder keeps it. */
  lemma DivideNested(low: nat, high: nat, m: nat, k: nat)
    requires m > 0 && k > 0 && low < m
    ensures m * k > 0 && (low + high * m) / (m * k) == high / k
    ensures (low + high * m) % (m * k) == low + high % k * m
  {
    var q, r := high / k, high % k;
    assert high == q * k + r;
    Regroup(q, r, m, k);
    RowBelow(r, low, m, k);
    QuotientIs(low + high * m, q, r * m + low, m * k);
  }

  lemma DivideTwice(x: nat, m: nat, k: nat)
    requires m > 0 && k > 0
    ensures m * k > 0 && x / m / k == x / (m * k)
    ensures x % (m * k) == x % m + x / m % k * m
  {
    var low, high := x % m, x / m;
    assert x == low + high * m;
    DivideNested(low, high, m, k);
  }

  /** A multiple of the modulus above a value does not change its residue. */
  lemma ResidueKeeps(x: nat, q: nat, m: nat)
    requires m > 0
    ensures (x + q * m) % m == x % m
  {
    DivideShift(x, q, m);
  }

  lemma SubsetSize<T>(s: set<T>, t: set<T>)
    requires s <= t
    ensures |s| <= |t|
  {
    assert s + (t - s) == t;
    assert |s + (t - s)| == |s| + |t - s|;
  }
}
