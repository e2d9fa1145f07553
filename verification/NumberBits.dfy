// Single bits of natural numbers.
module NumberBits {
  import opened Words

  // Bit j of a number, bit 0 being the lowest.
  function BitAt(n: nat, j: nat): (b: nat)
    ensures b < 2
  {
    n / Pow2(j) % 2
  }

  // Of a number put together at bit k, the low part has the bits below k and the high part the rest.
  lemma BitOfSum(lo: nat, hi: nat, k: nat, j: nat)
    requires lo < Pow2(k)
    ensures BitAt(lo + hi * Pow2(k), j) == if j < k then BitAt(lo, j) else BitAt(hi, j - k)
  {
    hide Pow2;
    if j < k {
      Pow2Add(k - j, j);
      Pow2Even(k - j);
      LowPart(lo, hi, Pow2(k - j), Pow2(j));
    } else {
      Pow2Add(j - k, k);
      HighPart(lo, hi, Pow2(j - k), Pow2(k));
    }
  }

  lemma Pow2Even(n: nat)
    requires n > 0
    ensures Pow2(n) % 2 == 0
  {}

  lemma LowPart(lo: nat, hi: nat, v: nat, w: nat)
    requires v > 0 && w > 0 && v % 2 == 0
    ensures (lo + hi * (v * w)) / w % 2 == lo / w % 2
  {
    assert lo == lo / w * w + lo % w;
    MulAssoc(hi, v, w);
    MulAdd(lo / w, hi * v, w);
    ModUnique(lo + hi * (v * w), lo / w + hi * v, w, lo % w);
    var u := v / 2;
    assert v == 2 * u;
    MulAssoc(2, u, hi);
    ModTwo(lo / w, hi * u);
  }

  lemma ModTwo(a: int, b: int)
    ensures (a + 2 * b) % 2 == a % 2
  {}

  lemma HighPart(lo: nat, hi: nat, v: nat, w: nat)
    requires v > 0 && w > 0 && lo < w
    ensures (lo + hi * w) / (v * w) == hi / v
  {
    assert hi == hi / v * v + hi % v;
    MulAdd(hi / v * v, hi % v, w);
    MulAssoc(hi / v, v, w);
    MulNonneg(hi % v, w);
    MulLe(hi % v, v - 1, w);
    MulAdd(v - 1, 1, w);
    ModUnique(lo + hi * w, hi / v, v * w, hi % v * w + lo);
  }

  // Either part alone, with zeros in place of the other.
  lemma BitOfPart(lo: nat, hi: nat, k: nat, j: nat)
    requires lo < Pow2(k)
    ensures BitAt(lo, j) == if j < k then BitAt(lo + hi * Pow2(k), j) else 0
    ensures BitAt(hi * Pow2(k), j) == if j < k then 0 else BitAt(lo + hi * Pow2(k), j)
  {
    hide BitAt, Pow2;
    BitOfSum(lo, hi, k, j);
    BitOfSum(lo, 0, k, j);
    BitOfSum(0, hi, k, j);
    NoBits(j);
    if j >= k { NoBits(j - k); }
  }

  lemma NoBits(j: nat)
    ensures BitAt(0, j) == 0
  {
    ModUnique(0, 0, Pow2(j), 0);
  }

  // All bits of 2^n - 1 below n are set.
  lemma {:induction false} AllBits(n: nat, j: nat)
    requires j < n
    ensures BitAt(Pow2(n) - 1, j) == 1
  {
    if j == n - 1 {
      ModUnique(Pow2(n) - 1, 1, Pow2(j), Pow2(j) - 1);
    } else {
      AllBits(n - 1, j);
      hide BitAt;
      BitOfSum(Pow2(n - 1) - 1, 1, n - 1, j);
    }
  }

  // The bits of a byte string are those of its bytes.
  lemma {:induction false} BitOfBytes(s: seq<byte>, j: nat)
    requires j < 8 * |s|
    ensures BitAt(LE(s), j) == BitAt(s[j / 8], j % 8)
  {
    hide BitAt, Pow2;
    var k := |s| - 1;
    LEBound(s[..k]);
    BitOfSum(LE(s[..k]), s[k], 8 * k, j);
    if j < 8 * k { BitOfBytes(s[..k], j); }
  }

  lemma BitHalf(n: nat, j: nat)
    ensures BitAt(n, j) == if j == 0 then n % 2 else BitAt(n / 2, j - 1)
  {
    hide BitAt;
    assert n == n % 2 + n / 2 * 2;
    assert Pow2(1) == 2;
    BitOfSum(n % 2, n / 2, 1, j);
    LowestBit(n % 2);
  }

  lemma LowestBit(b: nat)
    requires b < 2
    ensures BitAt(b, 0) == b
  {}
}
