// Fixed-width words, powers of two and the little-endian value of a limb or byte sequence.
module Words {

  const WORD: int := 0x1_0000_0000

  type u32 = x: int | 0 <= x < WORD
  type byte = x: int | 0 <= x < 256

  function Min(a: int, b: int): int {
    if a <= b then a else b
  }

  // Products of variables are reasoned about through these facts only.
  lemma MulLe(a: int, b: int, c: int)
    requires a <= b && 0 <= c
    ensures a * c <= b * c
  {}

  lemma MulAdd(a: int, b: int, c: int)
    ensures (a + b) * c == a * c + b * c && c * (a + b) == a * c + b * c
  {}

  lemma MulAssoc(a: int, b: int, c: int)
    ensures (a * b) * c == a * (b * c) && (a * b) * c == (a * c) * b
  {}

  lemma MulNonneg(a: int, b: int)
    requires 0 <= a && 0 <= b
    ensures 0 <= a * b
  {}

  // A residue is determined by its range and one multiple of the modulus.
  lemma ModUnique(x: int, k: int, m: int, r: int)
    requires m > 0 && 0 <= r < m && x == r + k * m
    ensures x % m == r && x / m == k
  {
    var q := x / m;
    assert x == q * m + x % m;
    MulAdd(1, k, m);
    MulAdd(1, q, m);
    if q > k {
      MulLe(k + 1, q, m);
    } else if q < k {
      MulLe(q + 1, k, m);
    }
  }

  function Pow2(n: nat): (r: nat)
    ensures r >= 1
  {
    if n == 0 then 1 else 2 * Pow2(n - 1)
  }

  lemma {:induction false} Pow2Add(m: nat, n: nat)
    ensures Pow2(m + n) == Pow2(m) * Pow2(n)
  {
    if m > 0 {
      Pow2Add(m - 1, n);
      MulAssoc(2, Pow2(m - 1), Pow2(n));
      assert (m + n) - 1 == (m - 1) + n;
    }
  }

  lemma {:induction false} Pow2Monotone(m: nat, n: nat)
    requires m <= n
    ensures Pow2(m) <= Pow2(n)
  {
    if m < n { Pow2Monotone(m, n - 1); }
  }

  lemma Pow2At8()
    ensures Pow2(0) == 1 && Pow2(8) == 256
  {
    assert Pow2(4) == 16;
  }

  lemma Pow2Words()
    ensures Pow2(8) == 0x100 && Pow2(16) == 0x1_0000 && Pow2(24) == 0x100_0000 && Pow2(32) == WORD
  {
    Pow2At8();
    Pow2Add(8, 8);
    Pow2Add(16, 8);
    Pow2Add(16, 16);
  }

  // The weight of limb `i` in a base-2^32 number.
  function W(i: nat): (r: nat)
    ensures r >= 1
  {
    if i == 0 then 1 else WORD * W(i - 1)
  }

  lemma {:induction false} WIsPow2(i: nat)
    ensures W(i) == Pow2(32 * i)
  {
    if i > 0 {
      WIsPow2(i - 1);
      Pow2Words();
      Pow2Add(32, 32 * (i - 1));
      assert 32 + 32 * (i - 1) == 32 * i;
    }
  }

  lemma {:induction false} WAdd(i: nat, j: nat)
    ensures W(i + j) == W(i) * W(j)
  {
    if i > 0 {
      WAdd(i - 1, j);
      MulAssoc(WORD, W(i - 1), W(j));
      assert (i + j) - 1 == (i - 1) + j;
    }
  }

  // The value of the `n` lowest limbs of `s`, limb 0 being the least significant.
  function Prefix(s: seq<u32>, n: nat): nat
    requires n <= |s|
  {
    if n == 0 then 0 else Prefix(s, n - 1) + s[n - 1] * W(n - 1)
  }

  lemma {:induction false} PrefixBound(s: seq<u32>, n: nat)
    requires n <= |s|
    ensures Prefix(s, n) < W(n)
  {
    if n > 0 {
      PrefixBound(s, n - 1);
      MulLe(s[n - 1], WORD - 1, W(n - 1));
    }
  }

  lemma {:induction false} PrefixSame(s: seq<u32>, t: seq<u32>, n: nat)
    requires n <= |s| && n <= |t|
    requires forall i :: 0 <= i < n ==> s[i] == t[i]
    ensures Prefix(s, n) == Prefix(t, n)
  {
    if n > 0 { PrefixSame(s, t, n - 1); }
  }

  lemma {:induction false} PrefixUpdate(s: seq<u32>, n: nat, k: nat, x: u32)
    requires k < n <= |s|
    ensures Prefix(s[k := x], n) == Prefix(s, n) + (x - s[k]) * W(k)
  {
    if k == n - 1 {
      PrefixSame(s, s[k := x], n - 1);
      MulAdd(s[k], x - s[k], W(k));
    } else {
      PrefixUpdate(s, n - 1, k, x);
    }
  }

  lemma {:induction false} PrefixZero(s: seq<u32>, n: nat)
    requires n <= |s|
    requires forall i :: 0 <= i < n ==> s[i] == 0
    ensures Prefix(s, n) == 0
  {
    if n > 0 { PrefixZero(s, n - 1); }
  }

  // Two numbers whose limbs agree above limb `i` compare as their limbs `i` do.
  lemma {:induction false} PrefixLess(s: seq<u32>, t: seq<u32>, i: nat, n: nat)
    requires i < n <= |s| && n <= |t|
    requires s[i] < t[i]
    requires forall k :: i < k < n ==> s[k] == t[k]
    ensures Prefix(s, n) < Prefix(t, n)
  {
    if i == n - 1 {
      PrefixBound(s, i);
      MulAdd(s[i], 1, W(i));
      MulLe(s[i] + 1, t[i], W(i));
    } else {
      PrefixLess(s, t, i, n - 1);
    }
  }

  // The little-endian number spelled by a byte sequence.
  function LE(s: seq<byte>): nat {
    if |s| == 0 then 0 else LE(s[..|s| - 1]) + (s[|s| - 1] as int) * Pow2(8 * (|s| - 1))
  }

  lemma {:induction false} LEBound(s: seq<byte>)
    ensures LE(s) < Pow2(8 * |s|)
  {
    if |s| > 0 {
      LEBound(s[..|s| - 1]);
      Pow2At8();
      Pow2Add(8, 8 * (|s| - 1));
      MulLe(s[|s| - 1] as int, 255, Pow2(8 * (|s| - 1)));
    }
  }

  lemma {:induction false} LEZeros(s: seq<byte>, z: seq<byte>)
    requires forall i :: 0 <= i < |z| ==> z[i] == 0
    ensures LE(s + z) == LE(s)
  {
    if |z| == 0 {
      assert s + z == s;
    } else {
      var k := |z| - 1;
      assert (s + z)[..|s + z| - 1] == s + z[..k];
      LEZeros(s, z[..k]);
    }
  }

  lemma SliceOfSlice<T>(b: seq<T>, off: nat, n: nat, lo: nat, len: nat)
    requires off + n <= |b| && lo + len <= n
    ensures b[off..off + n][lo..lo + len] == b[off + lo..off + lo + len]
  {
    var x, y := b[off..off + n][lo..lo + len], b[off + lo..off + lo + len];
    forall k | 0 <= k < len
      ensures x[k] == y[k]
    {
      assert b[off..off + n][lo + k] == b[off + lo + k];
    }
  }
}
