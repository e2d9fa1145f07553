// Bit sequences, their big-endian value, and their packing into bytes.
module Bits {
  import opened Words

  type bit = x: int | 0 <= x < 2

  // The number a bit sequence spells, highest bit first.
  function Value(b: seq<bit>): nat {
    if |b| == 0 then 0 else 2 * Value(b[..|b| - 1]) + b[|b| - 1]
  }

  lemma {:induction false} ValueBound(b: seq<bit>)
    ensures Value(b) < Pow2(|b|)
  {
    if |b| > 0 { ValueBound(b[..|b| - 1]); }
  }

  lemma {:induction false} ValueAppend(a: seq<bit>, b: seq<bit>)
    ensures Value(a + b) == Value(a) * Pow2(|b|) + Value(b)
  {
    if |b| == 0 {
      assert a + b == a;
    } else {
      var b' := b[..|b| - 1];
      assert (a + b)[..|a + b| - 1] == a + b';
      ValueAppend(a, b');
      MulAssoc(2, Value(a), Pow2(|b'|));
      MulAssoc(Value(a), 2, Pow2(|b'|));
    }
  }

  // Raising bits never lowers the value.
  lemma {:induction false} ValueMonotone(a: seq<bit>, b: seq<bit>)
    requires |a| == |b| && forall i :: 0 <= i < |a| ==> a[i] <= b[i]
    ensures Value(a) <= Value(b)
  {
    if |a| > 0 { ValueMonotone(a[..|a| - 1], b[..|b| - 1]); }
  }

  // Of two numbers of the same width, the larger has the larger prefix.
  lemma PrefixOrder(a: seq<bit>, a': seq<bit>, b: seq<bit>, b': seq<bit>)
    requires |a| == |b| && |a'| == |b'|
    requires Value(a + a') <= Value(b + b')
    ensures Value(a) <= Value(b)
  {
    ValueAppend(a, a');
    ValueAppend(b, b');
    ValueBound(b');
    HighPartOrder(Value(a), Value(a'), Value(b), Value(b'), Pow2(|b'|));
  }

  lemma HighPartOrder(a: nat, x: nat, b: nat, y: nat, w: nat)
    requires a * w + x <= b * w + y && y < w
    ensures a <= b
  {
    if b < a {
      MulLe(b + 1, a, w);
      MulAdd(b, 1, w);
    }
  }

  function Complement(b: seq<bit>): (c: seq<bit>)
    ensures |c| == |b|
  {
    seq(|b|, i requires 0 <= i < |b| => 1 - b[i])
  }

  lemma {:induction false} ComplementValue(b: seq<bit>)
    ensures Value(Complement(b)) == Pow2(|b|) - 1 - Value(b)
  {
    if |b| > 0 {
      assert Complement(b)[..|b| - 1] == Complement(b[..|b| - 1]);
      ComplementValue(b[..|b| - 1]);
    }
  }

  function Zeros(n: nat): (z: seq<bit>)
    ensures |z| == n
  {
    seq(n, _ => 0)
  }

  lemma {:induction false} ZerosValue(n: nat)
    ensures Value(Zeros(n)) == 0
  {
    if n > 0 {
      assert Zeros(n)[..n - 1] == Zeros(n - 1);
      ZerosValue(n - 1);
    }
  }

  // ---- Bytes ----

  // Bit k of a byte, bit 0 being the highest.
  function BitOf(x: byte, k: nat): bit
    requires k < 8
  {
    x / Pow2(7 - k) % 2
  }

  function ByteBits(x: byte): (b: seq<bit>)
    ensures |b| == 8
  {
    seq(8, k requires 0 <= k < 8 => BitOf(x, k))
  }

  lemma SmallPowers()
    ensures Pow2(0) == 1 && Pow2(1) == 2 && Pow2(2) == 4 && Pow2(3) == 8
    ensures Pow2(4) == 16 && Pow2(5) == 32 && Pow2(6) == 64 && Pow2(7) == 128 && Pow2(8) == 256
  {
    assert Pow2(1) == 2 && Pow2(3) == 8;
    assert Pow2(5) == 32;
    assert Pow2(7) == 128;
  }

  ghost function Weighted(b: seq<int>): int
    requires |b| == 8
  {
    128 * b[0] + 64 * b[1] + 32 * b[2] + 16 * b[3] + 8 * b[4] + 4 * b[5] + 2 * b[6] + b[7]
  }

  lemma EightBits(b: seq<bit>)
    requires |b| == 8
    ensures Value(b) == Weighted(b)
  {
    assert b[..7][..6] == b[..6] && b[..6][..5] == b[..5] && b[..5][..4] == b[..4];
    assert b[..4][..3] == b[..3] && b[..3][..2] == b[..2] && b[..2][..1] == b[..1] && b[..1][..0] == [];
    assert Value(b[..1]) == b[0];
    assert Value(b[..2]) == 2 * Value(b[..1]) + b[1];
    assert Value(b[..3]) == 2 * Value(b[..2]) + b[2];
    assert Value(b[..4]) == 2 * Value(b[..3]) + b[3];
    assert Value(b[..5]) == 2 * Value(b[..4]) + b[4];
    assert Value(b[..6]) == 2 * Value(b[..5]) + b[5];
    assert Value(b[..7]) == 2 * Value(b[..6]) + b[6];
  }

  // The bits of a byte are the bits that spell it, in both directions.
  lemma {:induction false} BitOfValue(b: seq<bit>, k: nat)
    requires |b| == 8 && k < 8
    ensures Value(b) < 256 && BitOf(Value(b), k) == b[k]
  {
    SmallPowers();
    ValueBound(b);
    var hi, lo := b[..k], b[k + 1..];
    assert b == (hi + [b[k]]) + lo;
    ValueAppend(hi + [b[k]], lo);
    ValueAppend(hi, [b[k]]);
    assert Value([b[k]]) == b[k] by { assert [b[k]][..0] == []; }
    ValueBound(lo);
    ModUnique(Value(b), Value(hi + [b[k]]), Pow2(7 - k), Value(lo));
  }

  lemma ValueOfByteBits(x: byte)
    ensures Value(ByteBits(x)) == x
  {
    SmallPowers();
    var b := ByteBits(x);
    EightBits(b);
    Halving(x);
  }

  lemma Halving(x: byte)
    ensures x == 128 * (x / 128 % 2) + 64 * (x / 64 % 2) + 32 * (x / 32 % 2) + 16 * (x / 16 % 2)
               + 8 * (x / 8 % 2) + 4 * (x / 4 % 2) + 2 * (x / 2 % 2) + x / 1 % 2
  {
    HalvingLow(x);
    HalvingHigh(x);
  }

  lemma HalvingLow(x: byte)
    ensures x == 16 * (x / 16) + 8 * (x / 8 % 2) + 4 * (x / 4 % 2) + 2 * (x / 2 % 2) + x / 1 % 2
  {
    assert x / 4 == x / 2 / 2 && x / 8 == x / 4 / 2 && x / 16 == x / 8 / 2;
  }

  lemma HalvingHigh(x: byte)
    ensures x / 16 == 8 * (x / 128 % 2) + 4 * (x / 64 % 2) + 2 * (x / 32 % 2) + x / 16 % 2
  {
    assert x / 32 == x / 16 / 2 && x / 64 == x / 32 / 2 && x / 128 == x / 64 / 2;
  }

  // All bits of a byte string.
  function Unpack(s: seq<byte>): (b: seq<bit>)
    ensures |b| == 8 * |s|
  {
    seq(8 * |s|, i requires 0 <= i < 8 * |s| => BitOf(s[i / 8], i % 8))
  }

  // Bytes from whole groups of eight bits.
  function Pack(b: seq<bit>): (s: seq<byte>)
    requires |b| % 8 == 0
    ensures |s| == |b| / 8
  {
    seq(|b| / 8, t requires 0 <= t < |b| / 8 => ByteOf(b[8 * t..8 * t + 8]))
  }

  function ByteOf(b: seq<bit>): (x: byte)
    requires |b| == 8
  {
    BitOfValue(b, 0);
    Value(b)
  }

  lemma UnpackPack(b: seq<bit>)
    requires |b| % 8 == 0
    ensures Unpack(Pack(b)) == b
  {
    forall i | 0 <= i < |b|
      ensures Unpack(Pack(b))[i] == b[i]
    {
      BitOfValue(b[8 * (i / 8)..8 * (i / 8) + 8], i % 8);
    }
  }

  lemma PackUnpack(s: seq<byte>)
    ensures Pack(Unpack(s)) == s
  {
    forall t | 0 <= t < |s|
      ensures Pack(Unpack(s))[t] == s[t]
    {
      UnpackedByte(s, t);
      ValueOfByteBits(s[t]);
    }
  }

  lemma UnpackedByte(s: seq<byte>, t: nat)
    requires t < |s|
    ensures Unpack(s)[8 * t..8 * t + 8] == ByteBits(s[t])
  {
    hide BitOf;
    forall j | 0 <= j < 8
      ensures Unpack(s)[8 * t + j] == BitOf(s[t], j)
    {
      assert (8 * t + j) / 8 == t && (8 * t + j) % 8 == j;
    }
  }

  lemma UnpackInjective(s: seq<byte>, t: seq<byte>)
    requires Unpack(s) == Unpack(t)
    ensures s == t
  {
    PackUnpack(s);
    PackUnpack(t);
  }

  lemma UnpackAppend(s: seq<byte>, t: seq<byte>)
    ensures Unpack(s + t) == Unpack(s) + Unpack(t)
  {}

  // x | (0x80 >> k).
  function SetBit(x: byte, k: nat): (y: byte)
    requires k < 8
  {
    if BitOf(x, k) == 1 then x
    else
      RaiseBit(x, k);
      x + Pow2(7 - k)
  }

  lemma RaiseBit(x: byte, k: nat)
    requires k < 8 && BitOf(x, k) == 0
    ensures x + Pow2(7 - k) == Value(ByteBits(x)[k := 1]) < 256
  {
    SmallPowers();
    ValueOfByteBits(x);
    EightBits(ByteBits(x));
    EightBits(ByteBits(x)[k := 1]);
    BitOfValue(ByteBits(x)[k := 1], k);
  }

  lemma SetBitBits(x: byte, k: nat)
    requires k < 8
    ensures ByteBits(SetBit(x, k)) == ByteBits(x)[k := 1]
  {
    if BitOf(x, k) == 0 {
      RaiseBit(x, k);
      forall m | 0 <= m < 8
        ensures ByteBits(SetBit(x, k))[m] == ByteBits(x)[k := 1][m]
      {
        BitOfValue(ByteBits(x)[k := 1], m);
      }
    }
  }

  // ^x, the byte with every bit flipped.
  lemma FlippedBits(x: byte)
    ensures ByteBits(255 - x) == Complement(ByteBits(x))
  {
    var c := Complement(ByteBits(x));
    ComplementValue(ByteBits(x));
    ValueOfByteBits(x);
    SmallPowers();
    forall m | 0 <= m < 8
      ensures ByteBits(255 - x)[m] == c[m]
    {
      BitOfValue(c, m);
    }
  }
}
