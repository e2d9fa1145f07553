// The Poly1305 accumulator (section 2.5 of RFC 7539) on top of the 256-bit limb integers.
module Poly1305 {
  import opened Words
  import opened NumberBits
  import opened UInt256Limbs

  // 2^130 - 5.
  const P: int := 0x3_ffffffff_ffffffff_ffffffff_fffffffb

  // ---- Specification over numbers ----

  // The number a block of at most 16 bytes stands for: the bytes read little-endian with one more
  // bit set above them. A padded block is first filled up to 16 bytes with zeros.
  ghost function BlockNumber(c: seq<byte>, pad: bool): nat {
    LE(c) + Pow2(8 * (if pad then 16 else |c|))
  }

  ghost function Absorb(a: nat, r: nat, block: nat): nat {
    (a + block) * r % P
  }

  // The accumulator after a message has been cut into 16-byte blocks and absorbed from `a` on.
  ghost function Digest(a: nat, r: nat, m: seq<byte>, pad: bool): nat
    decreases |m|
  {
    if |m| == 0 then a
    else
      var c := Min(16, |m|);
      Digest(Absorb(a, r, BlockNumber(m[..c], pad)), r, m[c..], pad)
  }

  lemma {:induction false} DigestAppend(a: nat, r: nat, x: seq<byte>, y: seq<byte>, pad: bool)
    requires |x| % 16 == 0
    ensures Digest(a, r, x + y, pad) == Digest(Digest(a, r, x, pad), r, y, pad)
    decreases |x|
  {
    if |x| == 0 {
      assert x + y == y;
    } else {
      assert (x + y)[..16] == x[..16];
      assert (x + y)[16..] == x[16..] + y;
      DigestAppend(Absorb(a, r, BlockNumber(x[..16], pad)), r, x[16..], y, pad);
    }
  }

  lemma DigestBlock(a: nat, r: nat, c: seq<byte>, pad: bool)
    requires 0 < |c| <= 16
    ensures Digest(a, r, c, pad) == Absorb(a, r, BlockNumber(c, pad))
  {
    assert c[..|c|] == c && c[|c|..] == [];
  }

  lemma DigestEmpty(a: nat, r: nat, pad: bool)
    ensures Digest(a, r, [], pad) == a
  {}

  lemma DigestSnoc(a: nat, r: nat, m: seq<byte>, n: nat, len: nat, pad: bool)
    requires n % 16 == 0 && 0 < len <= 16 && n + len <= |m|
    ensures Digest(a, r, m[..n + len], pad)
         == Absorb(Digest(a, r, m[..n], pad), r, BlockNumber(m[n..n + len], pad))
  {
    assert m[..n + len] == m[..n] + m[n..n + len];
    DigestAppend(a, r, m[..n], m[n..n + len], pad);
    DigestBlock(Digest(a, r, m[..n], pad), r, m[n..n + len], pad);
  }

  function Zeros(n: nat): (z: seq<byte>)
    ensures |z| == n && forall i :: 0 <= i < n ==> z[i] == 0
  {
    seq(n, _ => 0)
  }

  // A byte string filled with zeros up to a multiple of 16.
  function Pad16(m: seq<byte>): (p: seq<byte>)
    ensures |p| % 16 == 0
  {
    m + Zeros((-|m|) % 16)
  }

  lemma LastBlockPads(m: seq<byte>)
    requires 0 < |m| <= 16
    ensures |Pad16(m)| == 16 && BlockNumber(m, true) == BlockNumber(Pad16(m), false)
  {
    LEZeros(m, Zeros((-|m|) % 16));
  }

  lemma FullBlockPads(c: seq<byte>)
    requires |c| == 16
    ensures BlockNumber(c, true) == BlockNumber(c, false)
  {}

  lemma DigestFirst(a: nat, r: nat, m: seq<byte>, pad: bool)
    requires |m| > 16
    ensures Digest(a, r, m, pad) == Digest(Absorb(a, r, BlockNumber(m[..16], pad)), r, m[16..], pad)
  {}

  lemma PadTail(m: seq<byte>)
    requires |m| > 16
    ensures |Pad16(m)| > 16 && Pad16(m)[..16] == m[..16] && Pad16(m)[16..] == Pad16(m[16..])
  {}

  // Digesting with padded blocks is digesting the padded message.
  lemma {:induction false} PaddedDigest(a: nat, r: nat, m: seq<byte>)
    ensures Digest(a, r, m, true) == Digest(a, r, Pad16(m), false)
    decreases |m|
  {
    hide Digest, Absorb, BlockNumber, Pad16;
    if |m| == 0 {
      PadNothing(a, r, m);
    } else if |m| <= 16 {
      LastBlockPads(m);
      DigestBlock(a, r, m, true);
      DigestBlock(a, r, Pad16(m), false);
    } else {
      PadTail(m);
      FullBlockPads(m[..16]);
      DigestFirst(a, r, m, true);
      DigestFirst(a, r, Pad16(m), false);
      PaddedDigest(Absorb(a, r, BlockNumber(m[..16], true)), r, m[16..]);
    }
  }

  lemma PadNothing(a: nat, r: nat, m: seq<byte>)
    requires m == []
    ensures Digest(a, r, m, true) == Digest(a, r, Pad16(m), false)
  {
    assert Pad16(m) == [];
  }

  // The closed form of the standard: sum over the n blocks of block_i * r^(n-i+1).
  ghost function Power(r: nat, n: nat): nat {
    if n == 0 then 1 else r * Power(r, n - 1)
  }

  ghost function BlockCount(m: seq<byte>): nat {
    (|m| + 15) / 16
  }

  ghost function Polynomial(r: nat, m: seq<byte>): nat
    decreases |m|
  {
    if |m| == 0 then 0
    else
      var c := Min(16, |m|);
      MulNonneg(BlockNumber(m[..c], false), Power(r, BlockCount(m)));
      BlockNumber(m[..c], false) * Power(r, BlockCount(m)) + Polynomial(r, m[c..])
  }

  lemma ModSwap(a: int, b: int, k: int, x: int)
    requires k >= 0 && a % P == b % P
    ensures (a * k + x) % P == (b * k + x) % P
  {
    var q := a / P - b / P;
    assert a == b + q * P;
    MulAdd(b, q * P, k);
    MulAssoc(q, P, k);
    ModUnique(a * k + x, q * k + (b * k + x) / P, P, (b * k + x) % P);
  }

  lemma HornerStep(a: nat, b: nat, r: nat, pw: nat, rest: nat)
    ensures (Absorb(a, r, b) * pw + rest) % P == (a * (r * pw) + (b * (r * pw) + rest)) % P
  {
    ModSwap(Absorb(a, r, b), (a + b) * r, pw, rest);
    MulAssoc(a + b, r, pw);
    MulAdd(a, b, r * pw);
  }

  // The running accumulator is the polynomial of the standard, reduced modulo 2^130 - 5.
  lemma {:induction false} DigestIsPolynomial(a: nat, r: nat, m: seq<byte>)
    requires a < P
    ensures Digest(a, r, m, false) == (a * Power(r, BlockCount(m)) + Polynomial(r, m)) % P
    decreases |m|
  {
    hide BlockNumber, Absorb;
    if |m| > 0 {
      var c := Min(16, |m|);
      var b, n := BlockNumber(m[..c], false), BlockCount(m);
      assert BlockCount(m[c..]) == n - 1;
      AbsorbBound(a, r, b);
      DigestIsPolynomial(Absorb(a, r, b), r, m[c..]);
      HornerStep(a, b, r, Power(r, n - 1), Polynomial(r, m[c..]));
    }
  }

  lemma AbsorbBound(a: nat, r: nat, b: nat)
    ensures Absorb(a, r, b) < P
  {}

  // ---- Key ----

  // Clamping clears the top four bits of bytes 3, 7, 11, 15 and the low two bits of bytes 4, 8, 12
  // of the key's first half.
  function ClampByte(b: byte, i: nat): byte {
    if i % 4 == 3 then b % 16 else if i % 4 == 0 && i > 0 then b - b % 4 else b
  }

  function Clamped(key: seq<byte>): (r: seq<byte>)
    requires |key| == 32
  {
    seq(16, i requires 0 <= i < 16 => ClampByte(key[i], i))
  }

  const MASK: nat := 0x0ffffffc_0ffffffc_0ffffffc_0fffffff

  // The bytes of that number, lowest first.
  function MaskByte(i: nat): byte {
    if i % 4 == 3 then 15 else if i % 4 == 0 && i > 0 then 252 else 255
  }

  lemma MaskValue(m: seq<byte>)
    requires |m| == 16 && forall i :: 0 <= i < 16 ==> m[i] == MaskByte(i)
    ensures LE(m) == MASK
  {
    assert Word(m, 0) == 0x0fff_ffff;
    assert Word(m, 4) == Word(m, 8) == Word(m, 12) == 0x0fff_fffc;
    LoadValue(m, [0x0fff_ffff, 0x0fff_fffc, 0x0fff_fffc, 0x0fff_fffc, 0, 0, 0, 0]);
    Expand([0x0fff_ffff, 0x0fff_fffc, 0x0fff_fffc, 0x0fff_fffc, 0, 0, 0, 0]);
  }

  // Within a byte: the three kinds of clamping, bit by bit.
  lemma ClampByteBits(b: byte, i: nat, j: nat)
    requires j < 8
    ensures BitAt(ClampByte(b, i), j) == if BitAt(MaskByte(i), j) == 1 then BitAt(b, j) else 0
  {
    hide BitAt, Pow2;
    Pow2Small();
    assert b == b % 16 + b / 16 * 16 && b == b % 4 + b / 4 * 4;
    BitOfPart(b % 16, b / 16, 4, j);
    BitOfPart(15, 0, 4, j);
    BitOfPart(b % 4, b / 4, 2, j);
    NoBits(j);
    BitOfSum(0, 63, 2, j);
    assert 0 + 63 * Pow2(2) == 63 * Pow2(2) == 252;
    AllBits(8, j);
    if j < 4 { AllBits(4, j); }
    if 2 <= j { AllBits(6, j - 2); }
  }

  lemma Pow2Small()
    ensures Pow2(2) == 4 && Pow2(4) == 16 && Pow2(6) == 64 && Pow2(8) == 256
  {
    assert Pow2(2) == 4;
  }

  // Bit by bit, the clamped half of the key is the half itself where the mask has a one.
  lemma ClampBits(key: seq<byte>, j: nat)
    requires |key| == 32 && j < 128
    ensures BitAt(LE(Clamped(key)), j)
         == if BitAt(0x0ffffffc_0ffffffc_0ffffffc_0fffffff, j) == 1 then BitAt(LE(key[..16]), j) else 0
  {
    var m: seq<byte> := seq(16, i requires 0 <= i < 16 => MaskByte(i));
    MaskValue(m);
    BitOfBytes(Clamped(key), j);
    BitOfBytes(key[..16], j);
    BitOfBytes(m, j);
    hide BitAt, LE, MaskByte, ClampByte;
    ClampByteBits(key[j / 8], j / 8, j % 8);
  }

  // Four bytes as one limb.
  function Word(s: seq<byte>, i: nat): (w: u32)
    requires i + 4 <= |s|
  {
    (s[i] as int) + (s[i + 1] as int) * 0x100 + (s[i + 2] as int) * 0x1_0000 + (s[i + 3] as int) * 0x100_0000
  }

  lemma LEStep(s: seq<byte>, n: nat)
    requires n < |s|
    ensures LE(s[..n + 1]) == LE(s[..n]) + (s[n] as int) * Pow2(8 * n)
  {
    assert s[..n + 1][..n] == s[..n];
  }

  lemma LEWord(s: seq<byte>, k: nat)
    requires 4 * k + 4 <= |s|
    ensures LE(s[..4 * k + 4]) == LE(s[..4 * k]) + Word(s, 4 * k) * W(k)
  {
    hide Pow2, W, LE;
    var n := 4 * k;
    Pow2AtBytes();
    LEStep(s, n);
    LEStep(s, n + 1);
    LEStep(s, n + 2);
    LEStep(s, n + 3);
    ByteAt(s[n], n, 0, k);
    ByteAt(s[n + 1], n + 1, 1, k);
    ByteAt(s[n + 2], n + 2, 2, k);
    ByteAt(s[n + 3], n + 3, 3, k);
    MulAddFour(s[n] as int, (s[n + 1] as int) * 0x100, (s[n + 2] as int) * 0x1_0000,
               (s[n + 3] as int) * 0x100_0000, W(k));
  }

  lemma MulAddFour(a: int, b: int, c: int, d: int, w: int)
    ensures (a + b + c + d) * w == a * w + b * w + c * w + d * w
  {
    MulAdd(a + b + c, d, w);
    MulAdd(a + b, c, w);
    MulAdd(a, b, w);
  }

  // A byte at position j carries the weight of its place in limb j/4.
  lemma ByteAt(x: byte, j: nat, place: nat, limb: nat)
    requires j == 4 * limb + place
    ensures (x as int) * Pow2(8 * j) == (x as int) * Pow2(8 * place) * W(limb)
  {
    WIsPow2(limb);
    Pow2Add(8 * place, 32 * limb);
    assert 8 * j == 8 * place + 32 * limb;
    MulAssoc(x as int, Pow2(8 * place), W(limb));
  }

  // Sixteen bytes loaded as four limbs keep their value.
  lemma LoadValue(s: seq<byte>, limbs: seq<u32>)
    requires |s| == 16
    requires limbs == [Word(s, 0), Word(s, 4), Word(s, 8), Word(s, 12), 0, 0, 0, 0]
    ensures Prefix(limbs, 8) == LE(s)
  {
    LEWord(s, 0);
    LEWord(s, 1);
    LEWord(s, 2);
    LEWord(s, 3);
    assert s[..16] == s;
    ZeroTail(limbs, 4, 8);
    assert Prefix(limbs, 4) == Prefix(limbs, 3) + limbs[3] * W(3);
    assert Prefix(limbs, 3) == Prefix(limbs, 2) + limbs[2] * W(2);
    assert Prefix(limbs, 2) == Prefix(limbs, 1) + limbs[1] * W(1);
  }

  lemma MaskedWord(a: int, b: int, c: int, d: int)
    requires 0 <= a < 256 && 0 <= b < 256 && 0 <= c < 256 && 0 <= d < 256
    ensures (a + b * 0x100 + c * 0x1_0000 + d * 0x100_0000) % 0x1000_0000
         == a + b * 0x100 + c * 0x1_0000 + (d % 16) * 0x100_0000
    ensures (a + b * 0x100 + c * 0x1_0000 + d * 0x100_0000) % 4 == a % 4
  {
    var t := a + b * 0x100 + c * 0x1_0000;
    assert d == d / 16 * 16 + d % 16;
    ModUnique(t + d * 0x100_0000, d / 16, 0x1000_0000, t + (d % 16) * 0x100_0000);
    assert a == a / 4 * 4 + a % 4;
    ModUnique(t + d * 0x100_0000, a / 4 + b * 0x40 + c * 0x4000 + d * 0x40_0000, 4, a % 4);
  }

  // Masking the limbs is clamping the bytes, for each of the four limbs.
  lemma ClampedWord(key: seq<byte>, k: nat)
    requires |key| == 32 && k < 4
    ensures Word(Clamped(key), 4 * k) == if k == 0 then Word(key, 0) % 0x1000_0000 else MaskLimb(Word(key, 4 * k))
  {
    var n := 4 * k;
    var c := Clamped(key);
    assert c[n] == ClampByte(key[n], n) && c[n + 3] == key[n + 3] % 16;
    assert c[n + 1] == key[n + 1] && c[n + 2] == key[n + 2];
    hide Clamped;
    MaskedWord(key[n], key[n + 1], key[n + 2], key[n + 3]);
  }

  lemma ClampedBound(key: seq<byte>)
    requires |key| == 32
    ensures LE(Clamped(key)) < Pow2(124)
  {
    var c := Clamped(key);
    assert c[15] <= 15 && c[..16] == c;
    hide LE, Clamped, Pow2;
    LEStep(c, 15);
    LEBound(c[..15]);
    MulLe(c[15] as int, 15, Pow2(120));
    SixteenTimes(120);
  }

  lemma SixteenTimes(n: nat)
    ensures Pow2(n + 4) == 16 * Pow2(n)
  {
    assert Pow2(4) == 16;
    Pow2Add(4, n);
  }

  // ---- The state ----

  // No sum or product of the loop leaves 256 bits.
  lemma NoWrap(a: nat, block: nat, r: nat)
    requires a < P && block < Pow2(129) && r < Pow2(124)
    ensures a + block < Pow2(131) < MOD
    ensures (a + block) * r < MOD
  {
    hide Pow2;
    SumBound(a, block);
    Pow2Monotone(124, 125);
    TopProduct();
    ProductBelow(a + block, r, Pow2(131), Pow2(125));
  }

  lemma SumBound(a: nat, block: nat)
    requires a < P && block < Pow2(129)
    ensures a + block < Pow2(131)
  {
    PBound();
    assert Pow2(2) == 4;
    Pow2Add(2, 129);
  }

  lemma TopProduct()
    ensures Pow2(131) < MOD && Pow2(131) * Pow2(125) == MOD
  {
    Pow2Add(131, 125);
    Pow2Monotone(131, 255);
    assert Pow2(256) == 2 * Pow2(255);
    ModIsW8();
  }

  lemma ProductBelow(x: nat, y: nat, u: nat, v: nat)
    requires x < u && y < v
    ensures x * y < u * v
  {
    MulLe(x, u - 1, y);
    MulLe(y, v - 1, u - 1);
    MulAdd(u, -1, v - 1);
    MulAdd(v, -1, u);
  }

  lemma StepIsAbsorb(a: nat, block: nat, r: nat)
    requires a < P && block < Pow2(129) && r < Pow2(124)
    ensures ((a + block) % MOD * r) % MOD % P == Absorb(a, r, block) < P
  {
    NoWrap(a, block, r);
    MulNonneg(a + block, r);
    NoCarry(a, block);
    SmallMod((a + block) * r);
  }

  lemma SmallMod(x: nat)
    requires x < MOD
    ensures x % MOD == x && 0 <= x % P < P
  {}

  lemma SumBelow(a: nat, s: nat)
    requires a < P && s < Pow2(128)
    ensures a + s < MOD && (a + s) % MOD == a + s
  {
    PBound();
    Pow2Monotone(128, 130);
    Pow2Monotone(131, 256);
    assert Pow2(131) == 2 * Pow2(130);
    ModIsW8();
    NoCarry(a, s);
  }

  lemma PBound()
    ensures P < Pow2(130) == 2 * Pow2(129)
  {
    ModIsW8();
    WIsPow2(4);
    assert W(1) == 0x1_0000_0000;
    assert W(2) == 0x1_00000000_00000000;
    assert W(3) == 0x1_00000000_00000000_00000000;
    assert W(4) == 0x1_00000000_00000000_00000000_00000000;
    assert Pow2(129) == 2 * Pow2(128);
  }

  lemma BlockBound(c: seq<byte>, pad: bool)
    requires |c| <= 16
    ensures BlockNumber(c, pad) < Pow2(129)
  {
    LEBound(c);
    var e := 8 * (if pad then 16 else |c|);
    Pow2Monotone(8 * |c|, e);
    Pow2Monotone(e + 1, 129);
    assert Pow2(e + 1) == 2 * Pow2(e);
  }

  // ---- The blocks of a message held in a byte buffer ----

  // Where the byte at position j of a block lands, and that its limb does not overflow.
  lemma ByteLands(limb: u32, x: byte, j: nat)
    requires limb < Pow2(8 * (j % 4))
    ensures limb + x * Pow2(8 * (j % 4)) < Pow2(8 * (j % 4) + 8) <= WORD
    ensures limb + Pow2(8 * (j % 4)) < WORD
    ensures (x as int) * Pow2(8 * (j % 4)) * W(j / 4) == (x as int) * Pow2(8 * j)
    ensures Pow2(8 * (j % 4)) * W(j / 4) == Pow2(8 * j)
  {
    var e := 8 * (j % 4);
    Pow2Words();
    Pow2Add(8, e);
    Pow2Monotone(e + 8, 32);
    Pow2Monotone(e, 24);
    MulLe(x, 255, Pow2(e));
    ByteAt(x, j, j % 4, j / 4);
    ByteAt(1, j, j % 4, j / 4);
  }

  // The limbs above position j are still empty, and limb j/4 holds only the bytes below j.
  ghost predicate RoomAt(b: seq<u32>, j: nat) {
    |b| == 8 && j <= 16 && b[j / 4] < Pow2(8 * (j % 4)) && forall k :: j / 4 < k < 8 ==> b[k] == 0
  }

  method AddByte(block: UInt256, j: nat, x: byte)
    requires block.Valid() && j < 16 && RoomAt(block.b[..], j)
    modifies block.b
    ensures RoomAt(block.b[..], j + 1)
    ensures block.Value() == old(block.Value()) + x * Pow2(8 * j)
  {
    hide RoomAt, Pow2, W, UInt256.Value;
    RoomForByte(block.b[..], j, x);
    AddToLimb(block, j / 4, (x as int) * Pow2(8 * (j % 4)));
  }

  lemma RoomForByte(b: seq<u32>, j: nat, x: byte)
    requires j < 16 && RoomAt(b, j)
    ensures |b| == 8
    ensures b[j / 4] + x * Pow2(8 * (j % 4)) < WORD
    ensures var y: u32 := b[j / 4] + x * Pow2(8 * (j % 4));
            RoomAt(b[j / 4 := y], j + 1)
    ensures (x as int) * Pow2(8 * (j % 4)) * W(j / 4) == (x as int) * Pow2(8 * j)
  {
    assert Pow2(0) == 1;
    hide Pow2, W;
    ByteLands(b[j / 4], x, j);
    MulNonneg(x, Pow2(8 * (j % 4)));
  }

  // Sets the bit above the last byte: bit 128 of a padded block, bit 8*j otherwise.
  method AddTopBit(block: UInt256, j: nat, pad: bool)
    requires block.Valid() && RoomAt(block.b[..], j)
    modifies block.b
    ensures block.Value() == old(block.Value()) + Pow2(8 * (if pad then 16 else j))
  {
    assert Pow2(0) == 1;
    WIsPow2(4);
    ByteLands(block.b[j / 4], 0, j);
    hide Pow2, W, UInt256.Value;
    if pad {
      AddToLimb(block, 4, 1);
    } else {
      AddToLimb(block, j / 4, Pow2(8 * (j % 4)));
    }
  }

  // Fills the limbs of a fresh number with up to 16 bytes of `m` and the bit above them.
  method LoadBlock(m: array<byte>, off: nat, len: nat, pad: bool) returns (block: UInt256)
    requires off + len <= m.Length && len <= 16
    ensures block.Valid() && fresh(block) && fresh(block.b)
    ensures block.Value() == BlockNumber(m[off..off + len], pad)
  {
    ghost var s := m[off..off + len];
    assert LE(s[..0]) == 0 && Pow2(0) == 1;
    assert BlockNumber(s, pad) == LE(s) + Pow2(8 * (if pad then 16 else len));
    block := new UInt256.Zero();
    assert RoomAt(block.b[..], 0);
    hide RoomAt, Pow2, LE, BlockNumber, UInt256.Value;
    var j := 0;
    while j < len
      invariant 0 <= j <= len
      invariant block.Value() == LE(s[..j]) && RoomAt(block.b[..], j)
    {
      LEStep(s, j);
      AddByte(block, j, m[off + j]);
      j := j + 1;
    }
    assert s[..len] == s;
    AddTopBit(block, j, pad);
  }

  method AddToLimb(u: UInt256, k: nat, x: nat)
    requires u.Valid() && k < 8 && u.b[k] + x < WORD
    modifies u.b
    ensures u.b[..] == old(u.b[..])[k := old(u.b[k]) + x]
    ensures u.Value() == old(u.Value()) + x * W(k)
  {
    ghost var s := u.b[..];
    u.b[k] := u.b[k] + x;
    PrefixUpdate(s, 8, k, s[k] + x);
    assert u.b[..] == s[k := s[k] + x];
  }

  // The number of message bytes the block loop reaches. The block count is computed in 32 bits.
  function Reach(size: u32): (n: nat)
    ensures n <= size
  {
    Min(size, (size + 15) % WORD / 16 * 16)
  }

  // The loop digests the whole message exactly when the rounded size does not wrap; otherwise it
  // digests none of it.
  lemma ReachesAll(size: u32)
    ensures Reach(size) == size <==> size + 15 < WORD
    ensures size + 15 >= WORD ==> Reach(size) == 0
  {}

  // A block is the same slice of the buffer and of the reached part of the message.
  lemma BlockSlice(b: seq<byte>, off: nat, size: u32, i: nat, len: nat)
    requires off + size <= |b| && i < (size + 15) % WORD / 16 && len == Min(16, size - 16 * i)
    ensures 0 < len && 16 * i + len <= Reach(size) && Min(16 * (i + 1), Reach(size)) == 16 * i + len
    ensures b[off..off + Reach(size)][16 * i..16 * i + len] == b[off + 16 * i..off + 16 * i + len]
  {
    ReachesAll(size);
    assert size + 15 < WORD && Reach(size) == size;
    var n := (size + 15) / 16;
    assert i + 1 <= n && 16 * (n - 1) < size;
    assert 16 * i <= 16 * (n - 1);
    SliceOfSlice(b, off, size, 16 * i, len);
  }

  class State {
    const r: UInt256
    const s: UInt256
    const p: UInt256
    const a: UInt256

    ghost predicate Valid()
      reads r.b, s.b, p.b, a.b
    {
      && r.Valid() && s.Valid() && p.Valid() && a.Valid()
      && a.b != r.b && a.b != s.b && a.b != p.b
      && r.Value() < Pow2(124) && s.Value() < Pow2(128) && p.Value() == P && a.Value() < P
    }

    constructor (key: seq<byte>)
      requires |key| == 32
      ensures Valid() && fresh(r.b) && fresh(s.b) && fresh(p.b) && fresh(a.b)
      ensures r.Value() == LE(Clamped(key)) && s.Value() == LE(key[16..]) && a.Value() == 0
    {
      hide UInt256.Value, LE, Prefix, Clamped, Pow2, Word, MaskLimb;
      r := new UInt256.FromWords(0, 0, 0, 0, Word(key, 12), Word(key, 8), Word(key, 4), Word(key, 0));
      s := new UInt256.FromWords(0, 0, 0, 0, Word(key, 28), Word(key, 24), Word(key, 20), Word(key, 16));
      p := new UInt256.FromWords(0, 0, 0, 3, 0xffffffff, 0xffffffff, 0xffffffff, 0xfffffffb);
      a := new UInt256.Zero();
      new;
      r.Clamp();
      ClampedLimbs(key, r.b[..]);
      r.IsPrefix();
      KeyHalf(key, s.b[..]);
      s.IsPrefix();
      ModulusLimbs(p.b[..]);
      p.IsPrefix();
    }

    // One turn of the accumulator loop.
    method Step(block: UInt256)
      requires Valid() && block.Valid() && block.b != a.b && block.Value() < Pow2(129)
      modifies a.b
      ensures Valid() && a.Value() == Absorb(old(a.Value()), r.Value(), old(block.Value()))
    {
      hide UInt256.Value, Pow2, Absorb;
      StepIsAbsorb(a.Value(), block.Value(), r.Value());
      a.Add(block);
      a.Mul(r);
      var rest := Remainder(a, p);
      a.Assign(rest);
    }

    method Update(message: array<byte>, off: nat, size: u32, pad: bool)
      requires Valid() && off + size <= message.Length
      modifies a.b
      ensures Valid()
      ensures a.Value() == Digest(old(a.Value()), r.Value(), old(message[off..off + Reach(size)]), pad)
      ensures message[..] == old(message[..])
      ensures r.Value() == old(r.Value()) && s.Value() == old(s.Value())
    {
      hide UInt256.Value, Pow2, Digest, BlockNumber;
      ghost var m := message[off..off + Reach(size)];
      ghost var a0 := a.Value();
      DigestEmpty(a0, r.Value(), pad);
      var n := (size + 15) % WORD / 16;
      var i := 0;
      while i < n
        invariant 0 <= i <= n
        invariant Valid()
        invariant message[..] == old(message[..])
        invariant a.Value() == Digest(a0, r.Value(), m[..Min(16 * i, |m|)], pad)
      {
        var len := Min(16, size - 16 * i);
        var block := LoadBlock(message, off + 16 * i, len, pad);
        ghost var c := message[off + 16 * i..off + 16 * i + len];
        BlockSlice(message[..], off, size, i, len);
        BlockBound(c, pad);
        DigestSnoc(a0, r.Value(), m, 16 * i, len, pad);
        Step(block);
        i := i + 1;
      }
      assert m[..|m|] == m;
    }

    method Finish() returns (tag: seq<byte>)
      requires Valid()
      modifies a.b
      ensures |tag| == 16
      ensures LE(tag) == (old(a.Value()) + s.Value()) % Pow2(128)
    {
      hide UInt256.Value, LE, Pow2;
      ghost var total := a.Value() + s.Value();
      SumBelow(a.Value(), s.Value());
      a.Add(s);
      tag := LimbBytes(a.b[0]) + LimbBytes(a.b[1]) + LimbBytes(a.b[2]) + LimbBytes(a.b[3]);
      TagValue(a.b[..], tag);
      a.IsPrefix();
    }
  }

  // ---- The tag ----

  function LimbBytes(x: u32): (t: seq<byte>)
    ensures |t| == 4
  {
    [x % 0x100, x / 0x100 % 0x100, x / 0x1_0000 % 0x100, x / 0x100_0000 % 0x100]
  }

  lemma LimbBytesWord(x: u32)
    ensures Word(LimbBytes(x), 0) == x
  {
    var q1, q2, q3 := x / 0x100, x / 0x1_0000, x / 0x100_0000;
    assert x == q1 * 0x100 + x % 0x100;
    assert q1 == q2 * 0x100 + q1 % 0x100;
    assert q2 == q3 * 0x100 + q2 % 0x100;
    assert q3 % 0x100 == q3;
  }

  // The bytes of the four low limbs spell the value modulo 2^128.
  lemma TagValue(b: seq<u32>, tag: seq<byte>)
    requires |b| == 8
    requires tag == LimbBytes(b[0]) + LimbBytes(b[1]) + LimbBytes(b[2]) + LimbBytes(b[3])
    ensures LE(tag) == Prefix(b, 8) % Pow2(128)
  {
    hide LimbBytes;
    LimbBytesWord(b[0]);
    LimbBytesWord(b[1]);
    LimbBytesWord(b[2]);
    LimbBytesWord(b[3]);
    assert Word(tag, 0) == b[0] && Word(tag, 4) == b[1] && Word(tag, 8) == b[2] && Word(tag, 12) == b[3];
    var low := [b[0], b[1], b[2], b[3], 0, 0, 0, 0];
    LoadValue(tag, low);
    ZeroTail(low, 4, 8);
    PrefixSame(b, low, 4);
    PrefixBound(b, 4);
    WIsPow2(4);
    var k := SplitPrefix(b, 4, 8);
    ModUnique(Prefix(b, 8), k, W(4), Prefix(b, 4));
  }

  // The tag of the standard: the polynomial modulo 2^130 - 5, plus s, modulo 2^128.
  ghost function StandardTag(key: seq<byte>, m: seq<byte>): nat
    requires |key| == 32
  {
    (Polynomial(LE(Clamped(key)), m) % P + LE(key[16..])) % Pow2(128)
  }

  lemma DigestTag(key: seq<byte>, m: seq<byte>)
    requires |key| == 32
    ensures (Digest(0, LE(Clamped(key)), m, false) + LE(key[16..])) % Pow2(128) == StandardTag(key, m)
  {
    hide Digest, LE, Polynomial, Clamped, Pow2;
    DigestIsPolynomial(0, LE(Clamped(key)), m);
  }

  // The tag computed from a message of `size` bytes is the tag of the standard for the bytes the
  // loop reaches, which are all of them when size + 15 < 2^32.
  method Tag(key: seq<byte>, message: array<byte>, size: u32) returns (tag: seq<byte>)
    requires |key| == 32 && size <= message.Length
    ensures |tag| == 16
    ensures LE(tag) == StandardTag(key, message[..Reach(size)])
    ensures size + 15 < WORD ==> LE(tag) == StandardTag(key, message[..size])
  {
    hide Digest, LE, Polynomial, Clamped, Pow2, UInt256.Value, Reach, StandardTag;
    var s := new State(key);
    s.Update(message, 0, size, false);
    tag := s.Finish();
    assert message[0..Reach(size)] == message[..Reach(size)];
    DigestTag(key, message[..Reach(size)]);
    ReachesAll(size);
  }

  lemma ClampedLimbs(key: seq<byte>, limbs: seq<u32>)
    requires |key| == 32
    requires limbs == [Word(key, 0) % 0x1000_0000, MaskLimb(Word(key, 4)), MaskLimb(Word(key, 8)),
                       MaskLimb(Word(key, 12)), 0, 0, 0, 0]
    ensures Prefix(limbs, 8) == LE(Clamped(key)) < Pow2(124)
  {
    ClampedWord(key, 0);
    ClampedWord(key, 1);
    ClampedWord(key, 2);
    ClampedWord(key, 3);
    ClampedBound(key);
    LoadValue(Clamped(key), limbs);
  }

  lemma KeyHalf(key: seq<byte>, limbs: seq<u32>)
    requires |key| == 32
    requires limbs == [Word(key, 16), Word(key, 20), Word(key, 24), Word(key, 28), 0, 0, 0, 0]
    ensures Prefix(limbs, 8) == LE(key[16..]) < Pow2(128)
  {
    LoadValue(key[16..], limbs);
    LEBound(key[16..]);
  }

  lemma ModulusLimbs(limbs: seq<u32>)
    requires limbs == [0xfffffffb, 0xffffffff, 0xffffffff, 0xffffffff, 3, 0, 0, 0]
    ensures Prefix(limbs, 8) == P
  {
    Expand(limbs);
  }
}
