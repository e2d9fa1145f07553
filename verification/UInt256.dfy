// The 256-bit unsigned integer of the Poly1305 code: eight 32-bit limbs updated in place.
// Every operator is proved equal to the arithmetic operation it stands for, modulo 2^256.
module UInt256Limbs {
  import opened Words
  import opened NumberBits

  const MOD: int := 0x1_00000000_00000000_00000000_00000000_00000000_00000000_00000000_00000000

  lemma ModIsW8()
    ensures W(8) == MOD && Pow2(256) == MOD
  {
    assert W(1) == 0x1_00000000;
    assert W(2) == 0x1_00000000_00000000;
    assert W(3) == 0x1_00000000_00000000_00000000;
    assert W(4) == 0x1_00000000_00000000_00000000_00000000;
    assert W(5) == 0x1_00000000_00000000_00000000_00000000_00000000;
    assert W(6) == 0x1_00000000_00000000_00000000_00000000_00000000_00000000;
    assert W(7) == 0x1_00000000_00000000_00000000_00000000_00000000_00000000_00000000;
    WIsPow2(8);
  }

  // The value of eight limbs with the weights written out, which keeps carry chains linear.
  ghost function Eight(s: seq<int>): int
    requires |s| == 8
  {
    s[0] + s[1] * 0x1_00000000 + s[2] * 0x1_00000000_00000000
    + s[3] * 0x1_00000000_00000000_00000000
    + s[4] * 0x1_00000000_00000000_00000000_00000000
    + s[5] * 0x1_00000000_00000000_00000000_00000000_00000000
    + s[6] * 0x1_00000000_00000000_00000000_00000000_00000000_00000000
    + s[7] * 0x1_00000000_00000000_00000000_00000000_00000000_00000000_00000000
  }

  lemma Expand(s: seq<u32>)
    requires |s| == 8
    ensures Prefix(s, 8) == Eight(s) < MOD
  {
    assert W(1) == 0x1_00000000;
    assert W(2) == 0x1_00000000_00000000;
    assert W(3) == 0x1_00000000_00000000_00000000;
    assert W(4) == 0x1_00000000_00000000_00000000_00000000;
    assert W(5) == 0x1_00000000_00000000_00000000_00000000_00000000;
    assert W(6) == 0x1_00000000_00000000_00000000_00000000_00000000_00000000;
    assert W(7) == 0x1_00000000_00000000_00000000_00000000_00000000_00000000_00000000;
    assert Prefix(s, 1) == s[0];
    assert Prefix(s, 2) == Prefix(s, 1) + s[1] * W(1);
    assert Prefix(s, 3) == Prefix(s, 2) + s[2] * W(2);
    assert Prefix(s, 4) == Prefix(s, 3) + s[3] * W(3);
    assert Prefix(s, 5) == Prefix(s, 4) + s[4] * W(4);
    assert Prefix(s, 6) == Prefix(s, 5) + s[5] * W(5);
    assert Prefix(s, 7) == Prefix(s, 6) + s[6] * W(6);
    assert Prefix(s, 8) == Prefix(s, 7) + s[7] * W(7);
  }

  // x * 2^n, truncated to 256 bits.
  ghost function Shifted(x: nat, n: nat): nat {
    x * Pow2(n) % MOD
  }

  // x & 0x0ffffffc.
  function MaskLimb(x: u32): u32 {
    x % 0x1000_0000 - x % 4
  }

  lemma MaskBits(j: nat)
    requires j < 32
    ensures BitAt(0x0fff_fffc, j) == if 2 <= j < 28 then 1 else 0
  {
    hide BitAt, Pow2;
    Pow2At28();
    NoBits(j);
    BitOfSum(0, 0x03ff_ffff, 2, j);
    assert 0 + 0x03ff_ffff * Pow2(2) == 0x03ff_ffff * Pow2(2) == 0x0fff_fffc;
    BitOfSum(0x0fff_fffc, 0, 28, j);
    if 2 <= j < 28 { AllBits(26, j - 2); }
    if 28 <= j { NoBits(j - 28); }
  }

  lemma Pow2At28()
    ensures Pow2(2) == 4 && Pow2(26) == 0x0400_0000 && Pow2(28) == 0x1000_0000
  {
    assert Pow2(2) == 4 && Pow2(4) == 16;
    Pow2Words();
    Pow2Add(2, 24);
    Pow2Add(4, 24);
  }

  // The mask keeps a bit where it has a one and clears it elsewhere.
  lemma MaskLimbBits(x: u32, j: nat)
    requires j < 32
    ensures BitAt(MaskLimb(x), j) == if BitAt(0x0fff_fffc, j) == 1 then BitAt(x, j) else 0
  {
    Pow2At28();
    MaskBits(j);
    hide BitAt, Pow2;
    var y := x % 0x1000_0000;
    assert x == y + x / 0x1000_0000 * 0x1000_0000;
    assert y % 4 == x % 4;
    assert y == y % 4 + y / 4 * 4;
    BitOfPart(y, x / 0x1000_0000, 28, j);
    BitOfPart(y % 4, y / 4, 2, j);
  }

  // Limb 0 keeps its low bits.
  lemma LowLimbBits(x: u32, j: nat)
    requires j < 32
    ensures BitAt(x % 0x1000_0000, j) == if BitAt(0x0fff_ffff, j) == 1 then BitAt(x, j) else 0
  {
    Pow2At28();
    hide BitAt, Pow2;
    assert x == x % 0x1000_0000 + x / 0x1000_0000 * 0x1000_0000;
    BitOfPart(x % 0x1000_0000, x / 0x1000_0000, 28, j);
    BitOfPart(0x0fff_ffff, 0, 28, j);
    if j < 28 { AllBits(28, j); }
  }

  class UInt256 {
    const b: array<u32>

    ghost predicate Valid() {
      b.Length == 8
    }

    ghost function Value(): (v: nat)
      requires Valid()
      reads b
      ensures v < MOD
    {
      ModIsW8();
      PrefixBound(b[..], 8);
      Prefix(b[..], 8)
    }

    lemma IsPrefix()
      requires Valid()
      ensures Value() == Prefix(b[..], 8)
    {}

    constructor Zero()
      ensures Valid() && fresh(b) && Value() == 0
      ensures forall i :: 0 <= i < 8 ==> b[i] == 0
    {
      b := new u32[8](_ => 0);
      new;
      PrefixZero(b[..], 8);
    }

    constructor FromWords(b7: u32, b6: u32, b5: u32, b4: u32, b3: u32, b2: u32, b1: u32, b0: u32)
      ensures Valid() && fresh(b)
      ensures b[..] == [b0, b1, b2, b3, b4, b5, b6, b7]
    {
      b := new u32[8];
      new;
      b[0], b[1], b[2], b[3] := b0, b1, b2, b3;
      b[4], b[5], b[6], b[7] := b4, b5, b6, b7;
    }

    constructor Copy(u: UInt256)
      requires u.Valid()
      ensures Valid() && fresh(b)
      ensures b[..] == u.b[..] && Value() == u.Value()
    {
      b := new u32[8](i requires 0 <= i < 8 && u.Valid() reads u.b => u.b[i]);
      new;
      assert b[..] == u.b[..];
    }

    method Assign(u: UInt256)
      requires Valid() && u.Valid()
      modifies b
      ensures Value() == old(u.Value()) && b[..] == old(u.b[..])
    {
      ghost var s := u.b[..];
      forall i | 0 <= i < 8 { b[i] := u.b[i]; }
      assert b[..] == s;
    }

    method Add(u: UInt256)
      requires Valid() && u.Valid()
      modifies b
      ensures Value() == (old(Value()) + old(u.Value())) % MOD
    {
      hide Prefix, W, UInt256.Value;
      IsPrefix();
      u.IsPrefix();
      ghost var x, y := b[..], u.b[..];
      var v: int := 0;
      v := v + b[0] + u.b[0];     b[0] := v % WORD; v := v / WORD; ghost var c0 := v;
      v := v + b[1] + u.b[1];     b[1] := v % WORD; v := v / WORD; ghost var c1 := v;
      v := v + b[2] + u.b[2];     b[2] := v % WORD; v := v / WORD; ghost var c2 := v;
      v := v + b[3] + u.b[3];     b[3] := v % WORD; v := v / WORD; ghost var c3 := v;
      v := v + b[4] + u.b[4];     b[4] := v % WORD; v := v / WORD; ghost var c4 := v;
      v := v + b[5] + u.b[5];     b[5] := v % WORD; v := v / WORD; ghost var c5 := v;
      v := v + b[6] + u.b[6];     b[6] := v % WORD; v := v / WORD; ghost var c6 := v;
      v := v + b[7] + u.b[7];     b[7] := v % WORD; ghost var c7 := v / WORD;
      AddCarries(x, y, b[..], c0, c1, c2, c3, c4, c5, c6, c7);
      IsPrefix();
    }

    method Increment()
      requires Valid()
      modifies b
      ensures Value() == (old(Value()) + 1) % MOD
    {
      hide Prefix, W, UInt256.Value;
      IsPrefix();
      ghost var x := b[..];
      EmptyPrefix(x);
      var i := 0;
      var carry := true;
      while i < 8 && carry
        invariant 0 <= i <= 8
        invariant forall k :: i <= k < 8 ==> b[k] == x[k]
        invariant Prefix(b[..], i) + (if carry then W(i) else 0) == Prefix(x, i) + 1
      {
        ghost var before := b[..];
        b[i] := (b[i] + 1) % WORD;
        PrefixSame(before, b[..], i);
        IncrementStep(x, b[..], i);
        carry := b[i] == 0;
        i := i + 1;
      }
      IncrementTail(x, b[..], i, carry);
      IsPrefix();
    }

    method Complement() returns (r: UInt256)
      requires Valid()
      ensures r.Valid() && fresh(r) && fresh(r.b) && r.Value() == MOD - 1 - Value()
    {
      hide UInt256.Value, Prefix, W;
      r := new UInt256.Copy(this);
      r.b[0] := WORD - 1 - b[0];
      r.b[1] := WORD - 1 - b[1];
      r.b[2] := WORD - 1 - b[2];
      r.b[3] := WORD - 1 - b[3];
      r.b[4] := WORD - 1 - b[4];
      r.b[5] := WORD - 1 - b[5];
      r.b[6] := WORD - 1 - b[6];
      r.b[7] := WORD - 1 - b[7];
      ComplementLimbs(b[..], r.b[..]);
      IsPrefix();
      r.IsPrefix();
    }

    method Sub(u: UInt256)
      requires Valid() && u.Valid()
      modifies b
      ensures Value() == (old(Value()) - old(u.Value())) % MOD
      ensures old(u.Value()) <= old(Value()) ==> Value() == old(Value()) - old(u.Value())
    {
      hide UInt256.Value, Prefix;
      SubByComplement(Value(), u.Value());
      var c := u.Complement();
      Add(c);
      Increment();
    }

    method Less(u: UInt256) returns (r: bool)
      requires Valid() && u.Valid()
      ensures r <==> Value() < u.Value()
    {
      var i := 7;
      while i >= 0
        invariant -1 <= i <= 7
        invariant forall k :: i < k < 8 ==> b[k] == u.b[k]
      {
        if b[i] < u.b[i] {
          PrefixLess(b[..], u.b[..], i, 8);
          return true;
        } else if b[i] > u.b[i] {
          PrefixLess(u.b[..], b[..], i, 8);
          return false;
        }
        i := i - 1;
      }
      PrefixSame(b[..], u.b[..], 8);
      return false;
    }

    // Masks the four low limbs with 0x0fffffff, 0x0ffffffc, 0x0ffffffc, 0x0ffffffc.
    method Clamp()
      requires Valid()
      modifies b
      ensures b[..] == [old(b[0]) % 0x1000_0000, MaskLimb(old(b[1])), MaskLimb(old(b[2])), MaskLimb(old(b[3]))]
                       + old(b[4..])
    {
      b[0] := b[0] % 0x1000_0000;
      b[1] := MaskLimb(b[1]);
      b[2] := MaskLimb(b[2]);
      b[3] := MaskLimb(b[3]);
    }

    // Adds the 64-bit product of limbs i and j at limb i+j; its high half is dropped at limb 7.
    method AddAt(u: UInt256, v: UInt256, i: nat, j: nat)
      requires Valid() && u.Valid() && v.Valid() && b != u.b && b != v.b && i + j < 8
      modifies b
      ensures Value() == (old(Value()) + Term(u.b[..], v.b[..], i, j)) % MOD
    {
      var s := (v.b[j] as int) * u.b[i];
      var pos := i + j;
      LimbProduct(v.b[j], u.b[i]);
      var partial := new UInt256.Zero();
      ghost var z := partial.b[..];
      partial.b[pos] := s % WORD;
      if pos + 1 < 8 {
        partial.b[pos + 1] := s / WORD;
      }
      PartialValue(z, partial.b[..], pos, s);
      ghost var before := Value();
      Add(partial);
      if pos == 7 {
        DropHigh(before + s * W(pos), s / WORD, Value());
      }
    }

    method Mul(u: UInt256)
      requires Valid() && u.Valid()
      modifies b
      ensures Value() == (old(Value()) * old(u.Value())) % MOD
    {
      hide Term, Prefix, W;
      ghost var x, y := b[..], u.b[..];
      var r := new UInt256.Zero();
      ghost var k := 0;  // multiples of 2^256 dropped so far
      var i := 0;
      while i < 8
        invariant 0 <= i <= 8
        invariant r.Valid() && fresh(r) && fresh(r.b)
        invariant b[..] == x && u.b[..] == y
        invariant r.Value() + k * MOD == Schoolbook(x, y, i, 0)
      {
        var j := 0;
        while j < 8
          invariant 0 <= j <= 8
          invariant r.Valid() && fresh(r) && fresh(r.b)
          invariant b[..] == x && u.b[..] == y
          invariant r.Value() + k * MOD == Schoolbook(x, y, i, j)
        {
          if i + j < 8 {
            k := k + (r.Value() + Term(x, y, i, j)) / MOD;
            r.AddAt(this, u, i, j);
          } else {
            ghost var over := HighTerms(x, y, i, j);
            k := k + over;
          }
          j := j + 1;
        }
        i := i + 1;
      }
      SchoolbookIsProduct(x, y, 8, 0);
      ModUnique(Prefix(x, 8) * Prefix(y, 8), k, MOD, r.Value());
      Assign(r);
    }

    method MaxNonZeroBit() returns (r: int)
      requires Valid()
      ensures Value() == 0 ==> r == -1
      ensures Value() > 0 ==> 0 <= r < 256 && Pow2(r) <= Value() < Pow2(r + 1)
    {
      var c := 7;
      while c >= 0
        invariant -1 <= c <= 7
        invariant forall k :: c < k < 8 ==> b[k] == 0
      {
        if b[c] != 0 {
          var t := MaxNonZeroBitOfLimb(b[c]);
          TopLimb(b[..], c, t);
          return c * 32 + t;
        }
        c := c - 1;
      }
      PrefixZero(b[..], 8);
      r := -1;
    }

    method LShift(n: u32)
      requires Valid()
      modifies b
      ensures Value() == Shifted(old(Value()), n)
    {
      hide Prefix, W, Pow2, UInt256.Value;
      ghost var x := Value();
      var p := n / 32;
      var u := n % 32;
      ShiftWords(p);
      ghost var y := Value();
      ShiftBits(u);
      ShiftCompose(x, y, Value(), p, u);
      assert n == 32 * p + u;
    }

    // The first stage: whole limbs.
    method ShiftWords(p: nat)
      requires Valid()
      modifies b
      ensures Value() == old(Value()) * W(p) % MOD
    {
      hide Prefix, W, UInt256.Value;
      IsPrefix();
      ghost var x := b[..];
      if p > 0 {
        var i := 7;
        while i >= 0
          invariant -1 <= i <= 7
          invariant forall k :: i < k < 8 ==> b[k] == if k >= p then x[k - p] else 0
          invariant forall k :: 0 <= k <= i ==> b[k] == x[k]
        {
          b[i] := if i >= p then b[i - p] else 0;
          i := i - 1;
        }
      }
      WordShift(x, b[..], p);
      IsPrefix();
    }

    // The second stage: fewer than 32 bits.
    method ShiftBits(u: nat)
      requires Valid() && u < 32
      modifies b
      ensures Value() == old(Value()) * Pow2(u) % MOD
    {
      hide Prefix, W, UInt256.Value;
      IsPrefix();
      ghost var y := b[..];
      ghost var v := Value();
      if u == 0 {
        ModUnique(v, 0, MOD, v);
      } else {
        EmptyPrefix(y);
        Pow2Split32(u);
        var r := 0;
        var i := 0;
        while i < 8
          invariant 0 <= i <= 8 && 0 <= r < Pow2(u)
          invariant forall k :: i <= k < 8 ==> b[k] == y[k]
          invariant Prefix(b[..], i) + r * W(i) == Prefix(y, i) * Pow2(u)
        {
          r := ShiftLimb(y, i, r, u);
          i := i + 1;
        }
        BitShift(y, b[..], r, u);
      }
      IsPrefix();
    }

    // One limb of the second stage; returns the bits that leave it.
    method ShiftLimb(ghost y: seq<u32>, i: nat, r: nat, u: nat) returns (r1: nat)
      requires Valid() && 0 < u < 32 && i < 8 && r < Pow2(u) && |y| == 8 && b[i] == y[i]
      requires Prefix(b[..], i) + r * W(i) == Prefix(y, i) * Pow2(u)
      modifies b
      ensures r1 < Pow2(u) && forall k :: i < k < 8 ==> b[k] == old(b[k])
      ensures Prefix(b[..], i + 1) + r1 * W(i + 1) == Prefix(y, i + 1) * Pow2(u)
    {
      hide Prefix, W, Pow2;
      ghost var before := b[..];
      Pow2Split32(u);
      LimbShift(b[i], r, u);
      r1 := b[i] / Pow2(32 - u);
      b[i] := b[i] * Pow2(u) % WORD;
      b[i] := b[i] + r;
      PrefixSame(before, b[..], i);
      ShiftStep(y, b[..], i, r, r1, u);
    }

    method RShift()
      requires Valid()
      modifies b
      ensures Value() == old(Value()) / 2
    {
      hide Prefix, W, UInt256.Value, Halved, HalfLimb;
      IsPrefix();
      ghost var x := b[..];
      var r1 := b[7] % 2; b[7] := HalfLimb(b[7], 0); var r := r1;
      r1 := b[6] % 2; b[6] := HalfLimb(b[6], r); r := r1;
      r1 := b[5] % 2; b[5] := HalfLimb(b[5], r); r := r1;
      r1 := b[4] % 2; b[4] := HalfLimb(b[4], r); r := r1;
      r1 := b[3] % 2; b[3] := HalfLimb(b[3], r); r := r1;
      r1 := b[2] % 2; b[2] := HalfLimb(b[2], r); r := r1;
      r1 := b[1] % 2; b[1] := HalfLimb(b[1], r); r := r1;
      b[0] := HalfLimb(b[0], r);
      HalveLimbs(x, b[..]);
      IsPrefix();
    }
  }

  // The position of the highest set bit of a byte.
  method MaxNonZeroOfEightBits(s: int) returns (r: int)
    requires 0 <= s < 256
    ensures s == 0 ==> r == -1
    ensures s > 0 ==> 0 <= r < 8 && Pow2(r) <= s < Pow2(r + 1)
  {
    Pow2At8();
    var i := 7;
    while i >= 0
      invariant -1 <= i <= 7
      invariant s < Pow2(i + 1)
    {
      HighBit(s, i);
      if s / Pow2(i) % 2 != 0 { return i; }
      i := i - 1;
    }
    return -1;
  }

  // The highest set bit of a non-zero limb, looked for in its highest non-zero byte.
  method MaxNonZeroBitOfLimb(x: u32) returns (r: nat)
    requires x != 0
    ensures r < 32 && Pow2(r) <= x < Pow2(r + 1)
  {
    hide Pow2;
    Pow2AtBytes();
    TopBytes(x);
    if x / 0x100_0000 % 0x100 != 0 {
      r := TopOfByte(x, 3, 0x100_0000);
    } else if x / 0x1_0000 % 0x100 != 0 {
      r := TopOfByte(x, 2, 0x1_0000);
    } else if x / 0x100 % 0x100 != 0 {
      r := TopOfByte(x, 1, 0x100);
    } else {
      r := TopOfByte(x, 0, 1);
    }
  }

  lemma Pow2AtBytes()
    ensures Pow2(8 * 0) == 1 && Pow2(8 * 1) == 0x100 && Pow2(8 * 2) == 0x1_0000 && Pow2(8 * 3) == 0x100_0000
  {
    Pow2Words();
  }

  // Each byte is the top of the limb when those above it are zero.
  lemma TopBytes(x: u32)
    ensures x / 0x100_0000 % 0x100 == x / 0x100_0000
    ensures x / 0x100_0000 == 0 ==> x / 0x1_0000 % 0x100 == x / 0x1_0000
    ensures x / 0x1_0000 == 0 ==> x / 0x100 % 0x100 == x / 0x100
    ensures x / 0x100 == 0 ==> x < 0x100 && x / 1 == x
  {}

  // The highest set bit of a limb whose highest non-zero byte is the given one.
  method TopOfByte(x: u32, byteIndex: nat, w: nat) returns (r: nat)
    requires byteIndex < 4 && w == Pow2(8 * byteIndex)
    requires 0 < x / w < 256
    ensures r < 8 * byteIndex + 8 && Pow2(r) <= x < Pow2(r + 1)
  {
    assert x == x / w * w + x % w;
    var t := MaxNonZeroOfEightBits(x / w % 256);
    TopBit(x, x / w, w, 8 * byteIndex, t);
    r := 8 * byteIndex + t;
  }

  // q copies of p added up. Division keeps its products in this form so that its loops are linear.
  ghost function Copies(q: nat, p: nat): nat {
    if q == 0 then 0 else p + Copies(q - 1, p)
  }

  lemma {:induction false} CopiesIsProduct(q: nat, p: nat)
    ensures Copies(q, p) == q * p
  {
    if q > 0 {
      CopiesIsProduct(q - 1, p);
      MulAdd(q, -1, p);
    }
  }

  // The invariant of long division: what is left of n after taking q copies of p, with the
  // divisor aligned at bit b. Below bit 0 the division is finished.
  ghost predicate Dividing(n: nat, p: nat, b: int, q: nat, r: nat, d: nat) {
    && n == Copies(q, p) + r
    && (b >= 0 ==> d == Copies(Pow2(b), p) && r < 2 * d)
    && (b < 0 ==> r < p)
  }

  // Long division by shifted subtraction; the quotient is built bit by bit beside it.
  method Quotient(n: UInt256, p: UInt256) returns (q: UInt256, r: UInt256)
    requires n.Valid() && p.Valid()
    requires p.Value() > 0
    requires exists t: nat :: t < 256 && Pow2(t) <= n.Value() && p.Value() < Pow2(t + 1)
    ensures q.Valid() && r.Valid() && fresh(q) && fresh(q.b) && fresh(r) && fresh(r.b)
    ensures n.Value() == q.Value() * p.Value() + r.Value() && r.Value() < p.Value()
  {
    hide Dividing, Copies, Shifted, UInt256.Value, Prefix, W, Pow2;
    ghost var N, P := n.Value(), p.Value();
    r := new UInt256.Copy(n);
    q := new UInt256.Zero();
    var top := n.MaxNonZeroBit();
    var low := p.MaxNonZeroBit();
    TopBitsOrder(N, P, top, low);
    var bmax := top - low;
    var m := new UInt256.Zero();
    var d := new UInt256.Copy(p);
    SetBit(m, bmax);
    d.LShift(bmax);
    DividingStart(N, P, top, low);
    var b := bmax;
    while b >= 0
      invariant -1 <= b <= bmax
      invariant Dividing(N, P, b, q.Value(), r.Value(), d.Value())
      invariant b >= 0 ==> m.Value() == Pow2(b)
    {
      TakeBit(N, P, b, q, r, d, m);
      DividingHalve(N, P, b, q.Value(), r.Value(), d.Value());
      b := b - 1;
      d.RShift();
      m.RShift();
    }
    DividingDone(N, P, b, q.Value(), r.Value(), d.Value());
  }

  // One step of the division: takes the divisor off when it fits and records bit b.
  method TakeBit(ghost N: nat, ghost P: nat, b: nat, q: UInt256, r: UInt256, d: UInt256, m: UInt256)
    requires q.Valid() && r.Valid() && d.Valid() && m.Valid()
    requires q.b != r.b && q.b != d.b && q.b != m.b && r.b != d.b && r.b != m.b
    requires 0 < P && N < MOD && Dividing(N, P, b, q.Value(), r.Value(), d.Value())
    requires m.Value() == Pow2(b)
    modifies q.b, r.b
    ensures Dividing(N, P, b, q.Value(), r.Value(), d.Value()) && r.Value() < d.Value()
  {
    hide Dividing, Copies, UInt256.Value;
    var below := r.Less(d);
    if !below {
      ghost var q', r' := q.Value() + m.Value(), r.Value() - d.Value();
      DividingTake(N, P, b, q.Value(), r.Value(), d.Value());
      NoCarry(q.Value(), m.Value());
      r.Sub(d);
      q.Add(m);
      assert q.Value() == q' && r.Value() == r';
    }
  }

  // Sets bit `n` of a zero number.
  method SetBit(m: UInt256, n: nat)
    requires m.Valid() && n < 256 && forall i :: 0 <= i < 8 ==> m.b[i] == 0
    modifies m.b
    ensures m.Value() == Pow2(n)
  {
    ghost var zeros := m.b[..];
    OneBitLimb(n);
    var bit: u32 := Pow2(n % 32);
    m.b[n / 32] := bit;
    PrefixZero(zeros, 8);
    PrefixUpdate(zeros, 8, n / 32, bit);
    assert m.b[..] == zeros[n / 32 := bit];
  }

  method Remainder(n: UInt256, p: UInt256) returns (r: UInt256)
    requires n.Valid() && p.Valid()
    requires p.Value() > 0
    ensures r.Valid() && fresh(r) && fresh(r.b)
    ensures r.Value() == n.Value() % p.Value()
  {
    hide Dividing, Copies, Shifted, UInt256.Value, Prefix, W, Pow2;
    ghost var N, P := n.Value(), p.Value();
    r := new UInt256.Copy(n);
    var top := n.MaxNonZeroBit();
    var low := p.MaxNonZeroBit();
    var bmax := top - low;
    var d := new UInt256.Copy(p);
    d.LShift(bmax % WORD);
    if bmax < 0 {
      SmallerTopBit(N, P, bmax, top, low, d.Value());
    } else {
      DividingStart(N, P, top, low);
    }
    ghost var q: nat := 0;
    var b := bmax;
    while b >= 0
      invariant b >= -1 || b == bmax
      invariant b <= bmax < 256
      invariant Dividing(N, P, b, q, r.Value(), d.Value())
    {
      var below := r.Less(d);
      if !below {
        DividingTake(N, P, b, q, r.Value(), d.Value());
        r.Sub(d);
        q := q + Pow2(b);
      }
      DividingHalve(N, P, b, q, r.Value(), d.Value());
      b := b - 1;
      d.RShift();
    }
    DividingDone(N, P, b, q, r.Value(), d.Value());
  }

  // ---- Carry chains ----

  // One step of a carry chain.
  ghost predicate Carry(x: u32, y: u32, c: int, z: u32, c': int) {
    x + y + c == z + WORD * c'
  }

  lemma AddCarries(x: seq<u32>, y: seq<u32>, z: seq<u32>,
                   c0: int, c1: int, c2: int, c3: int, c4: int, c5: int, c6: int, c7: int)
    requires |x| == |y| == |z| == 8
    requires Carry(x[0], y[0], 0, z[0], c0) && Carry(x[1], y[1], c0, z[1], c1)
    requires Carry(x[2], y[2], c1, z[2], c2) && Carry(x[3], y[3], c2, z[3], c3)
    requires Carry(x[4], y[4], c3, z[4], c4) && Carry(x[5], y[5], c4, z[5], c5)
    requires Carry(x[6], y[6], c5, z[6], c6) && Carry(x[7], y[7], c6, z[7], c7)
    ensures Prefix(z, 8) == (Prefix(x, 8) + Prefix(y, 8)) % MOD
  {
    hide Prefix, W;
    Expand(x);
    Expand(y);
    Expand(z);
    ModUnique(Prefix(x, 8) + Prefix(y, 8), c7, MOD, Prefix(z, 8));
  }

  lemma NoCarry(x: nat, y: nat)
    requires x + y < MOD
    ensures (x + y) % MOD == x + y
  {}

  lemma EmptyPrefix(s: seq<u32>)
    ensures Prefix(s, 0) == 0 && W(0) == 1
  {}

  lemma ComplementLimbs(x: seq<u32>, z: seq<u32>)
    requires |x| == |z| == 8 && forall k :: 0 <= k < 8 ==> z[k] == WORD - 1 - x[k]
    ensures Prefix(z, 8) == MOD - 1 - Prefix(x, 8)
  {
    hide Prefix, W;
    Expand(x);
    Expand(z);
  }

  // Adding the complement and one subtracts, modulo 2^256.
  lemma SubByComplement(x: nat, y: nat)
    requires x < MOD && y < MOD
    ensures ((x + (MOD - 1 - y)) % MOD + 1) % MOD == (x - y) % MOD
    ensures y <= x ==> (x - y) % MOD == x - y
  {}

  lemma IncrementStep(x: seq<u32>, z: seq<u32>, i: nat)
    requires |x| == |z| == 8 && i < 8
    requires z[i] == (x[i] + 1) % WORD
    requires Prefix(z, i) + W(i) == Prefix(x, i) + 1
    ensures Prefix(z, i + 1) + (if z[i] == 0 then W(i + 1) else 0) == Prefix(x, i + 1) + 1
  {
    hide Prefix, W;
    PrefixNext(x, i);
    PrefixNext(z, i);
    WNext(i);
    CarryOne(x[i], z[i], W(i));
  }

  lemma CarryOne(x: u32, z: u32, w: nat)
    requires z == (x + 1) % WORD
    ensures z * w + (if z == 0 then WORD * w else 0) == x * w + w
  {
    MulAdd(x, 1, w);
    if x + 1 == WORD {
      assert z == 0;
    } else {
      assert z == x + 1;
    }
  }

  lemma PrefixNext(x: seq<u32>, i: nat)
    requires i < |x|
    ensures Prefix(x, i + 1) == Prefix(x, i) + x[i] * W(i)
  {}

  lemma IncrementTail(x: seq<u32>, z: seq<u32>, i: nat, carry: bool)
    requires |x| == |z| == 8 && i <= 8
    requires carry ==> i == 8
    requires forall k :: i <= k < 8 ==> z[k] == x[k]
    requires Prefix(z, i) + (if carry then W(i) else 0) == Prefix(x, i) + 1
    ensures Prefix(z, 8) == (Prefix(x, 8) + 1) % MOD
  {
    ModIsW8();
    PrefixBound(z, 8);
    SameTail(x, z, i, 8);
    ModUnique(Prefix(x, 8) + 1, if carry then 1 else 0, MOD, Prefix(z, 8));
  }

  lemma {:induction false} SameTail(x: seq<u32>, z: seq<u32>, i: nat, n: nat)
    requires i <= n <= |x| && n <= |z|
    requires forall k :: i <= k < n ==> z[k] == x[k]
    ensures Prefix(z, n) - Prefix(z, i) == Prefix(x, n) - Prefix(x, i)
  {
    if i < n { SameTail(x, z, i, n - 1); }
  }

  // One limb halved, taking in the low bit of the limb above it.
  ghost predicate Halved(x: u32, above: u32, z: u32) {
    2 * z == x - x % 2 + WORD * (above % 2)
  }

  // The same, given the low bit of the limb above.
  function HalfLimb(x: u32, r: int): (z: u32)
    ensures forall above: u32 :: r == above % 2 ==> Halved(x, above, z)
  {
    x / 2 + if r != 0 then 0x8000_0000 else 0
  }

  lemma HalveLimbs(x: seq<u32>, z: seq<u32>)
    requires |x| == |z| == 8
    requires Halved(x[0], x[1], z[0]) && Halved(x[1], x[2], z[1]) && Halved(x[2], x[3], z[2])
    requires Halved(x[3], x[4], z[3]) && Halved(x[4], x[5], z[4]) && Halved(x[5], x[6], z[5])
    requires Halved(x[6], x[7], z[6]) && Halved(x[7], 0, z[7])
    ensures Prefix(z, 8) == Prefix(x, 8) / 2
  {
    hide Prefix, W;
    Expand(x);
    Expand(z);
  }

  // ---- Products ----

  lemma LimbProduct(x: u32, y: u32)
    ensures 0 <= x * y <= (WORD - 1) * (WORD - 1)
    ensures 0 <= x * y / WORD < WORD
  {
    MulLe(x, WORD - 1, y);
    MulNonneg(x, y);
  }

  lemma PartialValue(z: seq<u32>, t: seq<u32>, k: nat, s: nat)
    requires |z| == |t| == 8 && k < 8 && s / WORD < WORD
    requires forall i :: 0 <= i < 8 ==> z[i] == 0
    requires var lo: u32, hi: u32 := s % WORD, s / WORD;
             t == if k == 7 then z[k := lo] else z[k := lo][k + 1 := hi]
    ensures Prefix(t, 8) == s * W(k) - (if k == 7 then s / WORD * MOD else 0)
  {
    hide Prefix, W;
    var lo: u32, hi: u32 := s % WORD, s / WORD;
    PrefixZero(z, 8);
    PrefixUpdate(z, 8, k, lo);
    WNext(k);
    SplitTerm(s, lo, hi, W(k));
    if k < 7 {
      PrefixUpdate(z[k := lo], 8, k + 1, hi);
    } else {
      ModIsW8();
    }
  }

  lemma WNext(k: nat)
    ensures W(k + 1) == WORD * W(k)
  {}

  lemma SplitTerm(s: int, lo: int, hi: int, w: int)
    requires s == hi * WORD + lo
    ensures s * w == lo * w + hi * (WORD * w)
  {
    MulAdd(hi * WORD, lo, w);
    MulAssoc(hi, WORD, w);
  }

  lemma DropHigh(x: int, d: int, z: int)
    requires z == (x - d * MOD) % MOD
    ensures z == x % MOD
  {
    ModUnique(x, (x - d * MOD) / MOD + d, MOD, z);
  }

  lemma MulRegroup(a: int, w: int, b: int, v: int)
    ensures (a * w) * (b * v) == (b * a) * (w * v)
  {
    MulAssoc(a * w, b, v);
    MulAssoc(a, w, b);
    MulAssoc(a * b, w, v);
  }

  ghost function Term(x: seq<u32>, y: seq<u32>, i: nat, j: nat): (t: nat)
    requires |x| == |y| == 8 && i < 8 && j < 8
  {
    LimbProduct(y[j], x[i]);
    MulNonneg(y[j] as int * x[i], W(i + j));
    (y[j] as int * x[i]) * W(i + j)
  }

  // The sum of the products of limbs up to row `i`, column `j` (exclusive).
  ghost function Schoolbook(x: seq<u32>, y: seq<u32>, i: nat, j: nat): nat
    requires |x| == |y| == 8 && i <= 8 && j <= 8 && (i == 8 ==> j == 0)
    decreases i, j
  {
    if j > 0 then Schoolbook(x, y, i, j - 1) + Term(x, y, i, j - 1)
    else if i > 0 then Schoolbook(x, y, i - 1, 8)
    else 0
  }

  lemma {:induction false} SchoolbookIsProduct(x: seq<u32>, y: seq<u32>, i: nat, j: nat)
    requires |x| == |y| == 8 && i <= 8 && j <= 8 && (i == 8 ==> j == 0)
    ensures Schoolbook(x, y, i, j)
         == Prefix(x, i) * Prefix(y, 8) + (if j == 0 then 0 else x[i] * W(i) * Prefix(y, j))
    decreases i, j
  {
    if j > 0 {
      SchoolbookIsProduct(x, y, i, j - 1);
      RowStep(x, y, i, j - 1);
      EmptyPrefix(y);
    } else if i > 0 {
      SchoolbookIsProduct(x, y, i - 1, 8);
      MulAdd(Prefix(x, i - 1), x[i - 1] * W(i - 1), Prefix(y, 8));
    }
  }

  lemma RowStep(x: seq<u32>, y: seq<u32>, i: nat, j: nat)
    requires |x| == |y| == 8 && i < 8 && j < 8
    ensures x[i] * W(i) * Prefix(y, j + 1) == x[i] * W(i) * Prefix(y, j) + Term(x, y, i, j)
  {
    WAdd(i, j);
    RowTerm(x[i], W(i), Prefix(y, j), y[j], W(j));
  }

  lemma RowTerm(x: int, w: int, p: int, y: int, v: int)
    ensures x * w * (p + y * v) == x * w * p + (y * x) * (w * v)
  {
    MulRegroup(x, w, y, v);
    MulAdd(p, y * v, x * w);
  }

  lemma HighTerms(x: seq<u32>, y: seq<u32>, i: nat, j: nat) returns (k: nat)
    requires |x| == |y| == 8 && i < 8 && j < 8 && i + j >= 8
    ensures Term(x, y, i, j) == k * MOD
  {
    LimbProduct(y[j], x[i]);
    k := HighTerm(y[j] as int * x[i], i + j);
  }

  // A term at limb 8 or above is a multiple of 2^256.
  lemma HighTerm(s: nat, n: nat) returns (k: nat)
    requires n >= 8
    ensures s * W(n) == k * MOD
  {
    ModIsW8();
    WAdd(n - 8, 8);
    MulAssoc(s, W(n - 8), MOD);
    MulNonneg(s, W(n - 8));
    k := s * W(n - 8);
  }

  // ---- Bit positions ----

  lemma HighBit(s: nat, i: nat)
    requires s < Pow2(i + 1)
    ensures s / Pow2(i) % 2 != 0 <==> s >= Pow2(i)
  {
    if s >= Pow2(i) {
      ModUnique(s, 1, Pow2(i), s - Pow2(i));
    } else {
      ModUnique(s, 0, Pow2(i), s);
    }
  }

  // The top bit of h*w plus something below w, for a power of two w.
  lemma TopBit(x: nat, h: nat, w: nat, e: nat, t: nat)
    requires w == Pow2(e) && h * w <= x < h * w + w
    requires Pow2(t) <= h < Pow2(t + 1)
    ensures Pow2(e + t) <= x < Pow2(e + t + 1)
  {
    Pow2Add(t, e);
    Pow2Add(t + 1, e);
    MulLe(Pow2(t), h, w);
    MulLe(h + 1, Pow2(t + 1), w);
    MulAdd(h, 1, w);
  }

  lemma TopLimb(s: seq<u32>, c: nat, t: nat)
    requires |s| == 8 && c < 8 && t < 32
    requires forall k :: c < k < 8 ==> s[k] == 0
    requires Pow2(t) <= s[c] < Pow2(t + 1)
    ensures Pow2(32 * c + t) <= Prefix(s, 8) < Pow2(32 * c + t + 1)
  {
    ZeroTail(s, c + 1, 8);
    PrefixBound(s, c);
    WIsPow2(c);
    TopBit(Prefix(s, 8), s[c], W(c), 32 * c, t);
  }

  lemma {:induction false} ZeroTail(s: seq<u32>, i: nat, n: nat)
    requires i <= n <= |s|
    requires forall k :: i <= k < n ==> s[k] == 0
    ensures Prefix(s, n) == Prefix(s, i)
  {
    if i < n { ZeroTail(s, i, n - 1); }
  }

  lemma OneBitLimb(n: nat)
    requires n < 256
    ensures Pow2(n % 32) < WORD && Pow2(n % 32) * W(n / 32) == Pow2(n)
  {
    Pow2Words();
    Pow2Monotone(n % 32, 31);
    WIsPow2(n / 32);
    Pow2Add(32 * (n / 32), n % 32);
    assert 32 * (n / 32) + n % 32 == n;
    assert 2 * Pow2(31) == WORD;
  }

  // ---- Shifts ----

  lemma WordShift(x: seq<u32>, y: seq<u32>, p: nat)
    requires |x| == |y| == 8
    requires forall k :: 0 <= k < 8 ==> y[k] == if k >= p then x[k - p] else 0
    ensures Prefix(y, 8) == Prefix(x, 8) * W(p) % MOD
  {
    if p >= 8 {
      PrefixZero(y, 8);
      var k := HighTerm(Prefix(x, 8), p);
      ModUnique(Prefix(x, 8) * W(p), k, MOD, 0);
    } else {
      PrefixZero(y, p);
      ShiftedPrefix(x, y, p, 8 - p);
      ShiftOut(x, y, p);
    }
  }

  lemma ShiftOut(x: seq<u32>, y: seq<u32>, p: nat)
    requires |x| == |y| == 8 && p < 8
    requires Prefix(y, 8) == Prefix(x, 8 - p) * W(p)
    ensures Prefix(y, 8) == Prefix(x, 8) * W(p) % MOD
  {
    hide Prefix, W, Pow2;
    ModIsW8();
    PrefixBound(y, 8);
    var k := SplitPrefix(x, 8 - p, 8);
    WAdd(8 - p, p);
    MulAdd(Prefix(x, 8 - p), k * W(8 - p), W(p));
    MulAssoc(k, W(8 - p), W(p));
    ModUnique(Prefix(x, 8) * W(p), k, MOD, Prefix(y, 8));
  }

  lemma {:induction false} ShiftedPrefix(x: seq<u32>, y: seq<u32>, p: nat, n: nat)
    requires p + n <= |y| && n <= |x|
    requires forall k :: 0 <= k < n ==> y[p + k] == x[k]
    requires Prefix(y, p) == 0
    ensures Prefix(y, p + n) == Prefix(x, n) * W(p)
  {
    if n > 0 {
      ShiftedPrefix(x, y, p, n - 1);
      WAdd(n - 1, p);
      assert y[p + (n - 1)] == x[n - 1] && p + n - 1 == n - 1 + p;
      MulAssoc(x[n - 1], W(n - 1), W(p));
      MulAdd(Prefix(x, n - 1), x[n - 1] * W(n - 1), W(p));
    }
  }

  lemma {:induction false} SplitPrefix(x: seq<u32>, i: nat, n: nat) returns (k: nat)
    requires i <= n <= |x|
    ensures Prefix(x, n) == Prefix(x, i) + k * W(i)
  {
    if i == n {
      k := 0;
    } else {
      var k' := SplitPrefix(x, i, n - 1);
      WAdd(n - 1 - i, i);
      MulNonneg(x[n - 1], W(n - 1 - i));
      k := k' + x[n - 1] * W(n - 1 - i);
      MulAssoc(x[n - 1], W(n - 1 - i), W(i));
      MulAdd(k', x[n - 1] * W(n - 1 - i), W(i));
    }
  }

  lemma Pow2Split32(u: nat)
    requires u < 32
    ensures Pow2(u) * Pow2(32 - u) == WORD
  {
    Pow2Words();
    Pow2Add(u, 32 - u);
  }

  // One limb shifted left by u bits: the bits that leave it and the bits that stay.
  lemma LimbShift(x: u32, r: nat, u: nat)
    requires 0 < u < 32 && r < Pow2(u)
    ensures 0 <= x / Pow2(32 - u) < Pow2(u)
    ensures x * Pow2(u) % WORD + x / Pow2(32 - u) * WORD == x * Pow2(u)
    ensures x * Pow2(u) % WORD + r < WORD
  {
    Pow2Split32(u);
    SplitProduct(x, Pow2(u), Pow2(32 - u), x / Pow2(32 - u), x % Pow2(32 - u));
  }

  lemma SplitProduct(x: u32, a: int, b: int, q: int, t: int)
    requires a > 0 && b > 0 && a * b == WORD
    requires x == b * q + t && 0 <= t < b
    ensures 0 <= q < a
    ensures x * a % WORD == t * a <= WORD - a && x * a == q * WORD + t * a
  {
    if q >= a { MulLe(a, q, b); }
    if q < 0 { MulLe(q, -1, b); }
    MulAdd(b * q, t, a);
    MulAssoc(q, b, a);
    MulLe(t, b - 1, a);
    MulAdd(b, -1, a);
    MulNonneg(t, a);
    ModUnique(x * a, q, WORD, t * a);
  }

  lemma ShiftStep(y: seq<u32>, z: seq<u32>, i: nat, r: nat, r1: nat, u: nat)
    requires |y| == |z| == 8 && i < 8
    requires Prefix(z, i) + r * W(i) == Prefix(y, i) * Pow2(u)
    requires z[i] + r1 * WORD == y[i] * Pow2(u) + r
    ensures Prefix(z, i + 1) + r1 * W(i + 1) == Prefix(y, i + 1) * Pow2(u)
  {
    assert W(i + 1) == WORD * W(i);
    MulAssoc(r1, WORD, W(i));
    MulAdd(z[i], r1 * WORD, W(i));
    MulAdd(y[i] * Pow2(u), r, W(i));
    MulAssoc(y[i], Pow2(u), W(i));
    MulAdd(Prefix(y, i), y[i] * W(i), Pow2(u));
  }

  lemma BitShift(y: seq<u32>, z: seq<u32>, r: nat, u: nat)
    requires |y| == |z| == 8
    requires Prefix(z, 8) + r * W(8) == Prefix(y, 8) * Pow2(u)
    ensures Prefix(z, 8) == Prefix(y, 8) * Pow2(u) % MOD
  {
    ModIsW8();
    PrefixBound(z, 8);
    ModUnique(Prefix(y, 8) * Pow2(u), r, MOD, Prefix(z, 8));
  }

  lemma ShiftCompose(x: nat, y: nat, z: nat, p: nat, u: nat)
    requires y == x * W(p) % MOD
    requires z == y * Pow2(u) % MOD
    ensures z == x * Pow2(32 * p + u) % MOD
  {
    WIsPow2(p);
    Pow2Add(32 * p, u);
    var k := x * W(p) / MOD;
    var k2 := y * Pow2(u) / MOD;
    MulAssoc(x, W(p), Pow2(u));
    MulAdd(k * MOD, y, Pow2(u));
    MulAssoc(k, MOD, Pow2(u));
    ModUnique(x * Pow2(32 * p + u), k * Pow2(u) + k2, MOD, z);
  }

  // ---- Division ----

  lemma SmallerTopBit(n: nat, p: nat, b: int, top: int, low: int, d: nat)
    requires p > 0 && top < low && low >= 0 && b < 0
    requires n > 0 ==> 0 <= top && n < Pow2(top + 1)
    requires Pow2(low) <= p
    ensures Dividing(n, p, b, 0, n, d)
  {
    if n > 0 { Pow2Monotone(top + 1, low); }
  }

  lemma TopBitsOrder(n: nat, p: nat, top: int, low: int)
    requires exists t: nat :: t < 256 && Pow2(t) <= n && p < Pow2(t + 1)
    requires p > 0 && 0 <= low < 256 && Pow2(low) <= p
    requires n == 0 ==> top == -1
    requires n > 0 ==> 0 <= top < 256 && n < Pow2(top + 1)
    ensures 0 <= low <= top
  {
    var t: nat :| t < 256 && Pow2(t) <= n && p < Pow2(t + 1);
    if low > t { Pow2Monotone(t + 1, low); }
    if top < t { Pow2Monotone(top + 1, t); }
  }

  // Shifting the divisor so that its top bit meets the dividend's top bit loses no bits,
  // and leaves the dividend below twice the shifted divisor.
  lemma DividingStart(n: nat, p: nat, top: nat, low: nat)
    requires low <= top < 256
    requires Pow2(low) <= p < Pow2(low + 1) && Pow2(top) <= n < Pow2(top + 1)
    ensures Dividing(n, p, top - low, 0, n, Shifted(p, top - low))
  {
    var s := top - low;
    Pow2Add(low + 1, s);
    Pow2Add(low, s);
    MulLe(p, Pow2(low + 1) - 1, Pow2(s));
    MulAdd(Pow2(low + 1), -1, Pow2(s));
    Pow2Monotone(top + 1, 256);
    ModIsW8();
    MulNonneg(p, Pow2(s));
    ModUnique(p * Pow2(s), 0, MOD, p * Pow2(s));
    MulLe(Pow2(low), p, Pow2(s));
    CopiesIsProduct(Pow2(s), p);
  }

  lemma DividingTake(n: nat, p: nat, b: nat, q: nat, r: nat, d: nat)
    requires p > 0 && n < MOD && Dividing(n, p, b, q, r, d) && d <= r
    ensures Dividing(n, p, b, q + Pow2(b), r - d, d)
    ensures q + Pow2(b) < MOD && r - d < d
  {
    CopiesIsProduct(q, p);
    CopiesIsProduct(Pow2(b), p);
    CopiesIsProduct(q + Pow2(b), p);
    MulAdd(q, Pow2(b), p);
    MulLe(1, p, q + Pow2(b));
  }

  lemma DividingHalve(n: nat, p: nat, b: nat, q: nat, r: nat, d: nat)
    requires Dividing(n, p, b, q, r, d) && r < d
    ensures Dividing(n, p, b - 1, q, r, d / 2)
    ensures b > 0 ==> Pow2(b) / 2 == Pow2(b - 1)
  {
    if b > 0 {
      CopiesIsProduct(Pow2(b), p);
      CopiesIsProduct(Pow2(b - 1), p);
      MulAssoc(2, Pow2(b - 1), p);
    } else {
      CopiesIsProduct(1, p);
    }
  }

  lemma DividingDone(n: nat, p: nat, b: int, q: nat, r: nat, d: nat)
    requires p > 0 && b < 0 && Dividing(n, p, b, q, r, d)
    ensures n == q * p + r && r < p && r == n % p
  {
    CopiesIsProduct(q, p);
    ModUnique(n, q, p, r);
  }
}
