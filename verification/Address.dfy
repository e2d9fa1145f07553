// Yggdrasil addresses and subnets derived from public keys, and the partial keys derived back.
module Address {
  import opened Words
  import opened Bits
  import opened Options

  const KEY_SIZE: nat := 32
  const ADDRESS_SIZE: nat := 16
  const SUBNET_SIZE: nat := 8
  const PREFIX: byte := 2

  // ---- Specification over bits ----

  // The number of zero bits before the first one bit.
  function LeadingZeros(k: seq<bit>): (z: nat)
    ensures z <= |k|
    ensures forall i :: 0 <= i < z ==> k[i] == 0
    ensures z < |k| ==> k[z] == 1
  {
    if |k| == 0 || k[0] == 1 then 0 else 1 + LeadingZeros(k[1..])
  }

  lemma LeadingZerosUnique(k: seq<bit>, z: nat)
    requires z < |k| && k[z] == 1 && forall i :: 0 <= i < z ==> k[i] == 0
    ensures LeadingZeros(k) == z
  {
    var y := LeadingZeros(k);
    assert y < |k| ==> k[y] == 1;
  }

  // What an address keeps of a key: the number of leading zeros (in one byte) and 112 more bits.
  datatype Parts = Parts(ones: byte, rest: seq<bit>)

  // How many of the inverted bits after the first one bit form whole bytes.
  function Available(z: int): (n: nat) {
    if z >= 255 then 0 else (255 - z) / 8 * 8
  }

  function Compress(k: seq<bit>): (p: Parts)
    requires |k| == 256
    ensures |p.rest| == 112
  {
    var z := LeadingZeros(k);
    Parts(z % 256,
          seq(112, j requires 0 <= j < 112 => if j < Available(z) && z + 1 + j < 256 then 1 - k[z + 1 + j] else 0))
  }

  function Expand(p: Parts): (k: seq<bit>)
    requires |p.rest| == 112
    ensures |k| == 256
  {
    seq(256, i requires 0 <= i < 256 =>
      if i < p.ones then 0
      else if i == p.ones then 1
      else if i - p.ones - 1 < 112 then 1 - p.rest[i - p.ones - 1]
      else 1)
  }

  // No bit is set where a key with this many leading zeros has no whole byte left.
  predicate Consistent(p: Parts) {
    |p.rest| == 112 && forall j :: Available(p.ones) <= j < 112 ==> p.rest[j] == 0
  }

  lemma CompressConsistent(k: seq<bit>)
    requires |k| == 256
    ensures Consistent(Compress(k))
  {}

  // Expanding and compressing again gives back exactly the parts that are consistent.
  lemma CompressExpand(p: Parts)
    requires |p.rest| == 112
    ensures Compress(Expand(p)) == p <==> Consistent(p)
  {
    var k := Expand(p);
    LeadingZerosUnique(k, p.ones);
    CompressConsistent(k);
    if Consistent(p) {
      forall j | 0 <= j < 112
        ensures Compress(k).rest[j] == p.rest[j]
      {}
    }
  }

  // Every key with the same parts is, bit by bit, below the expanded one.
  lemma ExpandAbove(k: seq<bit>, i: nat)
    requires |k| == 256 && i < 256
    ensures k[i] <= Expand(Compress(k))[i]
  {
    var z, p := LeadingZeros(k), Compress(k);
    if z < 256 {
      var j := i - z - 1;
      if i > z && j < 112 {
        assert p.rest[j] == if j < Available(z) then 1 - k[i] else 0;
      }
    }
  }

  lemma ExpandGreatest(k: seq<bit>)
    requires |k| == 256
    ensures Value(k) <= Value(Expand(Compress(k)))
    ensures Compress(Expand(Compress(k))) == Compress(k)
  {
    CompressConsistent(k);
    CompressExpand(Compress(k));
    forall i | 0 <= i < 256
      ensures k[i] <= Expand(Compress(k))[i]
    {
      ExpandAbove(k, i);
    }
    ValueMonotone(k, Expand(Compress(k)));
  }

  // The parts as one number: the count byte above the 112 bits.
  function PartsValue(p: Parts): nat {
    p.ones * Pow2(112) + Value(p.rest)
  }

  lemma RestShape(k: seq<bit>)
    requires |k| == 256 && LeadingZeros(k) < 256
    ensures var z := LeadingZeros(k);
            var n := Min(112, Available(z));
            z + 1 + n <= 256 && Compress(k).rest == Complement(k[z + 1..z + 1 + n]) + Bits.Zeros(112 - n)
  {
    hide LeadingZeros;
    var z := LeadingZeros(k);
    var n := Min(112, Available(z));
    var kept := Complement(k[z + 1..z + 1 + n]);
    forall j | 0 <= j < 112
      ensures Compress(k).rest[j] == if j < n then kept[j] else 0
    {}
  }

  // A key split at its first one bit.
  lemma NonZeroHasOne(k: seq<bit>)
    requires |k| == 256 && Value(k) > 0
    ensures LeadingZeros(k) < 256
  {
    if LeadingZeros(k) == 256 {
      assert k == Bits.Zeros(256);
      ZerosValue(256);
    }
  }

  // More leading zeros make a smaller number.
  lemma FewerZerosLarger(k: seq<bit>, k': seq<bit>)
    requires |k| == |k'| == 256 && LeadingZeros(k) < LeadingZeros(k')
    ensures Value(k) > Value(k')
  {
    var z := LeadingZeros(k);
    var a, b := k[..z + 1], k'[..z + 1];
    assert k == a + k[z + 1..] && k' == b + k'[z + 1..];
    assert b == Bits.Zeros(z + 1);
    ZerosValue(z + 1);
    assert Value(a) >= 1;
    if Value(k) <= Value(k') {
      PrefixOrder(a, k[z + 1..], b, k'[z + 1..]);
    }
  }

  // Larger keys have smaller addresses.
  lemma Antitone(k: seq<bit>, k': seq<bit>)
    requires |k| == |k'| == 256 && 0 < Value(k) <= Value(k')
    ensures PartsValue(Compress(k)) >= PartsValue(Compress(k'))
  {
    hide Compress, Value, LeadingZeros, PartsValue;
    NonZeroHasOne(k);
    NonZeroHasOne(k');
    var z, z' := LeadingZeros(k), LeadingZeros(k');
    CompressOnes(k);
    CompressOnes(k');
    if z < z' {
      FewerZerosLarger(k, k');
    } else if z > z' {
      MoreOnesLarger(Compress(k), Compress(k'));
    } else {
      SameZerosOrder(k, k');
      SameOnesOrder(Compress(k), Compress(k'));
    }
  }

  lemma SameOnesOrder(p: Parts, q: Parts)
    requires p.ones == q.ones && Value(p.rest) >= Value(q.rest)
    ensures PartsValue(p) >= PartsValue(q)
  {}

  lemma CompressOnes(k: seq<bit>)
    requires |k| == 256
    ensures Compress(k).ones == LeadingZeros(k) % 256
  {}

  lemma MoreOnesLarger(p: Parts, q: Parts)
    requires |p.rest| == |q.rest| == 112 && p.ones > q.ones
    ensures PartsValue(p) >= PartsValue(q)
  {
    hide Pow2;
    ValueBound(q.rest);
    MulLe(1 + q.ones as int, p.ones, Pow2(112));
    MulAdd(1, q.ones, Pow2(112));
  }

  lemma SameZerosOrder(k: seq<bit>, k': seq<bit>)
    requires |k| == |k'| == 256 && Value(k) <= Value(k')
    requires LeadingZeros(k) == LeadingZeros(k') < 256
    ensures Value(Compress(k).rest) >= Value(Compress(k').rest)
  {
    var z := LeadingZeros(k);
    assert k[..z + 1] == k'[..z + 1];
    hide LeadingZeros, Complement, Bits.Zeros, Compress, Value;
    var n := Min(112, Available(z));
    RestShape(k);
    RestShape(k');
    SplitAtOne(k, k', z, n);
    ComplementOrder(k[z + 1..z + 1 + n], k'[z + 1..z + 1 + n], 112 - n);
  }

  // Keys that agree up to their first one bit are ordered as the n bits after it.
  lemma SplitAtOne(k: seq<bit>, k': seq<bit>, z: nat, n: nat)
    requires |k| == |k'| == 256 && Value(k) <= Value(k') && z + 1 + n <= 256
    requires k[..z + 1] == k'[..z + 1]
    ensures Value(k[z + 1..z + 1 + n]) <= Value(k'[z + 1..z + 1 + n])
  {
    hide Value, Pow2;
    var e := z + 1 + n;
    assert k == k[..e] + k[e..] && k' == k'[..e] + k'[e..];
    PrefixOrder(k[..e], k[e..], k'[..e], k'[e..]);
    assert k[..e] == k[..z + 1] + k[z + 1..e] && k'[..e] == k'[..z + 1] + k'[z + 1..e];
    ValueAppend(k[..z + 1], k[z + 1..e]);
    ValueAppend(k'[..z + 1], k'[z + 1..e]);
  }

  lemma ComplementOrder(a: seq<bit>, b: seq<bit>, pad: nat)
    requires |a| == |b| && Value(a) <= Value(b)
    ensures Value(Complement(a) + Bits.Zeros(pad)) >= Value(Complement(b) + Bits.Zeros(pad))
  {
    ComplementValue(a);
    ComplementValue(b);
    ValueAppend(Complement(a), Bits.Zeros(pad));
    ValueAppend(Complement(b), Bits.Zeros(pad));
    MulLe(Value(Complement(b)), Value(Complement(a)), Pow2(pad));
  }

  // The part of an address that a subnet keeps: 48 of the 112 bits, the others cleared.
  function Truncate(p: Parts): (q: Parts)
    requires |p.rest| == 112
    ensures |q.rest| == 112
  {
    Parts(p.ones, p.rest[..48] + Bits.Zeros(64))
  }

  // The bloom transform: the partial key of the key's subnet.
  function Transform(k: seq<bit>): (t: seq<bit>)
    requires |k| == 256
    ensures |t| == 256
  {
    Expand(Truncate(Compress(k)))
  }

  // It gives the same result for a key, for its address's partial key and for its subnet's.
  lemma TransformStable(k: seq<bit>)
    requires |k| == 256
    ensures Transform(Expand(Compress(k))) == Transform(k)
    ensures Transform(Transform(k)) == Transform(k)
  {
    var p := Compress(k);
    CompressConsistent(k);
    CompressExpand(p);
    var q := Truncate(p);
    assert Consistent(q);
    CompressExpand(q);
    assert Truncate(q) == q;
  }

  // ---- Keys, addresses and subnets as bytes ----

  // The big-endian number of a byte string.
  function Number(s: seq<byte>): nat {
    Value(Unpack(s))
  }

  function AddressOf(key: seq<byte>): (a: seq<byte>)
    requires |key| == KEY_SIZE
    ensures |a| == ADDRESS_SIZE
  {
    var p := Compress(Unpack(key));
    [PREFIX, p.ones] + Pack(p.rest)
  }

  function SubnetOf(key: seq<byte>): (s: seq<byte>)
    requires |key| == KEY_SIZE
    ensures |s| == SUBNET_SIZE
  {
    AddressOf(key)[..SUBNET_SIZE][0 := PREFIX + 1]
  }

  function PartsOf(a: seq<byte>): (p: Parts)
    requires |a| == ADDRESS_SIZE
    ensures |p.rest| == 112
  {
    Parts(a[1], Unpack(a[2..]))
  }

  function KeyOf(a: seq<byte>): (key: seq<byte>)
    requires |a| == ADDRESS_SIZE
    ensures |key| == KEY_SIZE
  {
    Pack(Expand(PartsOf(a)))
  }

  function SubnetKeyOf(s: seq<byte>): (key: seq<byte>)
    requires |s| == SUBNET_SIZE
    ensures |key| == KEY_SIZE
  {
    KeyOf(s + [0, 0, 0, 0, 0, 0, 0, 0])
  }

  lemma PartsOfAddress(key: seq<byte>)
    requires |key| == KEY_SIZE
    ensures PartsOf(AddressOf(key)) == Compress(Unpack(key))
  {
    UnpackPack(Compress(Unpack(key)).rest);
    assert AddressOf(key)[2..] == Pack(Compress(Unpack(key)).rest);
  }

  // An address is the address of its own partial key exactly when it has the node prefix and sets
  // no bit beyond the whole bytes its zero count leaves.
  lemma AddressRoundTrip(a: seq<byte>)
    requires |a| == ADDRESS_SIZE
    ensures AddressOf(KeyOf(a)) == a <==> a[0] == PREFIX && Consistent(PartsOf(a))
  {
    var p := PartsOf(a);
    UnpackPack(Expand(p));
    CompressExpand(p);
    PackUnpack(a[2..]);
    assert a == [a[0], a[1]] + a[2..];
    if AddressOf(KeyOf(a)) == a {
      PartsOfAddress(KeyOf(a));
    }
  }

  // The address derived from any key comes back from the partial key derived from it.
  lemma DerivedAddressRoundTrip(key: seq<byte>)
    requires |key| == KEY_SIZE
    ensures AddressOf(KeyOf(AddressOf(key))) == AddressOf(key)
  {
    PartsOfAddress(key);
    CompressConsistent(Unpack(key));
    AddressRoundTrip(AddressOf(key));
  }

  // The partial key is the greatest of all keys with that address.
  lemma PartialKeyGreatest(key: seq<byte>, other: seq<byte>)
    requires |key| == |other| == KEY_SIZE && AddressOf(other) == AddressOf(key)
    ensures Number(other) <= Number(KeyOf(AddressOf(key)))
  {
    PartsOfAddress(key);
    PartsOfAddress(other);
    UnpackPack(Expand(PartsOf(AddressOf(key))));
    ExpandGreatest(Unpack(other));
  }

  // Keys that begin with a one bit and agree in their first fifteen bytes share their address.
  lemma SharedAddress(key: seq<byte>, key': seq<byte>)
    requires |key| == |key'| == KEY_SIZE && key[..15] == key'[..15] && key[0] >= 128
    ensures AddressOf(key) == AddressOf(key')
  {
    hide Pack;
    var k, k' := Unpack(key), Unpack(key');
    forall i | 0 <= i < 120
      ensures k[i] == k'[i]
    {
      assert key[..15][i / 8] == key'[..15][i / 8];
    }
    Pow2At8();
    assert k[0] == 1;
    assert Compress(k) == Compress(k');
  }

  lemma AddressNumber(key: seq<byte>)
    requires |key| == KEY_SIZE
    ensures Number(AddressOf(key)) == 2 * Pow2(120) + PartsValue(Compress(Unpack(key)))
  {
    hide Compress, Pow2, Value;
    var p := Compress(Unpack(key));
    var head := [PREFIX, p.ones];
    UnpackAppend(head, Pack(p.rest));
    UnpackPack(p.rest);
    ValueAppend(Unpack(head), p.rest);
    assert Unpack(head) == ByteBits(PREFIX) + ByteBits(p.ones);
    ValueAppend(ByteBits(PREFIX), ByteBits(p.ones));
    ValueOfByteBits(PREFIX);
    ValueOfByteBits(p.ones);
    Pow2At8();
    Pow2Add(8, 112);
    TwoBytesUp(p.ones, Pow2(112));
  }

  lemma TwoBytesUp(x: int, w: int)
    ensures (2 * 256 + x) * w == 2 * (256 * w) + x * w
  {
    MulAdd(512, x, w);
  }

  // Among non-zero keys, the larger the key the smaller the address.
  lemma AddressesAntitone(key: seq<byte>, key': seq<byte>)
    requires |key| == |key'| == KEY_SIZE && 0 < Number(key) <= Number(key')
    ensures Number(AddressOf(key)) >= Number(AddressOf(key'))
  {
    hide Compress, Value, Pow2, PartsValue;
    AddressNumber(key);
    AddressNumber(key');
    Antitone(Unpack(key), Unpack(key'));
  }

  lemma TransformOfBytes(key: seq<byte>)
    requires |key| == KEY_SIZE
    ensures Unpack(SubnetKeyOf(SubnetOf(key))) == Transform(Unpack(key))
  {
    var a := SubnetOf(key) + [0, 0, 0, 0, 0, 0, 0, 0];
    SubnetParts(key);
    hide Compress, SubnetOf, PartsOf, Pack, Unpack;
    UnpackPack(Expand(PartsOf(a)));
  }

  lemma SubnetParts(key: seq<byte>)
    requires |key| == KEY_SIZE
    ensures PartsOf(SubnetOf(key) + [0, 0, 0, 0, 0, 0, 0, 0]) == Truncate(Compress(Unpack(key)))
  {
    var zeros: seq<byte> := [0, 0, 0, 0, 0, 0, 0, 0];
    var addr := AddressOf(key);
    assert SubnetOf(key) + zeros == [PREFIX + 1, addr[1]] + (addr[2..8] + zeros);
    PartsOfAddress(key);
    hide Compress, AddressOf, SubnetOf, BitOf;
    UnpackAppend(addr[2..8], zeros);
    ZeroByteBits(zeros);
    UnpackSlice(addr);
  }

  lemma ZeroByteBits(zeros: seq<byte>)
    requires |zeros| == 8 && forall i :: 0 <= i < 8 ==> zeros[i] == 0
    ensures Unpack(zeros) == Bits.Zeros(64)
  {
    ZeroBits();
  }

  lemma UnpackSlice(a: seq<byte>)
    requires |a| == ADDRESS_SIZE
    ensures Unpack(a[2..8]) == Unpack(a[2..])[..48]
  {
    hide BitOf;
  }

  lemma ZeroBits()
    ensures forall k :: 0 <= k < 8 ==> BitOf(0, k) == 0
  {
    forall k | 0 <= k < 8
      ensures BitOf(0, k) == 0
    {
      ModUnique(0, 0, Pow2(7 - k), 0);
    }
  }

  // The key used for lookups is the same for a key, for the partial key of its address and for the
  // partial key of its subnet.
  lemma LookupKeyStable(key: seq<byte>)
    requires |key| == KEY_SIZE
    ensures SubnetKeyOf(SubnetOf(KeyOf(AddressOf(key)))) == SubnetKeyOf(SubnetOf(key))
    ensures SubnetKeyOf(SubnetOf(SubnetKeyOf(SubnetOf(key)))) == SubnetKeyOf(SubnetOf(key))
  {
    hide SubnetKeyOf, SubnetOf, Compress, Expand, Transform;
    var ka, ks := KeyOf(AddressOf(key)), SubnetKeyOf(SubnetOf(key));
    TransformOfBytes(key);
    TransformOfBytes(ka);
    TransformOfBytes(ks);
    PartsOfAddress(key);
    UnpackPack(Expand(PartsOf(AddressOf(key))));
    TransformStable(Unpack(key));
    UnpackInjective(SubnetKeyOf(SubnetOf(ka)), ks);
    UnpackInjective(SubnetKeyOf(SubnetOf(ks)), ks);
  }

  // ---- The code ----

  // The bytes packed so far and the bits not yet packed, after reading the key up to bit idx.
  ghost predicate Gathered(k: seq<bit>, z: nat, idx: nat, temp: seq<byte>, bits: byte, nBits: nat) {
    && z < idx <= |k| && nBits < 8
    && |temp| == (idx - z - 1) / 8 && nBits == (idx - z - 1) % 8
    && temp == Pack(Complement(k[z + 1..idx - nBits]))
    && bits % Pow2(nBits) == Value(Complement(k[idx - nBits..idx]))
  }

  lemma GatherBit(k: seq<bit>, z: nat, idx: nat, temp: seq<byte>, bits: byte, nBits: nat)
    requires Gathered(k, z, idx, temp, bits, nBits) && idx < |k| && nBits < 8
    ensures var b: byte := bits * 2 % 256 + (1 - k[idx]);
            if nBits == 7 then Gathered(k, z, idx + 1, temp + [b], b, 0)
              else Gathered(k, z, idx + 1, temp, b, nBits + 1)
  {
    hide Gathered;
    if nBits == 7 {
      GatherLast(k, z, idx, temp, bits);
    } else {
      GatherInside(k, z, idx, temp, bits, nBits);
    }
  }

  lemma GatherInside(k: seq<bit>, z: nat, idx: nat, temp: seq<byte>, bits: byte, nBits: nat)
    requires Gathered(k, z, idx, temp, bits, nBits) && idx < |k| && nBits < 7
    ensures Gathered(k, z, idx + 1, temp, bits * 2 % 256 + (1 - k[idx]), nBits + 1)
  {
    hide Complement, Value, Pow2, Pack;
    ComplementSnoc(k, idx - nBits, idx);
    ShiftIn(bits, 1 - k[idx], nBits);
    NextCount(idx - z - 1);
    assert idx + 1 - (nBits + 1) == idx - nBits;
  }

  lemma GatherLast(k: seq<bit>, z: nat, idx: nat, temp: seq<byte>, bits: byte)
    requires Gathered(k, z, idx, temp, bits, 7) && idx < |k|
    ensures var b: byte := bits * 2 % 256 + (1 - k[idx]); Gathered(k, z, idx + 1, temp + [b], b, 0)
  {
    EighthBit(k, z, idx, temp, bits);
    hide Complement, Value, Pow2, Pack, Gathered;
    GatherByte(k, z, idx + 1, temp, bits * 2 % 256 + (1 - k[idx]));
  }

  // The eighth bit completes the byte.
  lemma EighthBit(k: seq<bit>, z: nat, idx: nat, temp: seq<byte>, bits: byte)
    requires Gathered(k, z, idx, temp, bits, 7) && idx < |k|
    ensures z < idx - 7 && (idx - z) % 8 == 0 && temp == Pack(Complement(k[z + 1..idx - 7]))
    ensures bits * 2 % 256 + (1 - k[idx]) == Value(Complement(k[idx - 7..idx + 1])) < 256
  {
    hide Complement, Value, Pow2, Pack;
    ComplementSnoc(k, idx - 7, idx);
    ShiftIn(bits, 1 - k[idx], 7);
    NextCount(idx - z - 1);
  }

  lemma NextCount(n: nat)
    ensures n % 8 < 7 ==> (n + 1) / 8 == n / 8 && (n + 1) % 8 == n % 8 + 1
    ensures n % 8 == 7 ==> (n + 1) % 8 == 0
  {}

  lemma ComplementSnoc(k: seq<bit>, i: nat, j: nat)
    requires i <= j < |k|
    ensures Value(Complement(k[i..j + 1])) == 2 * Value(Complement(k[i..j])) + (1 - k[j])
  {
    assert Complement(k[i..j + 1])[..j - i] == Complement(k[i..j]);
  }

  lemma GatherByte(k: seq<bit>, z: nat, idx: nat, temp: seq<byte>, b: byte)
    requires z < idx - 8 < idx <= |k| && (idx - z - 1) % 8 == 0
    requires temp == Pack(Complement(k[z + 1..idx - 8]))
    requires b == Value(Complement(k[idx - 8..idx]))
    ensures Gathered(k, z, idx, temp + [b], b, 0)
  {
    SmallPowers();
    hide Value;
    var c, s := Complement(k[z + 1..idx - 8]), Complement(k[idx - 8..idx]);
    PackSnoc(c, s);
    assert Complement(k[z + 1..idx]) == c + s;
    assert k[idx..idx] == [];
    EmptyValue();
  }

  lemma EmptyValue()
    ensures Value([]) == 0
  {}

  lemma ShiftIn(bits: byte, x: bit, n: nat)
    requires n < 8
    ensures (bits * 2 % 256 + x) % Pow2(n + 1) == 2 * (bits % Pow2(n)) + x
    ensures n == 7 ==> Pow2(n + 1) == 256
  {
    SmallPowers();
    Pow2Add(7 - n, n + 1);
    DoubleMod(bits, x, Pow2(n), Pow2(7 - n));
  }

  lemma DoubleMod(bits: nat, x: bit, p: nat, m: nat)
    requires p > 0 && m * (2 * p) == 256 && bits < 256
    ensures (bits * 2 % 256 + x) % (2 * p) == 2 * (bits % p) + x
  {
    var q, r := bits / p, bits % p;
    assert bits == q * p + r;
    var over := bits * 2 / 256;
    MulAssoc(q, 2, p);
    MulAssoc(over, m, 2 * p);
    MulAdd(q, -(over * m), 2 * p);
    ModUnique(bits * 2 % 256 + x, q - over * m, 2 * p, 2 * r + x);
  }

  lemma PackSnoc(a: seq<bit>, b: seq<bit>)
    requires |a| % 8 == 0 && |b| == 8
    ensures Pack(a + b) == Pack(a) + [ByteOf(b)]
  {
    forall t | 0 <= t < |a| / 8
      ensures (a + b)[8 * t..8 * t + 8] == a[8 * t..8 * t + 8]
    {}
    assert (a + b)[|a|..|a| + 8] == b;
  }

  method AddrForKey(publicKey: seq<byte>) returns (addr: Option<seq<byte>>)
    ensures addr == if |publicKey| == KEY_SIZE then Some(AddressOf(publicKey)) else None
  {
    if |publicKey| != KEY_SIZE { return None; }
    hide AddressOf, Unpack, Complement, Gathered, LeadingZeros;
    var buf := new byte[32](i requires 0 <= i < |publicKey| => publicKey[i]);
    assert buf[..] == publicKey;
    InvertAll(buf);
    ghost var done, bits, nBits;
    var ones, temp;
    ones, temp, done, bits, nBits := CountAndGather(buf, Unpack(publicKey));
    var a := Assemble(ones, temp);
    FinishAddress(publicKey, done, ones, temp, bits, nBits, a);
    return Some(a);
  }

  // The prefix, the count byte and as many whole bytes as fit.
  method Assemble(ones: byte, temp: seq<byte>) returns (a: seq<byte>)
    ensures |a| == ADDRESS_SIZE && a[0] == PREFIX && a[1] == ones
    ensures forall i :: 2 <= i < 16 ==> a[i] == if i - 2 < |temp| then temp[i - 2] else 0
  {
    var addr := new byte[16](_ => 0);
    addr[0] := PREFIX;
    addr[1] := ones;
    forall i | 2 <= i < 2 + Min(14, |temp|) { addr[i] := temp[i - 2]; }
    a := addr[..];
  }

  // Counts the leading ones of the inverted key, skips the zero after them, and packs the bits that
  // follow into whole bytes.
  method CountAndGather(buf: array<byte>, ghost k: seq<bit>)
    returns (ones: byte, temp: seq<byte>, ghost done: bool, ghost bits: byte, ghost nBits: nat)
    requires buf.Length == 32 && |k| == 256 && Unpack(buf[..]) == Complement(k)
    ensures var z := LeadingZeros(k);
            if done then z < 256 && ones == z && Gathered(k, z, 256, temp, bits, nBits)
            else z == 256 && ones == 0 && temp == []
  {
    hide LeadingZeros, Gathered, Unpack, Complement, BitOf;
    ghost var z := LeadingZeros(k);
    var found := false;
    var acc: int, n: int := 0, 0;
    ones, temp := 0, [];
    var idx := 0;
    while idx < 256
      invariant 0 <= idx <= 256
      invariant 0 <= acc < 256 && 0 <= n < 8
      invariant if found then z < 256 && ones == z && Gathered(k, z, idx, temp, acc, n)
                else idx <= z && ones == idx % 256 && temp == [] && acc == 0 && n == 0
    {
      var bit := BitOf(buf[idx / 8], idx % 8);
      InvertedBitAt(buf[..], k, idx);
      if !found && bit != 0 {
        ones := (ones + 1) % 256;
      } else if !found {
        found := true;
        StartGathering(k, z);
      } else {
        GatherBit(k, z, idx, temp, acc, n);
        acc := acc * 2 % 256 + bit;
        n := n + 1;
        if n == 8 {
          n := 0;
          temp := temp + [acc];
        }
      }
      idx := idx + 1;
    }
    done, bits, nBits := found, acc, n;
  }

  lemma InvertedBitAt(s: seq<byte>, k: seq<bit>, i: nat)
    requires Unpack(s) == Complement(k) && i < |k|
    ensures BitOf(s[i / 8], i % 8) == 1 - k[i]
  {
    assert Unpack(s)[i] == Complement(k)[i];
  }

  lemma StartGathering(k: seq<bit>, z: nat)
    requires z < |k|
    ensures Gathered(k, z, z + 1, [], 0, 0)
  {
    assert Complement(k[z + 1..z + 1]) == [];
    ModUnique(0, 0, 1, 0);
  }

  lemma FinishAddress(key: seq<byte>, done: bool, ones: byte, temp: seq<byte>, bits: byte, nBits: nat, a: seq<byte>)
    requires |key| == KEY_SIZE && |a| == ADDRESS_SIZE
    requires var z := LeadingZeros(Unpack(key));
             if done then z < 256 && ones == z && Gathered(Unpack(key), z, 256, temp, bits, nBits)
             else z == 256 && ones == 0 && temp == []
    requires a[0] == PREFIX && a[1] == ones
    requires forall i :: 2 <= i < 16 ==> a[i] == if i - 2 < |temp| then temp[i - 2] else 0
    ensures a == AddressOf(key)
  {
    hide Compress, Pack, Gathered, Unpack;
    var k := Unpack(key);
    var p := Compress(k);
    CompressOnes(k);
    forall t | 0 <= t < 14
      ensures Pack(p.rest)[t] == a[2 + t]
    {
      AddressByte(k, done, temp, bits, nBits, t);
      PackAt(p.rest, t);
    }
    AddressShape(a, p);
  }

  lemma PackAt(b: seq<bit>, t: nat)
    requires |b| % 8 == 0 && t < |b| / 8
    ensures Pack(b)[t] == ByteOf(b[8 * t..8 * t + 8])
  {}

  lemma AddressShape(a: seq<byte>, p: Parts)
    requires |a| == ADDRESS_SIZE && |p.rest| == 112
    requires a[0] == PREFIX && (p.ones == a[1])
    requires forall t :: 0 <= t < 14 ==> Pack(p.rest)[t] == a[2 + t]
    ensures a == [PREFIX, p.ones] + Pack(p.rest)
  {
    hide Pack;
    assert a == [a[0], a[1]] + a[2..];
    assert a[2..] == Pack(p.rest);
  }

  lemma AddressByte(k: seq<bit>, done: bool, temp: seq<byte>, bits: byte, nBits: nat, t: nat)
    requires |k| == 256 && t < 14
    requires var z := LeadingZeros(k);
             if done then z < 256 && Gathered(k, z, 256, temp, bits, nBits) else z == 256 && temp == []
    ensures ByteOf(Compress(k).rest[8 * t..8 * t + 8]) == if t < |temp| then temp[t] else 0
  {
    hide Value, Pow2, Gathered, Compress;
    if t < |temp| {
      GatheredByte(k, temp, bits, nBits, t);
    } else {
      EmptyByte(k, done, temp, bits, nBits, t);
      ZerosValue(8);
    }
  }

  lemma GatheredByte(k: seq<bit>, temp: seq<byte>, bits: byte, nBits: nat, t: nat)
    requires |k| == 256 && t < 14 && t < |temp| && LeadingZeros(k) < 256
    requires Gathered(k, LeadingZeros(k), 256, temp, bits, nBits)
    ensures ByteOf(Compress(k).rest[8 * t..8 * t + 8]) == temp[t]
  {
    hide Value, Pow2, Compress, Complement, LeadingZeros, Gathered;
    PackedByte(k, LeadingZeros(k), temp, bits, nBits, t);
    RestSlice(k, 8 * t, 8 * t + 8);
  }

  lemma PackedByte(k: seq<bit>, z: nat, temp: seq<byte>, bits: byte, nBits: nat, t: nat)
    requires |k| == 256 && t < |temp|
    requires Gathered(k, z, 256, temp, bits, nBits)
    ensures z + 1 + 8 * t + 8 <= 256 && temp[t] == ByteOf(Complement(k[z + 1 + 8 * t..z + 1 + (8 * t + 8)]))
    ensures 8 * t + 8 <= Available(z)
  {
    hide Value, Pow2, Complement;
    ComplementSlice(k[z + 1..256 - nBits], 8 * t, 8 * t + 8);
    SliceOfSlice(k, z + 1, 255 - nBits - z, 8 * t, 8);
  }

  lemma RestSlice(k: seq<bit>, lo: nat, hi: nat)
    requires |k| == 256 && LeadingZeros(k) < 256
    requires lo <= hi <= 112 && hi <= Available(LeadingZeros(k))
    ensures var z := LeadingZeros(k);
            Compress(k).rest[lo..hi] == Complement(k[z + 1 + lo..z + 1 + hi])
  {
    hide Value, Pow2, LeadingZeros;
  }

  lemma ComplementSlice(b: seq<bit>, lo: nat, hi: nat)
    requires lo <= hi <= |b|
    ensures Complement(b)[lo..hi] == Complement(b[lo..hi])
  {}

  lemma EmptyByte(k: seq<bit>, done: bool, temp: seq<byte>, bits: byte, nBits: nat, t: nat)
    requires |k| == 256 && |temp| <= t < 14
    requires var z := LeadingZeros(k);
             if done then z < 256 && Gathered(k, z, 256, temp, bits, nBits) else z == 256 && temp == []
    ensures Compress(k).rest[8 * t..8 * t + 8] == Bits.Zeros(8)
  {
    hide Value, Pow2;
    assert Available(LeadingZeros(k)) <= 8 * t;
    forall i | 8 * t <= i < 8 * t + 8
      ensures Compress(k).rest[i] == 0
    {}
  }

  method InvertAll(buf: array<byte>)
    modifies buf
    ensures Unpack(buf[..]) == Complement(Unpack(old(buf[..])))
  {
    ghost var s := buf[..];
    var i := 0;
    while i < buf.Length
      invariant 0 <= i <= buf.Length
      invariant forall j :: 0 <= j < i ==> buf[j] == 255 - s[j]
      invariant forall j :: i <= j < buf.Length ==> buf[j] == s[j]
    {
      buf[i] := 255 - buf[i];
      i := i + 1;
    }
    InvertedBits(s, buf[..]);
  }

  lemma InvertedBits(s: seq<byte>, t: seq<byte>)
    requires |s| == |t| && forall j :: 0 <= j < |s| ==> t[j] == 255 - s[j]
    ensures Unpack(t) == Complement(Unpack(s))
  {
    forall i | 0 <= i < 8 * |s|
      ensures Unpack(t)[i] == Complement(Unpack(s))[i]
    {
      FlippedBits(s[i / 8]);
      assert ByteBits(t[i / 8])[i % 8] == Complement(ByteBits(s[i / 8]))[i % 8];
    }
  }

  method SubnetForKey(publicKey: seq<byte>) returns (subnet: Option<seq<byte>>)
    ensures subnet == if |publicKey| == KEY_SIZE then Some(SubnetOf(publicKey)) else None
  {
    var addr := AddrForKey(publicKey);
    if addr.None? { return None; }
    var s := addr.value[..SUBNET_SIZE];
    // the prefix byte is even, so setting its low bit adds one
    subnet := Some(s[0 := s[0] / 2 * 2 + 1]);
  }

  // key[i/8] |= 0x80 >> (i%8), when the bit is set.
  method OrBit(key: array<byte>, i: nat, b: bit)
    requires i < 8 * key.Length
    modifies key
    ensures Unpack(key[..]) == if b == 1 then old(Unpack(key[..]))[i := 1] else old(Unpack(key[..]))
  {
    if b == 1 {
      ghost var s := key[..];
      key[i / 8] := SetBit(key[i / 8], i % 8);
      OneBitSet(s, key[..], i);
    }
  }

  lemma OneBitSet(s: seq<byte>, t: seq<byte>, i: nat)
    requires i < 8 * |s| && t == s[i / 8 := SetBit(s[i / 8], i % 8)]
    ensures Unpack(t) == Unpack(s)[i := 1]
  {
    SetBitBits(s[i / 8], i % 8);
    forall m | 0 <= m < 8 * |s|
      ensures Unpack(t)[m] == Unpack(s)[i := 1][m]
    {
      if m / 8 == i / 8 {
        assert BitOf(t[m / 8], m % 8) == ByteBits(SetBit(s[i / 8], i % 8))[m % 8];
        assert BitOf(s[m / 8], m % 8) == ByteBits(s[i / 8])[m % 8];
      }
    }
  }

  ghost function Ones(n: nat): (k: seq<bit>)
    ensures |k| == 256
  {
    seq(256, i => if i < n then 1 else 0)
  }

  // The bits of the inverted key after `n` address bits have been placed.
  ghost function Placed(p: Parts, n: nat): (k: seq<bit>)
    requires |p.rest| == 112 && n <= 112
    ensures |k| == 256
  {
    seq(256, i requires 0 <= i < 256 =>
      if i < p.ones then 1 else if i > p.ones && i - p.ones - 1 < n then p.rest[i - p.ones - 1] else 0)
  }

  method GetKey(a: seq<byte>) returns (k: seq<byte>)
    requires |a| == ADDRESS_SIZE
    ensures k == KeyOf(a)
  {
    hide Unpack, Placed, Complement, PartsOf, Expand;
    ghost var p := PartsOf(a);
    var key := LeadingOnes(a[1]);
    PartsOnes(a);
    OnesArePlaced(p);
    var idx := 16;
    while idx < 8 * 16
      invariant 16 <= idx <= 128
      invariant Unpack(key[..]) == Placed(p, idx - 16)
    {
      var keyIdx := (a[1] as int) + 1 + (idx - 16);
      if keyIdx / 8 >= 32 {
        PlacedOut(p, idx - 16);
        break;
      }
      AddressBit(a, idx);
      PlacedStep(p, idx - 16);
      OrBit(key, keyIdx, BitOf(a[idx / 8], idx % 8));
      idx := idx + 1;
    }
    InvertAll(key);
    PlacedComplement(p);
    PackUnpack(key[..]);
    k := key[..];
  }

  lemma PartsOnes(a: seq<byte>)
    requires |a| == ADDRESS_SIZE
    ensures PartsOf(a).ones == a[1]
  {}

  method LeadingOnes(ones: byte) returns (key: array<byte>)
    ensures fresh(key) && key.Length == 32 && Unpack(key[..]) == Ones(ones)
  {
    key := new byte[32](_ => 0);
    ZeroBits();
    assert Unpack(key[..]) == Ones(0);
    hide Unpack, Ones;
    var i := 0;
    while i < ones
      invariant 0 <= i <= ones
      invariant Unpack(key[..]) == Ones(i)
    {
      OnesStep(i);
      OrBit(key, i, 1);
      i := i + 1;
    }
  }

  lemma OnesStep(n: nat)
    requires n < 256
    ensures Ones(n)[n := 1] == Ones(n + 1)
  {}

  lemma OnesArePlaced(p: Parts)
    requires |p.rest| == 112
    ensures Ones(p.ones) == Placed(p, 0)
  {}

  lemma PlacedStep(p: Parts, n: nat)
    requires |p.rest| == 112 && n < 112 && p.ones + 1 + n < 256
    ensures Placed(p, n + 1) == if p.rest[n] == 1 then Placed(p, n)[p.ones + 1 + n := 1] else Placed(p, n)
  {}

  lemma PlacedOut(p: Parts, n: nat)
    requires |p.rest| == 112 && n <= 112 && p.ones + 1 + n >= 256
    ensures Placed(p, 112) == Placed(p, n)
  {}

  lemma PlacedComplement(p: Parts)
    requires |p.rest| == 112
    ensures Complement(Placed(p, 112)) == Expand(p)
  {}

  lemma AddressBit(a: seq<byte>, idx: nat)
    requires |a| == ADDRESS_SIZE && 16 <= idx < 128
    ensures BitOf(a[idx / 8], idx % 8) == PartsOf(a).rest[idx - 16]
  {
    assert a[2..][(idx - 16) / 8] == a[idx / 8];
  }

  method SubnetGetKey(s: seq<byte>) returns (k: seq<byte>)
    requires |s| == SUBNET_SIZE
    ensures k == SubnetKeyOf(s)
  {
    k := GetKey(s + [0, 0, 0, 0, 0, 0, 0, 0]);
  }
}
