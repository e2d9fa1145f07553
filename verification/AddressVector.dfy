// Keys that begin with a one bit, and the example addresses of the test suite.
module AddressVector {
  import opened Words
  import opened Bits
  import opened Address

  // ---- From keys to addresses ----

  lemma SplitHigh(x: byte, h: int, l: int)
    requires x == 128 * h + l && 0 <= h < 2 && 0 <= l < 128
    ensures (255 - x) % 128 == 127 - l && (255 - x) / 128 == 1 - h
  {}

  lemma HighBitOf(x: byte)
    ensures (255 - x) / 128 == 1 - BitOf(x, 0)
    ensures (255 - x) % 128 ==
              127 - (64 * BitOf(x, 1) + 32 * BitOf(x, 2) + 16 * BitOf(x, 3) + 8 * BitOf(x, 4)
                     + 4 * BitOf(x, 5) + 2 * BitOf(x, 6) + BitOf(x, 7))
  {
    hide BitOf, Value;
    ValueOfByteBits(x);
    EightBits(ByteBits(x));
    SplitHigh(x, BitOf(x, 0), x - 128 * BitOf(x, 0));
  }

  // Eight bits that begin at the second bit of a byte.
  lemma ShiftedByte(b: seq<bit>, x: byte, y: byte)
    requires |b| == 8 && (forall j :: 0 <= j < 7 ==> b[j] == 1 - BitOf(x, j + 1)) && b[7] == 1 - BitOf(y, 0)
    ensures Value(b) == (255 - x) % 128 * 2 + (255 - y) / 128
  {
    hide BitOf, Value;
    HighBitOf(x);
    HighBitOf(y);
    EightBits(b);
    assert b[0] == 1 - BitOf(x, 1) && b[1] == 1 - BitOf(x, 2) && b[2] == 1 - BitOf(x, 3) && b[3] == 1 - BitOf(x, 4);
    assert b[4] == 1 - BitOf(x, 5) && b[5] == 1 - BitOf(x, 6) && b[6] == 1 - BitOf(x, 7);
  }

  // The bytes inverted and shifted left by one bit.
  function ShiftedLeft(key: seq<byte>): (s: seq<byte>)
    requires |key| == 32
  {
    seq(14, t requires 0 <= t < 14 => (255 - key[t]) % 128 * 2 + (255 - key[t + 1]) / 128)
  }

  // With its first bit set a key has no leading zeros, and its address is two fixed bytes and the
  // inverted key shifted left by one bit.
  lemma HighKey(key: seq<byte>)
    requires |key| == 32 && key[0] >= 128
    ensures AddressOf(key) == [2, 0] + ShiftedLeft(key)
  {
    var k := Unpack(key);
    assert k[0] == 1 by { TopBit(key[0]); }
    LeadingZerosUnique(k, 0);
    hide BitOf, Value, Unpack, LeadingZeros, ShiftedLeft, Pack;
    forall t | 0 <= t < 14
      ensures Pack(Compress(k).rest)[t] == ShiftedLeft(key)[t]
    {
      HighKeyByte(key, t);
    }
    assert Pack(Compress(k).rest) == ShiftedLeft(key);
  }

  lemma HighKeyByte(key: seq<byte>, t: nat)
    requires |key| == 32 && LeadingZeros(Unpack(key)) == 0 && t < 14
    ensures Pack(Compress(Unpack(key)).rest)[t] == ShiftedLeft(key)[t]
  {
    hide BitOf, Value, Compress, Unpack, LeadingZeros;
    RestSlice(Unpack(key), 8 * t, 8 * t + 8);
    UnpackedByte(key, t);
    UnpackedByte(key, t + 1);
    Window(Unpack(key), 8 * t, key[t], key[t + 1]);
  }

  lemma Window(k: seq<bit>, p: nat, x: byte, y: byte)
    requires p + 16 <= |k| && k[p..p + 8] == ByteBits(x) && k[p + 8..p + 16] == ByteBits(y)
    ensures Value(Complement(k[p + 1..p + 9])) == (255 - x) % 128 * 2 + (255 - y) / 128
  {
    hide BitOf, Value;
    var b := Complement(k[p + 1..p + 9]);
    forall j | 0 <= j < 7
      ensures b[j] == 1 - BitOf(x, j + 1)
    {
      assert k[p..p + 8][j + 1] == k[p + 1..p + 9][j];
    }
    assert k[p + 8..p + 16][0] == k[p + 1..p + 9][7];
    ShiftedByte(b, x, y);
  }

  lemma TopBit(x: byte)
    ensures BitOf(x, 0) == if x >= 128 then 1 else 0
  {
    SmallPowers();
  }

  // ---- From addresses to keys ----

  // Eight bits that end with the first seven bits of a byte.
  lemma ByteFrom(b: seq<bit>, x: byte, y: byte)
    requires |b| == 8 && b[0] == 1 - BitOf(x, 7) && forall j :: 1 <= j < 8 ==> b[j] == 1 - BitOf(y, j - 1)
    ensures Value(b) == (255 - x) % 2 * 128 + (255 - y) / 2
  {
    hide BitOf, Value;
    ValueOfByteBits(x);
    ValueOfByteBits(y);
    EightBits(b);
    EightBits(ByteBits(x));
    EightBits(ByteBits(y));
  }

  // A one, then the inverted bytes behind the first two shifted right by one bit.
  function ShiftedRight(a: seq<byte>): (s: seq<byte>)
    requires |a| == 16
  {
    seq(15, t requires 0 <= t < 15 =>
      if t == 0 then 128 + (255 - a[2]) / 2
      else if t < 14 then (255 - a[t + 1]) % 2 * 128 + (255 - a[t + 2]) / 2
      else (255 - a[15]) % 2 * 128 + 127)
  }

  // The way back, with ones only behind it.
  lemma HighAddress(a: seq<byte>)
    requires |a| == 16 && a[1] == 0
    ensures KeyOf(a)[..15] == ShiftedRight(a) && forall t :: 15 <= t < 32 ==> KeyOf(a)[t] == 255
  {
    forall t | 0 <= t < 32
      ensures KeyOf(a)[t] == if t < 15 then ShiftedRight(a)[t] else 255
    {
      HighAddressByte(a, t);
    }
    hide KeyOf, ShiftedRight;
  }

  lemma HighAddressByte(a: seq<byte>, t: nat)
    requires |a| == 16 && a[1] == 0 && t < 32
    ensures KeyOf(a)[t] == if t < 15 then ShiftedRight(a)[t] else 255
  {
    hide BitOf, Value, Expand;
    var x: byte := if t == 0 then 254 else if t < 15 then a[t + 1] else 0;
    var y: byte := if t < 14 then a[t + 2] else 0;
    ExpandedByte(a, t, x, y);
    ByteFrom(Expand(PartsOf(a))[8 * t..8 * t + 8], x, y);
  }

  lemma ExpandedByte(a: seq<byte>, t: nat, x: byte, y: byte)
    requires |a| == 16 && a[1] == 0 && t < 32
    requires x == (if t == 0 then 254 else if t < 15 then a[t + 1] else 0) && y == if t < 14 then a[t + 2] else 0
    ensures var b := Expand(PartsOf(a))[8 * t..8 * t + 8];
            b[0] == 1 - BitOf(x, 7) && forall j :: 1 <= j < 8 ==> b[j] == 1 - BitOf(y, j - 1)
  {
    EdgeBits();
    hide BitOf;
  }

  lemma EdgeBits()
    ensures BitOf(254, 7) == 0 && forall j :: 0 <= j < 8 ==> BitOf(0, j) == 0
  {
    SmallPowers();
  }

  // ---- The examples ----

  function Key(): (k: seq<byte>)
    ensures |k| == 32
  {
    [189, 186, 207, 216, 34, 64, 222, 61, 205, 18, 57, 36, 203, 181, 82, 86,
     251, 141, 171, 8, 170, 152, 227, 5, 82, 138, 184, 79, 65, 158, 110, 251]
  }

  lemma ShiftedExample()
    ensures ShiftedLeft(Key()) == [132, 138, 96, 79, 187, 126, 67, 132, 101, 219, 141, 182, 104, 149]
  {}

  lemma FirstByte()
    ensures Key()[0] == 189
  {}

  lemma ExampleAddress()
    ensures AddressOf(Key()) == [2, 0, 132, 138, 96, 79, 187, 126, 67, 132, 101, 219, 141, 182, 104, 149]
  {
    hide AddressOf, ShiftedLeft, Key;
    FirstByte();
    ShiftedExample();
    HighKey(Key());
  }

  lemma ExampleSubnet()
    ensures SubnetOf(Key()) == [3, 0, 132, 138, 96, 79, 187, 126]
  {
    hide AddressOf, Key;
    ExampleAddress();
  }

  lemma ExampleKey()
    ensures var k := KeyOf([2, 0, 132, 138, 96, 79, 187, 126, 67, 132, 101, 219, 141, 182, 104, 149]);
            && k[..15] == [189, 186, 207, 216, 34, 64, 222, 61, 205, 18, 57, 36, 203, 181, 127]
            && forall t :: 15 <= t < 32 ==> k[t] == 255
  {
    hide KeyOf;
    HighAddress([2, 0, 132, 138, 96, 79, 187, 126, 67, 132, 101, 219, 141, 182, 104, 149]);
  }

  lemma ExampleSubnetKey()
    ensures var k := SubnetKeyOf([3, 0, 132, 138, 96, 79, 187, 126]);
            k[..6] == [189, 186, 207, 216, 34, 64] && forall t :: 6 <= t < 32 ==> k[t] == 255
  {
    hide KeyOf;
    HighAddress([3, 0, 132, 138, 96, 79, 187, 126] + [0, 0, 0, 0, 0, 0, 0, 0]);
  }
}
