// The ChaCha20 block function and stream cipher (sections 2.1 to 2.4 of RFC 7539).
module ChaCha20 {
  import opened Words
  import opened NumberBits

  type word = bv32

  // ---- Specification over values ----

  datatype Quad = Quad(a: word, b: word, c: word, d: word)

  function Rot(x: word, n: nat): word
    requires n < 32
  {
    x.RotateLeft(n)
  }

  function UnRot(x: word, n: nat): word
    requires n < 32
  {
    x.RotateRight(n)
  }

  lemma RotInverts(t: word, n: nat)
    requires n == 16 || n == 12 || n == 8 || n == 7
    ensures UnRot(Rot(t, n), n) == t
  {
    if n == 16 { Rot16(t); } else if n == 12 { Rot12(t); } else if n == 8 { Rot8(t); } else { Rot7(t); }
  }

  lemma Rot16(t: word)
    ensures UnRot(Rot(t, 16), 16) == t
  {
    assert Rot(t, 16) == t.RotateLeft(16);
    Cancel16(t);
  }

  lemma Rot12(t: word)
    ensures UnRot(Rot(t, 12), 12) == t
  {
    assert Rot(t, 12) == t.RotateLeft(12);
    Cancel12(t);
  }

  lemma Rot8(t: word)
    ensures UnRot(Rot(t, 8), 8) == t
  {
    assert Rot(t, 8) == t.RotateLeft(8);
    Cancel8(t);
  }

  lemma Rot7(t: word)
    ensures UnRot(Rot(t, 7), 7) == t
  {
    assert Rot(t, 7) == t.RotateLeft(7);
    Cancel7(t);
  }

  lemma Cancel16(t: word)
    ensures t.RotateLeft(16).RotateRight(16) == t
  {}

  lemma Cancel12(t: word)
    ensures t.RotateLeft(12).RotateRight(12) == t
  {}

  lemma Cancel8(t: word)
    ensures t.RotateLeft(8).RotateRight(8) == t
  {}

  lemma Cancel7(t: word)
    ensures t.RotateLeft(7).RotateRight(7) == t
  {}

  function Plus(x: word, y: word): word {
    x + y
  }

  function XorWord(x: word, y: word): word {
    x ^ y
  }

  lemma XorTwiceIsSame(x: word, s: word)
    ensures XorWord(XorWord(x, s), s) == x
  {}

  lemma XorCancel(x: word, y: word, s: word)
    requires XorWord(x, s) == XorWord(y, s)
    ensures x == y
  {
    hide XorWord;
    XorTwiceIsSame(x, s);
    XorTwiceIsSame(y, s);
  }

  function Minus(x: word, y: word): word {
    x - y
  }

  lemma PlusMinus(x: word, s: word)
    ensures Minus(Plus(x, s), s) == x
  {
    hide Plus, Minus;
    SumMinus(x, s);
    PlusIs(x, s);
  }

  lemma SumMinus(x: word, s: word)
    ensures Minus(x + s, s) == x
  {}

  lemma PlusIs(x: word, y: word)
    ensures Plus(x, y) == x + y
  {}

  lemma PlusCancel(x: word, y: word, s: word)
    requires Plus(x, s) == Plus(y, s)
    ensures x == y
  {
    hide Plus, Minus;
    PlusMinus(x, s);
    PlusMinus(y, s);
  }

  // x += y; z ^= x; z <<<= n: a quarter round is four of these.
  function Mix(x: word, y: word, z: word, n: nat): (word, word)
    requires n < 32
  {
    (Plus(x, y), Rot(XorWord(z, Plus(x, y)), n))
  }

  lemma MixInjective(x: word, z: word, x': word, z': word, y: word, n: nat)
    requires n == 16 || n == 12 || n == 8 || n == 7
    requires Mix(x, y, z, n) == Mix(x', y, z', n)
    ensures x == x' && z == z'
  {
    hide Rot, UnRot, Plus, XorWord;
    PlusCancel(x, x', y);
    var s := Plus(x, y);
    RotInverts(XorWord(z, s), n);
    RotInverts(XorWord(z', s), n);
    XorCancel(z, z', s);
  }

  // The quarter round of section 2.1.
  function Quarter(q: Quad): Quad {
    var (a1, d1) := Mix(q.a, q.b, q.d, 16);
    var (c1, b1) := Mix(q.c, d1, q.b, 12);
    var (a2, d2) := Mix(a1, b1, d1, 8);
    var (c2, b2) := Mix(c1, d2, b1, 7);
    Quad(a2, b2, c2, d2)
  }

  lemma QuarterInjective(q: Quad, q': Quad)
    requires Quarter(q) == Quarter(q')
    ensures q == q'
  {
    hide Mix;
    var (a1, d1) := Mix(q.a, q.b, q.d, 16);
    var (c1, b1) := Mix(q.c, d1, q.b, 12);
    var (a2, d2) := Mix(a1, b1, d1, 8);
    var (a1', d1') := Mix(q'.a, q'.b, q'.d, 16);
    var (c1', b1') := Mix(q'.c, d1', q'.b, 12);
    MixInjective(c1, b1, c1', b1', d2, 7);
    MixInjective(a1, d1, a1', d1', b1, 8);
    MixInjective(q.c, q.b, q'.c, q'.b, d1, 12);
    MixInjective(q.a, q.d, q'.a, q'.d, q.b, 16);
  }

  predicate Distinct(a: nat, b: nat, c: nat, d: nat) {
    a < 16 && b < 16 && c < 16 && d < 16 && a != b && a != c && a != d && b != c && b != d && c != d
  }

  // The state with the quarter round applied to four of its words.
  function Apply(s: seq<word>, a: nat, b: nat, c: nat, d: nat): (t: seq<word>)
    requires |s| == 16 && Distinct(a, b, c, d)
    ensures |t| == 16
  {
    var q := Quarter(Quad(s[a], s[b], s[c], s[d]));
    s[a := q.a][b := q.b][c := q.c][d := q.d]
  }

  lemma ApplyInjective(s: seq<word>, t: seq<word>, a: nat, b: nat, c: nat, d: nat)
    requires |s| == |t| == 16 && Distinct(a, b, c, d)
    requires Apply(s, a, b, c, d) == Apply(t, a, b, c, d)
    ensures s == t
  {
    hide Quarter;
    var s', t' := Apply(s, a, b, c, d), Apply(t, a, b, c, d);
    assert Quarter(Quad(s[a], s[b], s[c], s[d])) == Quad(s'[a], s'[b], s'[c], s'[d]);
    assert Quarter(Quad(t[a], t[b], t[c], t[d])) == Quad(t'[a], t'[b], t'[c], t'[d]);
    QuarterInjective(Quad(s[a], s[b], s[c], s[d]), Quad(t[a], t[b], t[c], t[d]));
    forall k | 0 <= k < 16
      ensures s[k] == t[k]
    {
      if k != a && k != b && k != c && k != d {
        assert s'[k] == s[k] && t'[k] == t[k];
      }
    }
  }

  // Four quarter rounds on the columns, then four on the diagonals.
  function ColumnRound(s: seq<word>): (t: seq<word>)
    requires |s| == 16
    ensures |t| == 16
  {
    var s1 := Apply(s, 0, 4, 8, 12);
    var s2 := Apply(s1, 1, 5, 9, 13);
    var s3 := Apply(s2, 2, 6, 10, 14);
    Apply(s3, 3, 7, 11, 15)
  }

  function DiagonalRound(s: seq<word>): (t: seq<word>)
    requires |s| == 16
    ensures |t| == 16
  {
    var s1 := Apply(s, 0, 5, 10, 15);
    var s2 := Apply(s1, 1, 6, 11, 12);
    var s3 := Apply(s2, 2, 7, 8, 13);
    Apply(s3, 3, 4, 9, 14)
  }

  function DoubleRounds(s: seq<word>, n: nat): (t: seq<word>)
    requires |s| == 16
    ensures |t| == 16
  {
    if n == 0 then s else DiagonalRound(ColumnRound(DoubleRounds(s, n - 1)))
  }

  lemma ColumnInjective(s: seq<word>, t: seq<word>)
    requires |s| == |t| == 16 && ColumnRound(s) == ColumnRound(t)
    ensures s == t
  {
    hide Apply;
    var s1, t1 := Apply(s, 0, 4, 8, 12), Apply(t, 0, 4, 8, 12);
    var s2, t2 := Apply(s1, 1, 5, 9, 13), Apply(t1, 1, 5, 9, 13);
    var s3, t3 := Apply(s2, 2, 6, 10, 14), Apply(t2, 2, 6, 10, 14);
    ApplyInjective(s3, t3, 3, 7, 11, 15);
    ApplyInjective(s2, t2, 2, 6, 10, 14);
    ApplyInjective(s1, t1, 1, 5, 9, 13);
    ApplyInjective(s, t, 0, 4, 8, 12);
  }

  lemma DiagonalInjective(s: seq<word>, t: seq<word>)
    requires |s| == |t| == 16 && DiagonalRound(s) == DiagonalRound(t)
    ensures s == t
  {
    hide Apply;
    var s1, t1 := Apply(s, 0, 5, 10, 15), Apply(t, 0, 5, 10, 15);
    var s2, t2 := Apply(s1, 1, 6, 11, 12), Apply(t1, 1, 6, 11, 12);
    var s3, t3 := Apply(s2, 2, 7, 8, 13), Apply(t2, 2, 7, 8, 13);
    ApplyInjective(s3, t3, 3, 4, 9, 14);
    ApplyInjective(s2, t2, 2, 7, 8, 13);
    ApplyInjective(s1, t1, 1, 6, 11, 12);
    ApplyInjective(s, t, 0, 5, 10, 15);
  }

  // The rounds lose nothing: different states stay different through any number of double rounds.
  lemma {:induction false} RoundsInjective(s: seq<word>, t: seq<word>, n: nat)
    requires |s| == |t| == 16 && DoubleRounds(s, n) == DoubleRounds(t, n)
    ensures s == t
  {
    hide ColumnRound, DiagonalRound;
    if n > 0 {
      var s', t' := DoubleRounds(s, n - 1), DoubleRounds(t, n - 1);
      DiagonalInjective(ColumnRound(s'), ColumnRound(t'));
      ColumnInjective(s', t');
      RoundsInjective(s, t, n - 1);
    }
  }

  // ---- The rounds by columns ----

  // The columns of the 4x4 matrix that the state is written as.
  datatype Columns = Columns(a: Quad, b: Quad, c: Quad, d: Quad)

  function ToColumns(s: seq<word>): Columns
    requires |s| == 16
  {
    Columns(Quad(s[0], s[4], s[8], s[12]), Quad(s[1], s[5], s[9], s[13]),
            Quad(s[2], s[6], s[10], s[14]), Quad(s[3], s[7], s[11], s[15]))
  }

  // The quarter round of every column.
  function Quarters(m: Columns): Columns {
    Columns(Quarter(m.a), Quarter(m.b), Quarter(m.c), Quarter(m.d))
  }

  // Row r turned by r places, so that the diagonals become the columns, and back.
  function TurnLeft(m: Columns): Columns {
    Columns(Quad(m.a.a, m.b.b, m.c.c, m.d.d), Quad(m.b.a, m.c.b, m.d.c, m.a.d),
            Quad(m.c.a, m.d.b, m.a.c, m.b.d), Quad(m.d.a, m.a.b, m.b.c, m.c.d))
  }

  function TurnRight(m: Columns): Columns {
    Columns(Quad(m.a.a, m.d.b, m.c.c, m.b.d), Quad(m.b.a, m.a.b, m.d.c, m.c.d),
            Quad(m.c.a, m.b.b, m.a.c, m.d.d), Quad(m.d.a, m.c.b, m.b.c, m.a.d))
  }

  lemma TurnBack(m: Columns)
    ensures TurnRight(TurnLeft(m)) == m && TurnLeft(TurnRight(m)) == m
  {}

  function Pick(s: seq<word>, a: nat, b: nat, c: nat, d: nat): Quad
    requires |s| == 16 && Distinct(a, b, c, d)
  {
    Quad(s[a], s[b], s[c], s[d])
  }

  lemma ApplyHere(s: seq<word>, a: nat, b: nat, c: nat, d: nat)
    requires |s| == 16 && Distinct(a, b, c, d)
    ensures Pick(Apply(s, a, b, c, d), a, b, c, d) == Quarter(Pick(s, a, b, c, d))
  {
    hide Quarter;
  }

  lemma ApplyElsewhere(s: seq<word>, a: nat, b: nat, c: nat, d: nat, e: nat, f: nat, g: nat, h: nat)
    requires |s| == 16 && Distinct(a, b, c, d) && Distinct(e, f, g, h)
    requires Outside(e, a, b, c, d) && Outside(f, a, b, c, d) && Outside(g, a, b, c, d) && Outside(h, a, b, c, d)
    ensures Pick(Apply(s, a, b, c, d), e, f, g, h) == Pick(s, e, f, g, h)
  {
    hide Quarter;
  }

  predicate Outside(i: nat, a: nat, b: nat, c: nat, d: nat) {
    i != a && i != b && i != c && i != d
  }

  // The column round is the quarter round of every column.
  lemma ColumnsApart(s: seq<word>)
    requires |s| == 16
    ensures ToColumns(ColumnRound(s)) == Quarters(ToColumns(s))
  {
    hide Quarter, Apply;
    var s1 := Apply(s, 0, 4, 8, 12);
    var s2 := Apply(s1, 1, 5, 9, 13);
    var s3 := Apply(s2, 2, 6, 10, 14);
    ApplyHere(s, 0, 4, 8, 12);
    ApplyElsewhere(s, 0, 4, 8, 12, 1, 5, 9, 13);
    ApplyElsewhere(s, 0, 4, 8, 12, 2, 6, 10, 14);
    ApplyElsewhere(s, 0, 4, 8, 12, 3, 7, 11, 15);
    ApplyHere(s1, 1, 5, 9, 13);
    ApplyElsewhere(s1, 1, 5, 9, 13, 0, 4, 8, 12);
    ApplyElsewhere(s1, 1, 5, 9, 13, 2, 6, 10, 14);
    ApplyElsewhere(s1, 1, 5, 9, 13, 3, 7, 11, 15);
    ApplyHere(s2, 2, 6, 10, 14);
    ApplyElsewhere(s2, 2, 6, 10, 14, 0, 4, 8, 12);
    ApplyElsewhere(s2, 2, 6, 10, 14, 1, 5, 9, 13);
    ApplyElsewhere(s2, 2, 6, 10, 14, 3, 7, 11, 15);
    ApplyHere(s3, 3, 7, 11, 15);
    ApplyElsewhere(s3, 3, 7, 11, 15, 0, 4, 8, 12);
    ApplyElsewhere(s3, 3, 7, 11, 15, 1, 5, 9, 13);
    ApplyElsewhere(s3, 3, 7, 11, 15, 2, 6, 10, 14);
  }

  // With the rows turned the diagonal round is the quarter round of every column.
  lemma DiagonalsApart(s: seq<word>)
    requires |s| == 16
    ensures TurnLeft(ToColumns(DiagonalRound(s))) == Quarters(TurnLeft(ToColumns(s)))
  {
    hide Quarter, Apply;
    var s1 := Apply(s, 0, 5, 10, 15);
    var s2 := Apply(s1, 1, 6, 11, 12);
    var s3 := Apply(s2, 2, 7, 8, 13);
    ApplyHere(s, 0, 5, 10, 15);
    ApplyElsewhere(s, 0, 5, 10, 15, 1, 6, 11, 12);
    ApplyElsewhere(s, 0, 5, 10, 15, 2, 7, 8, 13);
    ApplyElsewhere(s, 0, 5, 10, 15, 3, 4, 9, 14);
    ApplyHere(s1, 1, 6, 11, 12);
    ApplyElsewhere(s1, 1, 6, 11, 12, 0, 5, 10, 15);
    ApplyElsewhere(s1, 1, 6, 11, 12, 2, 7, 8, 13);
    ApplyElsewhere(s1, 1, 6, 11, 12, 3, 4, 9, 14);
    ApplyHere(s2, 2, 7, 8, 13);
    ApplyElsewhere(s2, 2, 7, 8, 13, 0, 5, 10, 15);
    ApplyElsewhere(s2, 2, 7, 8, 13, 1, 6, 11, 12);
    ApplyElsewhere(s2, 2, 7, 8, 13, 3, 4, 9, 14);
    ApplyHere(s3, 3, 4, 9, 14);
    ApplyElsewhere(s3, 3, 4, 9, 14, 0, 5, 10, 15);
    ApplyElsewhere(s3, 3, 4, 9, 14, 1, 6, 11, 12);
    ApplyElsewhere(s3, 3, 4, 9, 14, 2, 7, 8, 13);
  }

  function Double(m: Columns): Columns {
    TurnRight(Quarters(TurnLeft(Quarters(m))))
  }

  function Doubled(m: Columns, n: nat): Columns {
    if n == 0 then m else Double(Doubled(m, n - 1))
  }

  lemma {:induction false} RoundsByColumns(s: seq<word>, n: nat)
    requires |s| == 16
    ensures ToColumns(DoubleRounds(s, n)) == Doubled(ToColumns(s), n)
  {
    hide ColumnRound, DiagonalRound, Quarters, ToColumns, TurnLeft, TurnRight;
    if n > 0 {
      var t := DoubleRounds(s, n - 1);
      RoundsByColumns(s, n - 1);
      ColumnsApart(t);
      DiagonalsApart(ColumnRound(t));
      TurnBack(ToColumns(DiagonalRound(ColumnRound(t))));
    }
  }

  // Little-endian word at byte i.
  function LoadWord(s: seq<byte>, i: nat): word
    requires i + 4 <= |s|
  {
    FourBytes(s[i], s[i + 1], s[i + 2], s[i + 3])
  }

  function FourBytes(a: byte, b: byte, c: byte, d: byte): word {
    (a as bv32) + ((b as bv32) << 8) + ((c as bv32) << 16) + ((d as bv32) << 24)
  }

  // The input state of section 2.3: constants, key, block counter, nonce.
  function InitialState(key: seq<byte>, counter: u32, nonce: seq<byte>): (s: seq<word>)
    requires |key| == 32 && |nonce| == 12
    ensures |s| == 16
  {
    [0x61707865, 0x3320646e, 0x79622d32, 0x6b206574,
     LoadWord(key, 0), LoadWord(key, 4), LoadWord(key, 8), LoadWord(key, 12),
     LoadWord(key, 16), LoadWord(key, 20), LoadWord(key, 24), LoadWord(key, 28),
     counter as bv32, LoadWord(nonce, 0), LoadWord(nonce, 4), LoadWord(nonce, 8)]
  }

  // Ten double rounds, then the input state added word by word.
  function Block(s: seq<word>): (t: seq<word>)
    requires |s| == 16
    ensures |t| == 16
  {
    var t := DoubleRounds(s, 10);
    seq(16, i requires 0 <= i < 16 => Plus(t[i], s[i]))
  }

  // Byte k of a state written out little-endian.
  function StreamByte(s: seq<word>, k: nat): byte
    requires |s| == 16 && k < 64
  {
    WordByte(s[k / 4], k % 4)
  }

  function WordByte(w: word, k: nat): byte
    requires k < 4
  {
    var b: bv8 :=
      if k == 0 then (w & 0xff) as bv8
      else if k == 1 then ((w >> 8) & 0xff) as bv8
      else if k == 2 then ((w >> 16) & 0xff) as bv8
      else ((w >> 24) & 0xff) as bv8;
    b as int
  }

  // Byte i of the key stream: block counter + i/64 modulo 2^32, byte i mod 64.
  function KeyStream(key: seq<byte>, counter: u32, nonce: seq<byte>, i: nat): byte
    requires |key| == 32 && |nonce| == 12
  {
    StreamByte(Block(InitialState(key, (counter + i / 64) % WORD, nonce)), i % 64)
  }

  // Exclusive or of two numbers of `bits` bits, bit by bit from the lowest.
  function XorBits(x: nat, k: nat, bits: nat): (z: nat)
    requires x < Pow2(bits) && k < Pow2(bits)
    ensures z < Pow2(bits)
  {
    if bits == 0 then 0
    else (x % 2 + k % 2) % 2 + 2 * XorBits(x / 2, k / 2, bits - 1)
  }

  // Each bit of the result is one exactly when one of the two bits is.
  lemma {:induction false} XorBitsBit(x: nat, k: nat, bits: nat, j: nat)
    requires x < Pow2(bits) && k < Pow2(bits)
    ensures BitAt(XorBits(x, k, bits), j) == if BitAt(x, j) != BitAt(k, j) then 1 else 0
  {
    var z := XorBits(x, k, bits);
    if bits > 0 {
      var z' := XorBits(x / 2, k / 2, bits - 1);
      if j > 0 { XorBitsBit(x / 2, k / 2, bits - 1, j - 1); }
      hide BitAt, Pow2;
      LowBit(x % 2, k % 2, z');
      BitHalf(x, j);
      BitHalf(k, j);
      BitHalf(z, j);
    }
  }

  lemma {:induction false} XorBitsTwice(x: nat, k: nat, bits: nat)
    requires x < Pow2(bits) && k < Pow2(bits)
    ensures XorBits(XorBits(x, k, bits), k, bits) == x
  {
    if bits > 0 {
      XorBitsTwice(x / 2, k / 2, bits - 1);
      hide Pow2;
      LowBit(x % 2, k % 2, XorBits(x / 2, k / 2, bits - 1));
    }
  }

  lemma LowBit(a: nat, b: nat, z: nat)
    requires a < 2 && b < 2
    ensures ((a + b) % 2 + 2 * z) / 2 == z
    ensures (((a + b) % 2 + 2 * z) % 2 + b) % 2 == a
  {}

  function Xor(x: byte, k: byte): byte {
    Pow2At8();
    XorBits(x, k, 8)
  }

  lemma {:induction false} XorBitsZero(k: nat, bits: nat)
    requires k < Pow2(bits)
    ensures XorBits(0, k, bits) == k
  {
    if bits > 0 { XorBitsZero(k / 2, bits - 1); }
  }

  lemma XorZero(k: byte)
    ensures Xor(0, k) == k
  {
    Pow2At8();
    XorBitsZero(k, 8);
  }

  function Cipher(key: seq<byte>, counter: u32, nonce: seq<byte>, data: seq<byte>): (out: seq<byte>)
    requires |key| == 32 && |nonce| == 12
    ensures |out| == |data|
  {
    seq(|data|, i requires 0 <= i < |data| => Xor(data[i], KeyStream(key, counter, nonce, i)))
  }

  lemma XorTwice(x: byte, k: byte)
    ensures Xor(Xor(x, k), k) == x
  {
    Pow2At8();
    XorBitsTwice(x, k, 8);
  }

  // Encrypting twice with the same key, counter and nonce restores the data, whatever its size.
  lemma CipherTwice(key: seq<byte>, counter: u32, nonce: seq<byte>, data: seq<byte>)
    requires |key| == 32 && |nonce| == 12
    ensures Cipher(key, counter, nonce, Cipher(key, counter, nonce, data)) == data
  {
    hide Xor, KeyStream;
    var twice := Cipher(key, counter, nonce, Cipher(key, counter, nonce, data));
    forall i | 0 <= i < |data|
      ensures twice[i] == data[i]
    {
      XorTwice(data[i], KeyStream(key, counter, nonce, i));
    }
  }

  // ---- The code, in place ----

  // The rotation as the code writes it.
  function Rotl(x: word, n: nat): (r: word)
    requires n == 16 || n == 12 || n == 8 || n == 7
    ensures r == Rot(x, n)
  {
    if n == 16 then (x << 16) | (x >> 16)
    else if n == 12 then (x << 12) | (x >> 20)
    else if n == 8 then (x << 8) | (x >> 24)
    else (x << 7) | (x >> 25)
  }

  function Mixed(s: seq<word>, x: nat, y: nat, z: nat, n: nat): (t: seq<word>)
    requires |s| == 16 && x < 16 && y < 16 && z < 16 && n < 32
    ensures |t| == 16
  {
    var (x', z') := Mix(s[x], s[y], s[z], n);
    s[x := x'][z := z']
  }

  method MixWords(c: array<word>, x: nat, y: nat, z: nat, n: nat)
    requires c.Length == 16 && x < 16 && y < 16 && z < 16 && x != y && x != z && y != z
    requires n == 16 || n == 12 || n == 8 || n == 7
    modifies c
    ensures c[..] == Mixed(old(c[..]), x, y, z, n)
  {
    hide Rotl, Rot, Plus, XorWord;
    c[x] := Plus(c[x], c[y]);
    c[z] := XorWord(c[z], c[x]);
    c[z] := Rotl(c[z], n);
  }

  method QuarterRound(c: array<word>, a: nat, b: nat, c': nat, d: nat)
    requires c.Length == 16 && Distinct(a, b, c', d)
    modifies c
    ensures c[..] == Apply(old(c[..]), a, b, c', d)
  {
    hide Mix;
    ghost var s := c[..];
    MixWords(c, a, b, d, 16);
    MixWords(c, c', d, b, 12);
    MixWords(c, a, b, d, 8);
    MixWords(c, c', d, b, 7);
    FourMixes(s, a, b, c', d);
  }

  lemma FourMixes(s: seq<word>, a: nat, b: nat, c: nat, d: nat)
    requires |s| == 16 && Distinct(a, b, c, d)
    ensures Mixed(Mixed(Mixed(Mixed(s, a, b, d, 16), c, d, b, 12), a, b, d, 8), c, d, b, 7) == Apply(s, a, b, c, d)
  {
    hide Mix, Mixed;
    var (a1, d1) := Mix(s[a], s[b], s[d], 16);
    var s1 := Mixed(s, a, b, d, 16);
    MixedAt(s, a, b, d, 16);
    var (c1, b1) := Mix(s[c], d1, s[b], 12);
    var s2 := Mixed(s1, c, d, b, 12);
    MixedAt(s1, c, d, b, 12);
    var (a2, d2) := Mix(a1, b1, d1, 8);
    var s3 := Mixed(s2, a, b, d, 8);
    MixedAt(s2, a, b, d, 8);
    MixedAt(s3, c, d, b, 7);
  }

  lemma MixedAt(s: seq<word>, x: nat, y: nat, z: nat, n: nat)
    requires |s| == 16 && x < 16 && y < 16 && z < 16 && n < 32 && x != z
    ensures var t := Mixed(s, x, y, z, n);
            && (t[x], t[z]) == Mix(s[x], s[y], s[z], n)
            && forall i :: 0 <= i < 16 && i != x && i != z ==> t[i] == s[i]
  {
    hide Mix;
  }

  method ColumnQuarters(c: array<word>)
    requires c.Length == 16
    modifies c
    ensures c[..] == ColumnRound(old(c[..]))
  {
    hide Apply, Quarter;
    QuarterRound(c, 0, 4, 8, 12);
    QuarterRound(c, 1, 5, 9, 13);
    QuarterRound(c, 2, 6, 10, 14);
    QuarterRound(c, 3, 7, 11, 15);
  }

  method DiagonalQuarters(c: array<word>)
    requires c.Length == 16
    modifies c
    ensures c[..] == DiagonalRound(old(c[..]))
  {
    hide Apply, Quarter;
    QuarterRound(c, 0, 5, 10, 15);
    QuarterRound(c, 1, 6, 11, 12);
    QuarterRound(c, 2, 7, 8, 13);
    QuarterRound(c, 3, 4, 9, 14);
  }

  method Apply20Rounds(c: array<word>)
    requires c.Length == 16
    modifies c
    ensures c[..] == Block(old(c[..]))
  {
    hide ColumnRound, DiagonalRound, Plus;
    ghost var s := c[..];
    var t := new word[16](i requires 0 <= i < 16 && c.Length == 16 reads c => c[i]);
    var i := 0;
    while i < 10
      invariant 0 <= i <= 10
      invariant c[..] == DoubleRounds(s, i)
      invariant t[..] == s
    {
      ColumnQuarters(c);
      DiagonalQuarters(c);
      i := i + 1;
    }
    AddState(c, t);
  }

  method AddState(c: array<word>, t: array<word>)
    requires c.Length == 16 && t.Length == 16 && c != t
    modifies c
    ensures forall k :: 0 <= k < 16 ==> c[k] == Plus(old(c[k]), t[k])
  {
    hide Plus;
    var i := 0;
    while i < 16
      invariant 0 <= i <= 16
      invariant forall k :: 0 <= k < i ==> c[k] == Plus(old(c[k]), t[k])
      invariant forall k :: i <= k < 16 ==> c[k] == old(c[k])
    {
      c[i] := Plus(c[i], t[i]);
      i := i + 1;
    }
  }

  method NewState(key: seq<byte>, counter: u32, nonce: seq<byte>) returns (c: array<word>)
    requires |key| == 32 && |nonce| == 12
    ensures fresh(c) && c.Length == 16 && c[..] == InitialState(key, counter, nonce)
  {
    var s := InitialState(key, counter, nonce);
    c := new word[16](i requires 0 <= i < 16 => s[i]);
    assert c[..] == s;
  }

  // Combines data[off..off+size] with the key stream.
  method Encrypt(key: seq<byte>, counter: u32, nonce: seq<byte>, data: array<byte>, off: nat, size: u32)
    requires |key| == 32 && |nonce| == 12 && off + size <= data.Length
    modifies data
    ensures data[..] == old(data[..off]) + Cipher(key, counter, nonce, old(data[off..off + size]))
                        + old(data[off + size..])
  {
    hide Block, InitialState, Xor, StreamByte, KeyStream;
    var i := 0;
    while i < size / 64 + 1
      invariant 0 <= i <= size / 64 + 1
      invariant forall k :: 0 <= k < data.Length && !(off <= k < off + Min(64 * i, size)) ==> data[k] == old(data[k])
      invariant forall k :: 0 <= k < Min(64 * i, size) ==>
        data[off + k] == Xor(old(data[off + k]), KeyStream(key, counter, nonce, k))
    {
      var c := NewState(key, (counter + i) % WORD, nonce);
      Apply20Rounds(c);
      ghost var before := data[..];
      var k := 0;
      while k < 64
        invariant 0 <= k <= 64
        invariant c[..] == Block(InitialState(key, (counter + i) % WORD, nonce))
        invariant forall j :: 0 <= j < data.Length && !(off + 64 * i <= j < off + Min(64 * i + k, size)) ==>
          data[j] == before[j]
        invariant forall j :: 0 <= j < k && 64 * i + j < size ==>
          data[off + 64 * i + j] == Xor(before[off + 64 * i + j], StreamByte(c[..], j))
      {
        if k + 64 * i < size {
          data[off + k + 64 * i] := Xor(data[off + k + 64 * i], StreamByte(c[..], k));
        }
        k := k + 1;
      }
      StreamOfBlock(key, counter, nonce, i);
      i := i + 1;
    }
  }

  // The key stream of the i-th block of data.
  lemma StreamOfBlock(key: seq<byte>, counter: u32, nonce: seq<byte>, i: nat)
    requires |key| == 32 && |nonce| == 12
    ensures forall k :: 64 * i <= k < 64 * i + 64 ==>
              KeyStream(key, counter, nonce, k)
              == StreamByte(Block(InitialState(key, (counter + i) % WORD, nonce)), k - 64 * i)
  {
    hide Block, InitialState, StreamByte;
  }
}
