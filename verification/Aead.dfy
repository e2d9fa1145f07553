// The two authenticated ciphers: ChaCha20 with Poly1305 (section 2.8 of RFC 7539) and ChaCha20 with
// a truncated HMAC. Data, additional data and tag are ranges of one byte buffer, changed in place.
module Aead {
  import opened Words
  import opened Poly1305
  import C = ChaCha20

  // ---- Numbers as bytes ----

  // The k lowest bytes of n, lowest first.
  function ToBytes(n: nat, k: nat): (s: seq<byte>)
    ensures |s| == k
  {
    if k == 0 then [] else ToBytes(n, k - 1) + [n / Pow2(8 * (k - 1)) % 256]
  }

  lemma {:induction false} ToBytesValue(n: nat, k: nat)
    ensures LE(ToBytes(n, k)) == n % Pow2(8 * k)
  {
    if k > 0 {
      var s := ToBytes(n, k);
      assert s[..k - 1] == ToBytes(n, k - 1);
      ToBytesValue(n, k - 1);
      Pow2At8();
      Pow2Add(8, 8 * (k - 1));
      TopByte(n, Pow2(8 * (k - 1)));
    }
  }

  lemma TopByte(n: nat, w: nat)
    requires w > 0
    ensures n % w + (n / w % 256) * w == n % (256 * w)
  {
    var q := n / w;
    assert n == q * w + n % w && q == q / 256 * 256 + q % 256;
    MulAdd(q / 256 * 256, q % 256, w);
    MulAssoc(q / 256, 256, w);
    MulLe(q % 256, 255, w);
    MulNonneg(q % 256, w);
    ModUnique(n, q / 256, 256 * w, n % w + (q % 256) * w);
  }

  lemma {:induction false} LEInjective(s: seq<byte>, t: seq<byte>)
    requires |s| == |t| && LE(s) == LE(t)
    ensures s == t
  {
    if |s| > 0 {
      var k := |s| - 1;
      LEBound(s[..k]);
      LEBound(t[..k]);
      ModUnique(LE(s), s[k], Pow2(8 * k), LE(s[..k]));
      ModUnique(LE(t), t[k], Pow2(8 * k), LE(t[..k]));
      LEInjective(s[..k], t[..k]);
      assert s == s[..k] + [s[k]] && t == t[..k] + [t[k]];
    }
  }

  // ---- Specification ----

  type Tag = t: seq<byte> | |t| == 16 witness [0, 0, 0, 0, 0, 0, 0, 0, 0, 0, 0, 0, 0, 0, 0, 0]

  // The first 16 bytes of the HMAC of a message under a key.
  type Mac = (seq<byte>, seq<byte>) -> Tag

  datatype Method = ByPoly1305 | BySha256(mac: Mac)

  // The one-time key: the first 32 bytes of key-stream block 0.
  function OneTimeKey(key: seq<byte>, nonce: seq<byte>): (k: seq<byte>)
    requires |key| == 32 && |nonce| == 12
    ensures |k| == 32
  {
    seq(32, i requires 0 <= i < 32 => C.KeyStream(key, 0, nonce, i))
  }

  // What the tag covers: both strings filled to multiples of 16 bytes, then both sizes.
  function Transcript(aad: seq<byte>, ct: seq<byte>, aadSize: nat, ctSize: nat): seq<byte> {
    Pad16(aad) + Pad16(ct) + ToBytes(aadSize, 8) + ToBytes(ctSize, 8)
  }

  // The bytes of a string that the 32-bit block count of the accumulator reaches.
  function Reached(m: seq<byte>): seq<byte>
    requires |m| < WORD
  {
    m[..Reach(|m|)]
  }

  ghost function TagOf(how: Method, key: seq<byte>, nonce: seq<byte>, aad: seq<byte>, ct: seq<byte>): Tag
    requires |key| == 32 && |nonce| == 12 && |aad| < WORD && |ct| < WORD
  {
    match how
    case BySha256(mac) => mac(key, aad + ct)
    case ByPoly1305 =>
      ToBytes(StandardTag(OneTimeKey(key, nonce), Transcript(Reached(aad), Reached(ct), |aad|, |ct|)), 16)
  }

  // MACs that return one end of what they are given.
  function FirstSixteen(key: seq<byte>, m: seq<byte>): Tag {
    if |m| >= 16 then m[..16] else Zeros(16)
  }

  function LastSixteen(key: seq<byte>, m: seq<byte>): Tag {
    if |m| >= 16 then m[|m| - 16..] else Zeros(16)
  }

  // What such a MAC is given begins with the additional data and ends with the cipher text.
  lemma MacEnds(key: seq<byte>, nonce: seq<byte>, aad: seq<byte>, ct: seq<byte>)
    requires |key| == 32 && |nonce| == 12 && |aad| == 16 && |ct| < WORD
    ensures TagOf(BySha256(FirstSixteen), key, nonce, aad, ct) == aad
    ensures |ct| >= 16 ==> TagOf(BySha256(LastSixteen), key, nonce, aad, ct) == ct[|ct| - 16..]
  {
    assert (aad + ct)[..16] == aad;
    if |ct| >= 16 { assert (aad + ct)[|aad + ct| - 16..] == ct[|ct| - 16..]; }
  }

  // The tag of section 2.8 of RFC 7539, as a number.
  ghost function AeadTag(key: seq<byte>, nonce: seq<byte>, aad: seq<byte>, ct: seq<byte>): nat
    requires |key| == 32 && |nonce| == 12
  {
    StandardTag(OneTimeKey(key, nonce), Transcript(aad, ct, |aad|, |ct|))
  }

  // Below 2^32 - 15 bytes the Poly1305 tag is the tag of the standard, spelled little-endian.
  lemma TagIsStandard(key: seq<byte>, nonce: seq<byte>, aad: seq<byte>, ct: seq<byte>)
    requires |key| == 32 && |nonce| == 12 && |aad| + 15 < WORD && |ct| + 15 < WORD
    ensures LE(TagOf(ByPoly1305, key, nonce, aad, ct)) == AeadTag(key, nonce, aad, ct)
  {
    ReachesAll(|aad|);
    ReachesAll(|ct|);
    assert Reached(aad) == aad && Reached(ct) == ct;
    var n := StandardTag(OneTimeKey(key, nonce), Transcript(aad, ct, |aad|, |ct|));
    ToBytesValue(n, 16);
    TagRange(OneTimeKey(key, nonce), Transcript(aad, ct, |aad|, |ct|));
  }

  lemma TagRange(key: seq<byte>, m: seq<byte>)
    requires |key| == 32
    ensures StandardTag(key, m) % Pow2(128) == StandardTag(key, m)
  {
    hide Polynomial, LE;
    var x := Polynomial(LE(Clamped(key)), m) % P + LE(key[16..]);
    ModUnique(x % Pow2(128), 0, Pow2(128), x % Pow2(128));
  }

  // The layout of a transcript: the bytes of both strings, zeros up to the next multiples of 16, and
  // the two sizes in the last sixteen bytes.
  lemma TranscriptLayout(aad: seq<byte>, ct: seq<byte>)
    requires |aad| < WORD && |ct| < WORD
    ensures var t, a := Transcript(aad, ct, |aad|, |ct|), (|aad| + 15) / 16 * 16;
            var z := a + (|ct| + 15) / 16 * 16;
            && |t| == z + 16
            && t[..|aad|] == aad && t[a..a + |ct|] == ct
            && (forall i :: |aad| <= i < a || a + |ct| <= i < z ==> t[i] == 0)
            && LE(t[z..z + 8]) == |aad| && LE(t[z + 8..]) == |ct|
  {
    hide Pad16, ToBytes, LE;
    Padded(aad);
    Padded(ct);
    SizeValue(|aad|);
    SizeValue(|ct|);
    FourParts(aad, ct, Pad16(aad), Pad16(ct), ToBytes(|aad|, 8), ToBytes(|ct|, 8));
  }

  lemma Padded(m: seq<byte>)
    ensures |Pad16(m)| == (|m| + 15) / 16 * 16 && Pad16(m)[..|m|] == m
    ensures forall i :: |m| <= i < |Pad16(m)| ==> Pad16(m)[i] == 0
  {}

  lemma FourParts(x: seq<byte>, y: seq<byte>, p: seq<byte>, q: seq<byte>, u: seq<byte>, v: seq<byte>)
    requires |x| <= |p| && p[..|x|] == x && |y| <= |q| && q[..|y|] == y && |u| == |v| == 8
    requires forall i :: |x| <= i < |p| ==> p[i] == 0
    requires forall i :: |y| <= i < |q| ==> q[i] == 0
    ensures var t, a := p + q + u + v, |p|;
            var z := a + |q|;
            && t[..|x|] == x && t[a..a + |y|] == y
            && (forall i :: |x| <= i < a || a + |y| <= i < z ==> t[i] == 0)
            && t[z..z + 8] == u && t[z + 8..] == v
  {
    var t, a := p + q + u + v, |p|;
    assert t[..a] == p;
    assert t[a..a + |q|] == q;
    assert p[..|x|] == t[..|x|];
    assert q[..|y|] == t[a..a + |y|];
  }

  lemma SizeValue(n: nat)
    requires n < WORD
    ensures LE(ToBytes(n, 8)) == n
  {
    ToBytesValue(n, 8);
    Pow2Words();
    Pow2Monotone(32, 64);
    ModUnique(n, 0, Pow2(64), n);
  }

  // Encryption: cipher text and tag. Decryption: whether the tag is right, and the clear text,
  // which is produced in either case.
  ghost function Sealed(how: Method, key: seq<byte>, nonce: seq<byte>, aad: seq<byte>,
                        data: seq<byte>): (seq<byte>, Tag)
    requires |key| == 32 && |nonce| == 12 && |aad| < WORD && |data| < WORD
  {
    var ct := C.Cipher(key, 1, nonce, data);
    (ct, TagOf(how, key, nonce, aad, ct))
  }

  ghost function Opened(how: Method, key: seq<byte>, nonce: seq<byte>, aad: seq<byte>, ct: seq<byte>,
                        tag: Tag): (bool, seq<byte>)
    requires |key| == 32 && |nonce| == 12 && |aad| < WORD && |ct| < WORD
  {
    (tag == TagOf(how, key, nonce, aad, ct), C.Cipher(key, 1, nonce, ct))
  }

  lemma OpenSealed(how: Method, key: seq<byte>, nonce: seq<byte>, aad: seq<byte>, data: seq<byte>)
    requires |key| == 32 && |nonce| == 12 && |aad| < WORD && |data| < WORD
    ensures var (ct, tag) := Sealed(how, key, nonce, aad, data);
            |ct| == |data| && Opened(how, key, nonce, aad, ct, tag) == (true, data)
  {
    hide TagOf, C.Cipher;
    C.CipherTwice(key, 1, nonce, data);
  }

  // The one-time key and the cipher text come from one key stream and share no byte of it: they are
  // what 64 zero bytes followed by the data are encrypted to from block 0 on.
  lemma OneStream(how: Method, key: seq<byte>, nonce: seq<byte>, aad: seq<byte>, data: seq<byte>)
    requires |key| == 32 && |nonce| == 12 && |aad| < WORD && |data| < WORD
    ensures var out := C.Cipher(key, 0, nonce, Zeros(64) + data);
            OneTimeKey(key, nonce) == out[..32] && Sealed(how, key, nonce, aad, data).0 == out[64..]
  {
    hide C.Xor, C.KeyStream, TagOf;
    var out, ct := C.Cipher(key, 0, nonce, Zeros(64) + data), C.Cipher(key, 1, nonce, data);
    forall i | 0 <= i < 32
      ensures out[i] == OneTimeKey(key, nonce)[i]
    {
      C.XorZero(C.KeyStream(key, 0, nonce, i));
    }
    forall i | 0 <= i < |data|
      ensures out[64 + i] == ct[i]
    {
      NextBlock(key, nonce, i);
    }
    assert out[64..] == ct;
  }

  lemma NextBlock(key: seq<byte>, nonce: seq<byte>, i: nat)
    requires |key| == 32 && |nonce| == 12
    ensures C.KeyStream(key, 1, nonce, i) == C.KeyStream(key, 0, nonce, 64 + i)
  {
    assert (64 + i) / 64 == 1 + i / 64 && (64 + i) % 64 == i % 64;
  }

  // The three padded updates digest the transcript in one pass.
  lemma ThreeUpdates(r: nat, aad: seq<byte>, ct: seq<byte>, lengths: seq<byte>)
    requires |lengths| == 16
    ensures Digest(Digest(Digest(0, r, aad, true), r, ct, true), r, lengths, true)
         == Digest(0, r, Pad16(aad) + Pad16(ct) + lengths, false)
  {
    hide Digest, Pad16;
    var a, c := Pad16(aad), Pad16(ct);
    PaddedDigest(0, r, aad);
    PaddedDigest(Digest(0, r, a, false), r, ct);
    var t := Digest(Digest(0, r, a, false), r, c, false);
    PaddedDigest(t, r, lengths);
    PadFull(lengths);
    DigestAppend(0, r, a, c, false);
    DigestAppend(0, r, a + c, lengths, false);
  }

  lemma PadFull(m: seq<byte>)
    requires |m| % 16 == 0
    ensures Pad16(m) == m
  {}

  // ---- The code ----

  method KeyGen(key: seq<byte>, nonce: seq<byte>) returns (k: seq<byte>)
    requires |key| == 32 && |nonce| == 12
    ensures k == OneTimeKey(key, nonce)
  {
    hide C.Block, C.InitialState, C.StreamByte;
    var c := C.NewState(key, 0, nonce);
    C.Apply20Rounds(c);
    var out := new byte[32];
    var i := 0;
    while i < 32
      invariant 0 <= i <= 32
      invariant c[..] == C.Block(C.InitialState(key, 0, nonce))
      invariant forall j :: 0 <= j < i ==> out[j] == C.KeyStream(key, 0, nonce, j)
    {
      out[i] := C.StreamByte(c[..], i);
      i := i + 1;
    }
    k := out[..];
  }

  method LengthsVector(aadSize: u32, dataSize: u32) returns (v: array<byte>)
    ensures fresh(v) && v[..] == ToBytes(aadSize, 8) + ToBytes(dataSize, 8)
  {
    hide ToBytes;
    v := new byte[16](_ => 0);
    v[0], v[1], v[2], v[3] :=
      aadSize % 0x100, aadSize / 0x100 % 0x100, aadSize / 0x1_0000 % 0x100, aadSize / 0x100_0000 % 0x100;
    v[8], v[9], v[10], v[11] :=
      dataSize % 0x100, dataSize / 0x100 % 0x100, dataSize / 0x1_0000 % 0x100, dataSize / 0x100_0000 % 0x100;
    SizeBytes(aadSize);
    SizeBytes(dataSize);
  }

  lemma SizeBytes(n: u32)
    ensures ToBytes(n, 8) == [n % 0x100, n / 0x100 % 0x100, n / 0x1_0000 % 0x100, n / 0x100_0000 % 0x100, 0, 0, 0, 0]
  {
    Pow2Words();
    assert Pow2(0) == 1;
    assert ToBytes(n, 0) == [];
    ToBytesStep(n, 1, 1);
    ToBytesStep(n, 2, 0x100);
    ToBytesStep(n, 3, 0x1_0000);
    ToBytesStep(n, 4, 0x100_0000);
    hide ToBytes, Pow2;
    HighByteZero(n, 5);
    HighByteZero(n, 6);
    HighByteZero(n, 7);
    HighByteZero(n, 8);
  }

  lemma ToBytesStep(n: nat, k: nat, w: nat)
    requires k > 0 && w == Pow2(8 * (k - 1))
    ensures ToBytes(n, k) == ToBytes(n, k - 1) + [n / w % 256]
  {}

  lemma HighByteZero(n: u32, k: nat)
    requires k > 4
    ensures ToBytes(n, k) == ToBytes(n, k - 1) + [0]
  {
    Pow2Words();
    Pow2Monotone(32, 8 * (k - 1));
    NoHighByte(n, Pow2(8 * (k - 1)));
  }

  lemma NoHighByte(n: nat, w: nat)
    requires n < w
    ensures n / w % 256 == 0
  {
    ModUnique(n, 0, w, n);
  }

  // A tag made of three padded updates of the accumulator.
  ghost predicate IsDigestOf(tag: Tag, key: seq<byte>, aad: seq<byte>, ct: seq<byte>, lengths: seq<byte>)
    requires |key| == 32
  {
    var r := LE(Clamped(key));
    LE(tag) == (Digest(Digest(Digest(0, r, aad, true), r, ct, true), r, lengths, true) + LE(key[16..])) % Pow2(128)
  }

  // The tag over a range of additional data and a range of cipher text.
  method PolyTag(key: seq<byte>, nonce: seq<byte>, data: array<byte>, dataOff: nat, dataSize: u32,
                 aad: array<byte>, aadOff: nat, aadSize: u32) returns (tag: Tag)
    requires |key| == 32 && |nonce| == 12
    requires dataOff + dataSize <= data.Length && aadOff + aadSize <= aad.Length
    ensures tag == TagOf(ByPoly1305, key, nonce, aad[aadOff..aadOff + aadSize], data[dataOff..dataOff + dataSize])
  {
    hide IsDigestOf, ToBytes, OneTimeKey, Reached, TagOf;
    ghost var a, d := aad[..], data[..];
    var session := KeyGen(key, nonce);
    var lengths := LengthsVector(aadSize, dataSize);
    tag := ThreeParts(session, data, dataOff, dataSize, aad, aadOff, aadSize, lengths);
    SliceReached(a, aadOff, aadSize);
    SliceReached(d, dataOff, dataSize);
    FinishTag(key, nonce, a[aadOff..aadOff + aadSize], d[dataOff..dataOff + dataSize], tag);
  }

  method ThreeParts(session: seq<byte>, data: array<byte>, dataOff: nat, dataSize: u32,
                    aad: array<byte>, aadOff: nat, aadSize: u32, lengths: array<byte>) returns (tag: Tag)
    requires |session| == 32 && lengths.Length == 16
    requires dataOff + dataSize <= data.Length && aadOff + aadSize <= aad.Length
    ensures IsDigestOf(tag, session, aad[aadOff..aadOff + Reach(aadSize)], data[dataOff..dataOff + Reach(dataSize)],
                       lengths[..])
  {
    hide Digest, LE, Clamped, Pow2, UInt256Limbs.UInt256.Value;
    var s := new State(session);
    s.Update(aad, aadOff, aadSize, true);
    s.Update(data, dataOff, dataSize, true);
    s.Update(lengths, 0, 16, true);
    assert lengths[0..Reach(16)] == lengths[..];
    tag := s.Finish();
  }

  lemma SliceReached(b: seq<byte>, off: nat, size: u32)
    requires off + size <= |b|
    ensures b[off..off + Reach(size)] == Reached(b[off..off + size])
  {}

  lemma FinishTag(key: seq<byte>, nonce: seq<byte>, aad: seq<byte>, ct: seq<byte>, tag: Tag)
    requires |key| == 32 && |nonce| == 12 && |aad| < WORD && |ct| < WORD
    requires IsDigestOf(tag, OneTimeKey(key, nonce), Reached(aad), Reached(ct), ToBytes(|aad|, 8) + ToBytes(|ct|, 8))
    ensures tag == TagOf(ByPoly1305, key, nonce, aad, ct)
  {
    hide Digest, Pad16, LE, Pow2, StandardTag, ToBytes, Reached, IsDigestOf, OneTimeKey;
    var x, y := ToBytes(|aad|, 8), ToBytes(|ct|, 8);
    var a, c := Pad16(Reached(aad)), Pad16(Reached(ct));
    assert a + c + (x + y) == a + c + x + y;
    TagNumber(OneTimeKey(key, nonce), Reached(aad), Reached(ct), x + y, tag);
  }

  lemma TagNumber(key: seq<byte>, aad: seq<byte>, ct: seq<byte>, lengths: seq<byte>, tag: Tag)
    requires |key| == 32 && |lengths| == 16
    requires IsDigestOf(tag, key, aad, ct, lengths)
    ensures tag == ToBytes(StandardTag(key, Pad16(aad) + Pad16(ct) + lengths), 16)
  {
    hide Digest, Pad16, LE, Pow2, Polynomial, ToBytes;
    var r, m := LE(Clamped(key)), Pad16(aad) + Pad16(ct) + lengths;
    ThreeUpdates(r, aad, ct, lengths);
    DigestIsPolynomial(0, r, m);
    ToBytesValue(StandardTag(key, m), 16);
    TagRange(key, m);
    LEInjective(tag, ToBytes(StandardTag(key, m), 16));
  }

  // Two ranges that share no byte.
  predicate Apart(a: array<byte>, off: nat, n: nat, b: array<byte>, off': nat, n': nat) {
    a != b || off + n <= off' || off' + n' <= off
  }

  predicate Inside(i: nat, off: nat, n: nat) {
    off <= i < off + n
  }

  // AEAD_chacha20_poly1305 and AEAD_chacha20_sha256. Data, additional data and tag are ranges of one
  // buffer or of several. Encryption overwrites the data and the tag; decryption overwrites the data
  // whether or not the tag is right.
  method AeadInPlace(how: Method, key: seq<byte>, nonce: seq<byte>, data: array<byte>, dataOff: nat, dataSize: u32,
                     aad: array<byte>, aadOff: nat, aadSize: u32, tag: array<byte>, tagOff: nat, encrypt: bool)
    returns (ok: bool)
    requires |key| == 32 && |nonce| == 12
    requires dataOff + dataSize <= data.Length && aadOff + aadSize <= aad.Length && tagOff + 16 <= tag.Length
    requires Apart(data, dataOff, dataSize, aad, aadOff, aadSize) && Apart(data, dataOff, dataSize, tag, tagOff, 16)
    modifies data, tag
    ensures encrypt ==>
      ok && (data[dataOff..dataOff + dataSize], tag[tagOff..tagOff + 16]) ==
        Sealed(how, key, nonce, old(aad[aadOff..aadOff + aadSize]), old(data[dataOff..dataOff + dataSize]))
    ensures !encrypt ==>
      (ok, data[dataOff..dataOff + dataSize]) ==
        Opened(how, key, nonce, old(aad[aadOff..aadOff + aadSize]), old(data[dataOff..dataOff + dataSize]),
               old(tag[tagOff..tagOff + 16]))
    ensures forall i | 0 <= i < data.Length && !Inside(i, dataOff, dataSize) ::
      !(encrypt && data == tag && Inside(i, tagOff, 16)) ==> data[i] == old(data[i])
    ensures forall i | 0 <= i < tag.Length && !(encrypt && Inside(i, tagOff, 16)) ::
      !(data == tag && Inside(i, dataOff, dataSize)) ==> tag[i] == old(tag[i])
  {
    hide TagOf, C.Cipher;
    if encrypt {
      CipherInPlace(key, nonce, data, dataOff, dataSize);
      assert aad[aadOff..aadOff + aadSize] == old(aad[aadOff..aadOff + aadSize]);
      var t := ComputeTag(how, key, nonce, data, dataOff, dataSize, aad, aadOff, aadSize);
      ghost var ct := data[dataOff..dataOff + dataSize];
      WriteAt(tag, tagOff, t);
      assert data[dataOff..dataOff + dataSize] == ct;
      ok := true;
    } else {
      var computed := ComputeTag(how, key, nonce, data, dataOff, dataSize, aad, aadOff, aadSize);
      CipherInPlace(key, nonce, data, dataOff, dataSize);
      assert tag[tagOff..tagOff + 16] == old(tag[tagOff..tagOff + 16]);
      ok := tag[tagOff..tagOff + 16] == computed;
    }
  }

  method CipherInPlace(key: seq<byte>, nonce: seq<byte>, data: array<byte>, off: nat, size: u32)
    requires |key| == 32 && |nonce| == 12 && off + size <= data.Length
    modifies data
    ensures data[off..off + size] == C.Cipher(key, 1, nonce, old(data[off..off + size]))
    ensures forall i :: 0 <= i < data.Length && !Inside(i, off, size) ==> data[i] == old(data[i])
  {
    hide C.Cipher;
    ghost var d := data[..];
    C.Encrypt(key, 1, nonce, data, off, size);
    ghost var ct := C.Cipher(key, 1, nonce, d[off..off + size]);
    assert |ct| == size;
    assert data[..][off..off + size] == ct;
    forall i | 0 <= i < data.Length && !Inside(i, off, size)
      ensures data[..][i] == d[i]
    {
      if i < off { assert d[..off][i] == d[i]; } else { assert d[off + size..][i - (off + size)] == d[i]; }
    }
  }

  method WriteAt(buf: array<byte>, off: nat, t: seq<byte>)
    requires off + |t| <= buf.Length
    modifies buf
    ensures buf[off..off + |t|] == t
    ensures forall i :: 0 <= i < buf.Length && !Inside(i, off, |t|) ==> buf[i] == old(buf[i])
  {
    forall i | 0 <= i < |t| { buf[off + i] := t[i]; }
  }

  method ComputeTag(how: Method, key: seq<byte>, nonce: seq<byte>, data: array<byte>, dataOff: nat, dataSize: u32,
                    aad: array<byte>, aadOff: nat, aadSize: u32) returns (tag: Tag)
    requires |key| == 32 && |nonce| == 12
    requires dataOff + dataSize <= data.Length && aadOff + aadSize <= aad.Length
    ensures tag == TagOf(how, key, nonce, aad[aadOff..aadOff + aadSize], data[dataOff..dataOff + dataSize])
  {
    match how
    case BySha256(mac) =>
      tag := mac(key, aad[aadOff..aadOff + aadSize] + data[dataOff..dataOff + dataSize]);
    case ByPoly1305 =>
      tag := PolyTag(key, nonce, data, dataOff, dataSize, aad, aadOff, aadSize);
  }
}
