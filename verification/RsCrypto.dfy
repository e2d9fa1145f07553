// The encrypted envelope: header, initialization vector, size, cipher text, tag.
module RsCrypto {
  import opened Words
  import opened Aead
  import P = Poly1305
  import C = ChaCha20

  const IV_SIZE: nat := 12
  const TAG_SIZE: nat := 16
  const HEADER_SIZE: nat := 4
  const EDATA_SIZE: nat := 4
  const OVERHEAD: nat := HEADER_SIZE + IV_SIZE + EDATA_SIZE + TAG_SIZE
  const FORMAT_POLY1305: byte := 1
  const FORMAT_SHA256: byte := 2
  // rs_malloc ends the process when asked for 0 bytes or for more than this.
  const MALLOC_LIMIT: nat := 0x4000_0000

  // A call returns bytes, returns false, or ends the process inside the allocator.
  datatype Outcome = Done(data: seq<byte>) | Refused | Exit

  predicate Allocates(size: nat) {
    0 < size <= MALLOC_LIMIT
  }

  // ---- Specification ----

  function MethodFor(format: byte, mac: Mac): Method {
    if format == FORMAT_POLY1305 then ByPoly1305 else BySha256(mac)
  }

  function SizeField(n: u32): (s: seq<byte>)
    ensures |s| == 4
  {
    [n % 0x100, n / 0x100 % 0x100, n / 0x1_0000 % 0x100, n / 0x100_0000 % 0x100]
  }

  function FieldSize(s: seq<byte>): (n: u32)
    requires |s| == 4
  {
    (s[0] as int) + (s[1] as int) * 0x100 + (s[2] as int) * 0x1_0000 + (s[3] as int) * 0x100_0000
  }

  lemma SizeRoundTrip(n: u32)
    ensures FieldSize(SizeField(n)) == n
  {
    var q1, q2, q3 := n / 0x100, n / 0x1_0000, n / 0x100_0000;
    assert n == q1 * 0x100 + n % 0x100;
    assert q1 == q2 * 0x100 + q1 % 0x100;
    assert q2 == q3 * 0x100 + q2 % 0x100;
    assert q3 % 0x100 == q3;
  }

  // The 16 bytes after the header: initialization vector and size. They are authenticated.
  function Aad(iv: seq<byte>, size: u32): (s: seq<byte>)
    requires |iv| == 12
    ensures |s| == 16
  {
    iv + SizeField(size)
  }

  ghost function Envelope(format: byte, mac: Mac, key: seq<byte>, iv: seq<byte>, data: seq<byte>): (e: seq<byte>)
    requires |key| == 32 && |iv| == 12 && |data| + OVERHEAD < WORD
    ensures |e| == |data| + OVERHEAD
  {
    var (ct, tag) := Sealed(MethodFor(format, mac), key, iv, Aad(iv, |data|), data);
    [0xae, 0xad, format, 1] + Aad(iv, |data|) + ct + tag
  }

  predicate GoodHeader(e: seq<byte>) {
    && |e| >= HEADER_SIZE + IV_SIZE + EDATA_SIZE
    && e[0] == 0xae && e[1] == 0xad && (e[2] == FORMAT_POLY1305 || e[2] == FORMAT_SHA256) && e[3] == 1
  }

  // What the checks before any decryption are meant to establish.
  predicate WellFormed(e: seq<byte>) {
    GoodHeader(e) && FieldSize(e[16..20]) + OVERHEAD == |e|
  }

  // What they establish: the declared size is checked in 32 bits.
  predicate Passes(e: seq<byte>) {
    GoodHeader(e) && (FieldSize(e[16..20]) + OVERHEAD) % WORD == |e|
  }

  // Shorter than any envelope, with a declared size that makes the 32-bit sum come out right.
  predicate Wraps(e: seq<byte>) {
    |e| < OVERHEAD && GoodHeader(e) && FieldSize(e[16..20]) + OVERHEAD == WORD + |e|
  }

  // The size of an envelope would wrap around to a small one.
  predicate Overruns(size: nat) {
    size + OVERHEAD > WORD
  }

  // The data and the tag behind it lie within a buffer. The tag's offset is a 32-bit sum.
  predicate RangesFit(size: nat, total: nat) {
    20 + size <= total && (20 + size) % WORD + TAG_SIZE <= total
  }

  // Of the buffers that pass the checks, decryption stays inside all but those that wrap.
  lemma DecryptStaysInside(e: seq<byte>)
    requires Passes(e) && |e| < WORD
    ensures RangesFit(FieldSize(e[16..20]), |e|) <==> !Wraps(e)
    ensures WellFormed(e) <==> !Wraps(e)
  {
    var sum := FieldSize(e[16..20]) + OVERHEAD;
    assert sum == |e| || sum == WORD + |e|;
  }

  // Every length from the bare header to one byte below an envelope has such a buffer.
  lemma WrapsAt(length: nat) returns (e: seq<byte>)
    requires HEADER_SIZE + IV_SIZE + EDATA_SIZE <= length < OVERHEAD
    ensures |e| == length && Passes(e) && Wraps(e)
  {
    var n: u32 := WORD + length - OVERHEAD;
    var iv := seq(12, i => 0);
    e := [0xae, 0xad, FORMAT_POLY1305, 1] + iv + SizeField(n) + seq(length - 20, i => 0);
    assert e[16..20] == SizeField(n);
    SizeRoundTrip(n);
  }

  // Encryption stays inside the buffer it allocates exactly when the envelope's size does not wrap.
  lemma EncryptStaysInside(size: u32)
    requires Allocates((size + OVERHEAD) % WORD)
    ensures RangesFit(size, (size + OVERHEAD) % WORD) <==> !Overruns(size)
  {
    if size + OVERHEAD >= WORD { assert (size + OVERHEAD) % WORD == size + OVERHEAD - WORD; }
  }

  ghost function OpenEnvelope(e: seq<byte>, mac: Mac, key: seq<byte>): (bool, seq<byte>)
    requires |key| == 32 && WellFormed(e) && |e| < WORD
  {
    var n := |e| - OVERHEAD;
    Opened(MethodFor(e[2], mac), key, e[4..16], e[4..20], e[20..20 + n], e[20 + n..])
  }

  ghost function Encrypted(mac: Mac, key: seq<byte>, iv: seq<byte>, data: seq<byte>): Outcome
    requires |key| == 32 && |iv| == 12 && |data| < WORD && !Overruns(|data|)
  {
    if Allocates((|data| + OVERHEAD) % WORD) then Done(Envelope(FORMAT_SHA256, mac, key, iv, data)) else Exit
  }

  ghost function Decrypted(mac: Mac, key: seq<byte>, e: seq<byte>): Outcome
    requires |key| == 32 && |e| < WORD && !Wraps(e)
  {
    if !WellFormed(e) then Refused
    else
      var (right, data) := OpenEnvelope(e, mac, key);
      if !right then Refused else if Allocates(|data|) then Done(data) else Exit
  }

  lemma OpensItsEnvelope(format: byte, mac: Mac, key: seq<byte>, iv: seq<byte>, data: seq<byte>)
    requires |key| == 32 && |iv| == 12 && |data| + OVERHEAD < WORD
    requires format == FORMAT_POLY1305 || format == FORMAT_SHA256
    ensures var e := Envelope(format, mac, key, iv, data);
            WellFormed(e) && OpenEnvelope(e, mac, key) == (true, data)
  {
    hide Sealed, Opened;
    var e := Envelope(format, mac, key, iv, data);
    var how, aad := MethodFor(format, mac), Aad(iv, |data|);
    OpenSealed(how, key, iv, aad, data);
    SizeRoundTrip(|data|);
    var (ct, tag) := Sealed(how, key, iv, aad, data);
    var n := |data|;
    assert e[4..20] == aad && e[4..16] == iv && e[16..20] == SizeField(n);
    assert e[20..20 + n] == ct && e[20 + n..] == tag;
  }

  // Decryption undoes encryption for every key, vector and MAC exactly when both allocations are
  // within the allocator's bounds: the data is not empty and the envelope is at most 1 GiB.
  lemma RoundTrip(mac: Mac, key: seq<byte>, iv: seq<byte>, data: seq<byte>)
    requires |key| == 32 && |iv| == 12 && |data| < WORD && !Overruns(|data|)
    ensures var e := Encrypted(mac, key, iv, data);
            (e.Done? && |e.data| < WORD && !Wraps(e.data) && Decrypted(mac, key, e.data) == Done(data))
            <==> 1 <= |data| <= 0x4000_0000 - 36
  {
    hide Envelope, OpenEnvelope, WellFormed, GoodHeader;
    if |data| + OVERHEAD < WORD {
      OpensItsEnvelope(FORMAT_SHA256, mac, key, iv, data);
    }
  }

  // Decryption returns data exactly for the envelopes that hold it: nothing else is accepted.
  lemma AcceptsExactlyEnvelopes(mac: Mac, key: seq<byte>, e: seq<byte>, data: seq<byte>)
    requires |key| == 32 && |e| < WORD && !Wraps(e)
    ensures Decrypted(mac, key, e) == Done(data) <==>
              1 <= |data| <= 0x4000_0000 && exists format, iv :: IsEnvelope(e, format, mac, key, iv, data)
  {
    hide Envelope, OpenEnvelope, WellFormed, GoodHeader;
    if WellFormed(e) && OpenEnvelope(e, mac, key) == (true, data) {
      OpenedIsEnvelope(mac, key, e, data);
    }
    forall format, iv | IsEnvelope(e, format, mac, key, iv, data)
      ensures WellFormed(e) && OpenEnvelope(e, mac, key) == (true, data)
    {
      OpensItsEnvelope(format, mac, key, iv, data);
    }
  }

  ghost predicate IsEnvelope(e: seq<byte>, format: byte, mac: Mac, key: seq<byte>, iv: seq<byte>, data: seq<byte>)
    requires |key| == 32
  {
    && (format == FORMAT_POLY1305 || format == FORMAT_SHA256) && |iv| == 12 && |data| + OVERHEAD < WORD
    && e == Envelope(format, mac, key, iv, data)
  }

  lemma OpenedIsEnvelope(mac: Mac, key: seq<byte>, e: seq<byte>, data: seq<byte>)
    requires |key| == 32 && |e| < WORD && WellFormed(e) && OpenEnvelope(e, mac, key) == (true, data)
    ensures IsEnvelope(e, e[2], mac, key, e[4..16], data)
  {
    hide TagOf, C.Cipher;
    var n, iv := |e| - OVERHEAD, e[4..16];
    C.CipherTwice(key, 1, iv, e[20..20 + n]);
    FieldRoundTrip(e[16..20]);
    assert e[4..20] == Aad(iv, n);
    assert e[..4] == [0xae, 0xad, e[2], 1];
    assert e == e[..4] + e[4..20] + e[20..20 + n] + e[20 + n..];
  }

  lemma FieldRoundTrip(s: seq<byte>)
    requires |s| == 4
    ensures SizeField(FieldSize(s)) == s
  {
    var a: int, b: int, c: int, d: int := s[0], s[1], s[2], s[3];
    var n: int := FieldSize(s);
    assert n / 0x100 == b + c * 0x100 + d * 0x1_0000;
    assert n / 0x1_0000 == c + d * 0x100;
    assert n / 0x100_0000 == d;
  }

  // ---- What the tag covers ----

  // An envelope of format 2 opens exactly when its tag is the MAC, under the whole key, of all bytes
  // between the header and the tag.
  lemma OpensIffMac(mac: Mac, key: seq<byte>, e: seq<byte>)
    requires |key| == 32 && |e| < WORD && WellFormed(e) && e[2] == 2
    ensures OpenEnvelope(e, mac, key).0 <==> e[|e| - 16..] == mac(key, e[4..|e| - 16])
  {
    hide C.Cipher;
    assert e[4..20] + e[20..|e| - 16] == e[4..|e| - 16];
  }

  // One of format 1 opens, whatever the MAC, exactly when its tag spells the Poly1305 tag of those
  // bytes: the first 16 as additional data, the others as cipher text.
  lemma OpensIffStandard(mac: Mac, key: seq<byte>, e: seq<byte>)
    requires |key| == 32 && |e| < WORD && WellFormed(e) && e[2] == 1
    ensures OpenEnvelope(e, mac, key).0 <==>
              LE(e[|e| - 16..]) == AeadTag(key, e[4..16], e[4..20], e[20..|e| - 16])
  {
    hide C.Cipher, TagOf, LE, AeadTag;
    var tag := TagOf(ByPoly1305, key, e[4..16], e[4..20], e[20..|e| - 16]);
    TagIsStandard(key, e[4..16], e[4..20], e[20..|e| - 16]);
    if LE(e[|e| - 16..]) == LE(tag) { LEInjective(e[|e| - 16..], tag); }
  }

  function OtherTag(t: Tag): (t': Tag)
    ensures t' != t
  {
    if t[0] == 0 then t[0 := 1] else t[0 := 0]
  }

  // For any two buffers that differ in the vector, the size or the cipher text, and not in the tag,
  // some MAC accepts the one and refuses the other.
  lemma EveryByteCounts(key: seq<byte>, e: seq<byte>, e': seq<byte>) returns (mac: Mac)
    requires |key| == 32 && WellFormed(e) && e[2] == 2 && Allocates(|e| - OVERHEAD)
    requires |e'| == |e| && e'[2] == 2 && e'[|e| - 16..] == e[|e| - 16..]
    requires exists i :: 4 <= i < |e| - 16 && e'[i] != e[i]
    ensures Decrypted(mac, key, e).Done? && Decrypted(mac, key, e') == Refused
  {
    var m, tag: Tag := e[4..|e| - 16], e[|e| - 16..];
    var i :| 4 <= i < |e| - 16 && e'[i] != e[i];
    assert m[i - 4] != e'[4..|e| - 16][i - 4];
    mac := (k, x) => if x == m then tag else OtherTag(tag);
    hide OpenEnvelope;
    OpensIffMac(mac, key, e);
    if WellFormed(e') { OpensIffMac(mac, key, e'); }
  }

  // The bytes of what encryption writes: format 2, the vector, the size little-endian, and the data
  // under the key stream from block 1 on. The tag is no part of the theorem.
  lemma Layout(mac: Mac, key: seq<byte>, iv: seq<byte>, data: seq<byte>)
    requires |key| == 32 && |iv| == 12 && |data| < WORD && !Overruns(|data|)
    ensures var out := Encrypted(mac, key, iv, data);
            out.Done? ==>
              && |out.data| == |data| + 36
              && out.data[..4] == [0xae, 0xad, 2, 1] && out.data[4..16] == iv && LE(out.data[16..20]) == |data|
              && forall i :: 0 <= i < |data| ==> out.data[20 + i] == C.Xor(data[i], C.KeyStream(key, 1, iv, i))
  {
    hide TagOf, LE, SizeField, C.Xor, C.KeyStream;
    if |data| + OVERHEAD == WORD { return; }
    var e := Envelope(2, mac, key, iv, data);
    assert e[16..20] == SizeField(|data|);
    SizeFieldValue(|data|);
    assert e[20..20 + |data|] == C.Cipher(key, 1, iv, data);
  }

  lemma SizeFieldValue(n: u32)
    ensures LE(SizeField(n)) == n
  {
    SizeRoundTrip(n);
    var s := SizeField(n);
    assert LE([]) == 0 && W(0) == 1;
    hide LE;
    assert s[..0] == [] && s[..4] == s && P.Word(s, 0) == n;
    P.LEWord(s, 0);
  }

  // ---- The code ----

  // The initialization vector is a parameter; callers should draw it at random.
  method EncryptAuthenticateData(clear: array<byte>, key: seq<byte>, iv: seq<byte>, mac: Mac)
    returns (out: Outcome)
    requires |key| == 32 && |iv| == 12 && clear.Length < WORD && !Overruns(clear.Length)
    ensures out == Encrypted(mac, key, iv, clear[..])
  {
    hide Sealed;
    var size := clear.Length;
    var total := (HEADER_SIZE + IV_SIZE + EDATA_SIZE + size + TAG_SIZE) % WORD;
    if !Allocates(total) { return Exit; }
    var edata := new byte[total](_ => 0);
    WriteFrame(edata, iv, clear);
    ghost var b := edata[..];
    var ok := AeadInPlace(MethodFor(edata[2], mac), key, iv, edata, 20, size, edata, 4, 16, edata, 20 + size, true);
    SameBytes(b, edata[..], 0, 20);
    assert edata[20 + size..20 + size + 16] == edata[..][20 + size..];
    SealedEnvelope(mac, key, iv, clear[..], b, edata[..]);
    out := Done(edata[..]);
  }

  // Everything but the tag, not yet encrypted.
  method WriteFrame(edata: array<byte>, iv: seq<byte>, clear: array<byte>)
    requires |iv| == 12 && clear.Length + OVERHEAD < WORD && edata.Length == clear.Length + OVERHEAD && edata != clear
    modifies edata
    ensures edata[..4] == [0xae, 0xad, FORMAT_SHA256, 1] && edata[4..20] == Aad(iv, clear.Length)
    ensures edata[20..20 + clear.Length] == clear[..]
  {
    hide SizeField;
    edata[0], edata[1], edata[2], edata[3] := 0xae, 0xad, FORMAT_SHA256, 1;
    WriteAt(edata, 4, iv);
    ghost var b := edata[..];
    WriteAt(edata, 16, SizeField(clear.Length));
    SameBytes(b, edata[..], 0, 16);
    b := edata[..];
    WriteAt(edata, 20, clear[..]);
    SameBytes(b, edata[..], 0, 20);
    assert b[..20][..4] == b[..4] && b[..20][4..16] == b[4..16] && b[..20][16..20] == b[16..20];
    assert edata[4..20] == edata[4..16] + edata[16..20];
  }

  lemma SameBytes(b: seq<byte>, b': seq<byte>, lo: nat, hi: nat)
    requires lo <= hi <= |b| == |b'| && forall i :: lo <= i < hi ==> b'[i] == b[i]
    ensures b'[lo..hi] == b[lo..hi]
  {}

  lemma SealedEnvelope(mac: Mac, key: seq<byte>, iv: seq<byte>, data: seq<byte>, b: seq<byte>, b': seq<byte>)
    requires |key| == 32 && |iv| == 12 && |data| + OVERHEAD < WORD && |b| == |b'| == |data| + OVERHEAD
    requires b[..4] == [0xae, 0xad, FORMAT_SHA256, 1] && b[4..20] == Aad(iv, |data|) && b'[..20] == b[..20]
    requires (b'[20..20 + |data|], b'[20 + |data|..]) == Sealed(BySha256(mac), key, iv, Aad(iv, |data|), data)
    ensures b' == Envelope(FORMAT_SHA256, mac, key, iv, data)
  {
    hide Sealed;
    assert b'[..20] == b[..4] + b[4..20];
    assert b' == b'[..20] + b'[20..20 + |data|] + b'[20 + |data|..];
  }

  // Decrypts in place: a well-formed envelope has its data range overwritten even when it is refused.
  method DecryptAuthenticateData(edata: array<byte>, key: seq<byte>, mac: Mac) returns (out: Outcome)
    requires |key| == 32 && edata.Length < WORD && !Wraps(edata[..])
    modifies edata
    ensures out == Decrypted(mac, key, old(edata[..]))
    ensures !WellFormed(old(edata[..])) ==> edata[..] == old(edata[..])
    ensures WellFormed(old(edata[..])) ==>
      var b := old(edata[..]);
      edata[..] == b[..20] + OpenEnvelope(b, mac, key).1 + b[|b| - TAG_SIZE..]
  {
    hide Opened;
    ghost var b := edata[..];
    if edata.Length < HEADER_SIZE + IV_SIZE + EDATA_SIZE { return Refused; }
    if edata[0] != 0xae { return Refused; }
    if edata[1] != 0xad { return Refused; }
    if edata[2] != FORMAT_POLY1305 && edata[2] != FORMAT_SHA256 { return Refused; }
    if edata[3] != 0x01 { return Refused; }
    var iv := edata[4..16];
    var size := FieldSize(edata[16..20]);
    assert edata[..][16..20] == edata[16..20];
    if (size + EDATA_SIZE + TAG_SIZE + IV_SIZE + HEADER_SIZE) % WORD != edata.Length { return Refused; }
    DecryptStaysInside(b);
    var result :=
      AeadInPlace(MethodFor(edata[2], mac), key, iv, edata, 20, size, edata, 4, 16, edata, 20 + size, false);
    OpenedEnvelope(mac, key, b, edata[..], result);
    if !result { return Refused; }
    if !Allocates(size) { return Exit; }
    out := Done(edata[20..20 + size]);
  }

  lemma OpenedEnvelope(mac: Mac, key: seq<byte>, b: seq<byte>, b': seq<byte>, ok: bool)
    requires |key| == 32 && |b| == |b'| < WORD && WellFormed(b)
    requires var n := |b| - OVERHEAD;
             && (ok, b'[20..20 + n]) ==
                  Opened(MethodFor(b[2], mac), key, b[4..16], b[4..4 + 16], b[20..20 + n], b[20 + n..20 + n + 16])
             && b'[..20] == b[..20] && b'[20 + n..] == b[20 + n..]
    ensures OpenEnvelope(b, mac, key) == (ok, b'[20..20 + (|b| - OVERHEAD)])
    ensures b' == b[..20] + OpenEnvelope(b, mac, key).1 + b[|b| - TAG_SIZE..]
  {
    hide Opened;
    var n := |b| - OVERHEAD;
    assert b[20 + n..20 + n + 16] == b[20 + n..] && b[4..4 + 16] == b[4..20];
  }
}
