// The tag of section 2.5.2 of RFC 7539, one block at a time.
module Poly1305Vector {
  import opened Words
  import opened UInt256Limbs
  import opened Poly1305

  function R(): (s: seq<byte>)
    ensures |s| == 16
  {
    [0x85, 0xd6, 0xbe, 0x78, 0x57, 0x55, 0x6d, 0x33,
     0x7f, 0x44, 0x52, 0xfe, 0x42, 0xd5, 0x06, 0xa8]
  }

  function S(): (s: seq<byte>)
    ensures |s| == 16
  {
    [0x01, 0x03, 0x80, 0x8a, 0xfb, 0x0d, 0xb2, 0xfd,
     0x4a, 0xbf, 0xf6, 0xaf, 0x41, 0x49, 0xf5, 0x1b]
  }

  // The message "Cryptographic Forum Research Group" in blocks.

  function Block1(): (s: seq<byte>)
    ensures |s| == 16
  {
    [0x43, 0x72, 0x79, 0x70, 0x74, 0x6f, 0x67, 0x72,
     0x61, 0x70, 0x68, 0x69, 0x63, 0x20, 0x46, 0x6f]
  }

  function Block2(): (s: seq<byte>)
    ensures |s| == 16
  {
    [0x72, 0x75, 0x6d, 0x20, 0x52, 0x65, 0x73, 0x65,
     0x61, 0x72, 0x63, 0x68, 0x20, 0x47, 0x72, 0x6f]
  }

  function Block3(): (s: seq<byte>)
    ensures |s| == 2
  {
    [0x75, 0x70]
  }

  function ExpectedTag(): (s: seq<byte>)
    ensures |s| == 16
  {
    [0xa8, 0x06, 0x1d, 0xc1, 0x30, 0x51, 0x36, 0xc6,
     0xc2, 0x2b, 0x8b, 0xaf, 0x0c, 0x01, 0x27, 0xa9]
  }

  lemma Sixteen(s: seq<byte>, limbs: seq<u32>)
    requires |s| == 16
    requires limbs == [Word(s, 0), Word(s, 4), Word(s, 8), Word(s, 12), 0, 0, 0, 0]
    ensures LE(s) == Eight(limbs)
  {
    LoadValue(s, limbs);
    Expand(limbs);
  }

  lemma ClampedValue(key: seq<byte>)
    requires |key| == 32 && key[..16] == R()
    ensures LE(Clamped(key)) == 0x806d540_0e52447c_036d5554_08bed685
  {
    var c := Clamped(key);
    assert forall i :: 0 <= i < 16 ==> key[i] == R()[i];
    Sixteen(c, [0x08bed685, 0x036d5554, 0x0e52447c, 0x0806d540, 0, 0, 0, 0]);
  }

  lemma SValue()
    ensures LE(S()) == 0x1bf54941_aff6bf4a_fdb20dfb_8a800301
  {
    Sixteen(S(), [0x8a800301, 0xfdb20dfb, 0xaff6bf4a, 0x1bf54941, 0, 0, 0, 0]);
  }

  lemma TagBytesValue()
    ensures LE(ExpectedTag()) == 0xa927010c_af8b2bc2_c6365130_c11d06a8
  {
    Sixteen(ExpectedTag(), [0xc11d06a8, 0xc6365130, 0xaf8b2bc2, 0xa927010c, 0, 0, 0, 0]);
  }

  lemma Pow2At128()
    ensures Pow2(128) == 0x1_00000000_00000000_00000000_00000000
  {
    Pow2Words();
    Pow2Add(32, 32);
    Pow2Add(64, 64);
  }

  lemma Number1()
    ensures BlockNumber(Block1(), false) == 0x1_6f462063_69687061_72676f74_70797243
  {
    Pow2At128();
    Sixteen(Block1(), [0x70797243, 0x72676f74, 0x69687061, 0x6f462063, 0, 0, 0, 0]);
  }

  lemma Number2()
    ensures BlockNumber(Block2(), false) == 0x1_6f724720_68637261_65736552_206d7572
  {
    Pow2At128();
    Sixteen(Block2(), [0x206d7572, 0x65736552, 0x68637261, 0x6f724720, 0, 0, 0, 0]);
  }

  lemma Number3()
    ensures BlockNumber(Block3(), false) == 0x17075
  {
    Pow2Words();
    assert LE(Block3()[..1]) == 0x75;
  }

  lemma Absorbed()
    ensures Absorb(0, 0x806d540_0e52447c_036d5554_08bed685, 0x1_6f462063_69687061_72676f74_70797243)
         == 0x2_c88c7784_9d64ae91_47ddeb88_e69c83fc
    ensures Absorb(0x2_c88c7784_9d64ae91_47ddeb88_e69c83fc, 0x806d540_0e52447c_036d5554_08bed685,
                   0x1_6f724720_68637261_65736552_206d7572)
         == 0x2_d8adaf23_b0337fa7_cccfb4ea_344b30de
    ensures Absorb(0x2_d8adaf23_b0337fa7_cccfb4ea_344b30de, 0x806d540_0e52447c_036d5554_08bed685, 0x17075)
         == 0x2_8d31b7ca_ff946c77_c8844335_369d03a7
  {}

  lemma ExampleTag()
    ensures StandardTag(R() + S(), Block1() + Block2() + Block3()) == LE(ExpectedTag())
  {
    hide Digest, Absorb, BlockNumber, Polynomial, LE, Clamped, Pow2, R, S, Block1, Block2, Block3, ExpectedTag;
    var r := 0x806d540_0e52447c_036d5554_08bed685;
    var m := Block1() + Block2() + Block3();
    ClampedValue(R() + S());
    SValue();
    assert (R() + S())[16..] == S();
    Number1();
    Number2();
    Number3();
    Absorbed();
    DigestBlock(0, r, Block1(), false);
    DigestAppend(0, r, Block1(), Block2(), false);
    DigestBlock(0x2_c88c7784_9d64ae91_47ddeb88_e69c83fc, r, Block2(), false);
    DigestAppend(0, r, Block1() + Block2(), Block3(), false);
    DigestBlock(0x2_d8adaf23_b0337fa7_cccfb4ea_344b30de, r, Block3(), false);
    DigestTag(R() + S(), m);
    Pow2At128();
    TagBytesValue();
  }
}
