// The block of section 2.3.2 of RFC 7539, one double round at a time.
module ChaCha20Vector {
  import opened Words
  import opened ChaCha20

  // The key 00 01 .. 1f, the counter 1 and the nonce 00 00 00 09 00 00 00 4a 00 00 00 00.
  function Key(): (k: seq<byte>)
    ensures |k| == 32
  {
    [0, 1, 2, 3, 4, 5, 6, 7, 8, 9, 10, 11, 12, 13, 14, 15,
     16, 17, 18, 19, 20, 21, 22, 23, 24, 25, 26, 27, 28, 29, 30, 31]
  }

  function Nonce(): (n: seq<byte>)
    ensures |n| == 12
  {
    [0, 0, 0, 9, 0, 0, 0, 0x4a, 0, 0, 0, 0]
  }

  // The state at the start and after each double round.

  function After0(): Columns {
    Columns(Quad(0x61707865, 0x03020100, 0x13121110, 0x00000001), Quad(0x3320646e, 0x07060504, 0x17161514, 0x09000000),
            Quad(0x79622d32, 0x0b0a0908, 0x1b1a1918, 0x4a000000), Quad(0x6b206574, 0x0f0e0d0c, 0x1f1e1d1c, 0x00000000))
  }

  function After1(): Columns {
    Columns(Quad(0xcd52e917, 0xc4b7cd22, 0x7bf7d740, 0x6b0d58a3), Quad(0x85ab03b4, 0x5c2e187a, 0x7eddd644, 0x6798471a),
            Quad(0xb3457395, 0xc95eb461, 0xf1a1bdf5, 0xd737f167), Quad(0xf96de7dd, 0x316c801a, 0x761246ca, 0xf173888d))
  }

  function After2(): Columns {
    Columns(Quad(0xcf1a7584, 0x901d2f40, 0x2dafb216, 0x10aef18d), Quad(0x048927ec, 0x7974b81c, 0x27c89cd6, 0x16218765),
            Quad(0x54051fda, 0x378dcfb4, 0xcd3c9aa0, 0x68f76705), Quad(0xc244ff28, 0xcd47fd0e, 0x79fc89c7, 0x04d6ee22))
  }

  function After3(): Columns {
    Columns(Quad(0x03a14032, 0xa7143ae0, 0xc90c6b18, 0xba35d777), Quad(0x66b15927, 0xa09b33dd, 0x5a202413, 0xb360f1bf),
            Quad(0x9d6b6b42, 0xa5daaf88, 0xc20e01b6, 0x8178315b), Quad(0xb84c4109, 0x2fd91a73, 0x72cd6b74, 0x2cd11b1a))
  }

  function After4(): Columns {
    Columns(Quad(0x9a2d3589, 0x0a1bffc6, 0xe46c6354, 0x2687d476), Quad(0x0b23fc4e, 0x5e5993f7, 0xc9503229, 0x54e65231),
            Quad(0x40af3b6b, 0x9904c2e7, 0x04fef5aa, 0x3594ffc5), Quad(0xceea8144, 0x0d334718, 0xf8933f72, 0x2b3bb2ca))
  }

  function After5(): Columns {
    Columns(Quad(0xc53318c5, 0x26d7cf73, 0xae2ca8db, 0x9e5ec228), Quad(0xca325d96, 0x6088d379, 0x42f67c72, 0x7d85a9f3),
            Quad(0x7e7d11cb, 0xc0f0e9bd, 0x71669aca, 0x201d0756), Quad(0x3404e2ca, 0xe310cdb9, 0x975c171d, 0x63fa6953))
  }

  function After6(): Columns {
    Columns(Quad(0x04a3131a, 0x36cc86c7, 0x07d13aca, 0x33b6686d), Quad(0x66176309, 0xbf8a4465, 0xeb0be9af, 0x795cc671),
            Quad(0x0415bab1, 0xf77dd720, 0x61599491, 0xc0049972), Quad(0x61b880a2, 0xfc0bdc90, 0x918512dc, 0xa0a81bde))
  }

  function After7(): Columns {
    Columns(Quad(0x9b70f51f, 0x93b08686, 0xd839165e, 0xa609f555), Quad(0x7ea8ac11, 0x6a4c50ae, 0x4c06e28a, 0x2c246549),
            Quad(0x21e54da9, 0x19212a5a, 0xd3fde99e, 0x95151853), Quad(0xca393b2f, 0x9b032958, 0x26acc13d, 0x2c847a0d))
  }

  function After8(): Columns {
    Columns(Quad(0xca5c85dd, 0x982563f8, 0x1c25931a, 0xa9b751fb), Quad(0x93a4f90e, 0x712aa9ff, 0x5180bb10, 0x382f3ce2),
            Quad(0xd9f0df58, 0x279a61e8, 0x779c27e7, 0x8db1757d), Quad(0x26dd82dd, 0x970f72bd, 0x54077e08, 0xcc38080b))
  }

  function After9(): Columns {
    Columns(Quad(0xb6b87de6, 0xdc33c122, 0x28c1fcb3, 0x21078b22), Quad(0x9a016148, 0x98e18fa3, 0xc4b38f9d, 0xb193e7a3),
            Quad(0x93859815, 0x5ffbe8fc, 0x83e2f5d7, 0xb2f49389), Quad(0x4915e6cc, 0xf7154b8b, 0x7d24b98b, 0x6cde6026))
  }

  function After10(): Columns {
    Columns(Quad(0x837778ab, 0xc4f2d0c7, 0x335271c2, 0xd19c12b4), Quad(0xe238d763, 0xfc62bb2f, 0xf29489f3, 0xb04e16de),
            Quad(0xa67ae21e, 0x8fa018fc, 0xeabda8fc, 0x9e83d0cb), Quad(0x5950bb2f, 0x3f5ec7b7, 0x82e46ebd, 0x4e3c50a2))
  }

  lemma Round1()
    ensures Double(After0()) == After1()
  {}

  lemma Round2()
    ensures Double(After1()) == After2()
  {}

  lemma Round3()
    ensures Double(After2()) == After3()
  {}

  lemma Round4()
    ensures Double(After3()) == After4()
  {}

  lemma Round5()
    ensures Double(After4()) == After5()
  {}

  lemma Round6()
    ensures Double(After5()) == After6()
  {}

  lemma Round7()
    ensures Double(After6()) == After7()
  {}

  lemma Round8()
    ensures Double(After7()) == After8()
  {}

  lemma Round9()
    ensures Double(After8()) == After9()
  {}

  lemma Round10()
    ensures Double(After9()) == After10()
  {}

  // Ten double rounds.
  lemma TenRounds()
    ensures Doubled(After0(), 10) == After10()
  {
    hide Double, After0, After1, After2, After3, After4, After5, After6, After7, After8, After9, After10;
    Round1();
    Round2();
    Round3();
    Round4();
    Round5();
    Round6();
    Round7();
    Round8();
    Round9();
    Round10();
  }

  // ---- The start ----

  function Start(): (s: seq<word>)
    ensures |s| == 16
  {
    [0x61707865, 0x3320646e, 0x79622d32, 0x6b206574,
     0x03020100, 0x07060504, 0x0b0a0908, 0x0f0e0d0c,
     0x13121110, 0x17161514, 0x1b1a1918, 0x1f1e1d1c,
     0x00000001, 0x09000000, 0x4a000000, 0x00000000]
  }

  lemma KeyWords()
    ensures LoadWord(Key(), 0) == 0x03020100 && LoadWord(Key(), 4) == 0x07060504
    ensures LoadWord(Key(), 8) == 0x0b0a0908 && LoadWord(Key(), 12) == 0x0f0e0d0c
    ensures LoadWord(Key(), 16) == 0x13121110 && LoadWord(Key(), 20) == 0x17161514
    ensures LoadWord(Key(), 24) == 0x1b1a1918 && LoadWord(Key(), 28) == 0x1f1e1d1c
  {
    hide FourBytes;
    KeyWord0();
    KeyWord1();
    KeyWord2();
    KeyWord3();
    KeyWord4();
    KeyWord5();
    KeyWord6();
    KeyWord7();
  }

  lemma NonceWords()
    ensures LoadWord(Nonce(), 0) == 0x09000000 && LoadWord(Nonce(), 4) == 0x4a000000
    ensures LoadWord(Nonce(), 8) == 0x00000000
  {
    hide FourBytes;
    NonceWord0();
    NonceWord1();
    NonceWord2();
  }

  lemma KeyWord0()
    ensures FourBytes(0, 1, 2, 3) == 0x03020100
  {}

  lemma KeyWord1()
    ensures FourBytes(4, 5, 6, 7) == 0x07060504
  {}

  lemma KeyWord2()
    ensures FourBytes(8, 9, 10, 11) == 0x0b0a0908
  {}

  lemma KeyWord3()
    ensures FourBytes(12, 13, 14, 15) == 0x0f0e0d0c
  {}

  lemma KeyWord4()
    ensures FourBytes(16, 17, 18, 19) == 0x13121110
  {}

  lemma KeyWord5()
    ensures FourBytes(20, 21, 22, 23) == 0x17161514
  {}

  lemma KeyWord6()
    ensures FourBytes(24, 25, 26, 27) == 0x1b1a1918
  {}

  lemma KeyWord7()
    ensures FourBytes(28, 29, 30, 31) == 0x1f1e1d1c
  {}

  lemma NonceWord0()
    ensures FourBytes(0, 0, 0, 9) == 0x09000000
  {}

  lemma NonceWord1()
    ensures FourBytes(0, 0, 0, 74) == 0x4a000000
  {}

  lemma NonceWord2()
    ensures FourBytes(0, 0, 0, 0) == 0x00000000
  {}

  lemma StartState()
    ensures InitialState(Key(), 1, Nonce()) == Start() && ToColumns(Start()) == After0()
  {
    hide LoadWord, Key, Nonce;
    KeyWords();
    NonceWords();
  }

  // ---- The block that the standard lists ----

  function Expected(): (s: seq<word>)
    ensures |s| == 16
  {
    [0xe4e7f110, 0x15593bd1, 0x1fdd0f50, 0xc47120a3,
     0xc7f4d1c7, 0x0368c033, 0x9aaa2204, 0x4e6cd4c3,
     0x466482d2, 0x09aa9f07, 0x05d7c214, 0xa2028bd9,
     0xd19c12b5, 0xb94e16de, 0xe883d0cb, 0x4e3c50a2]
  }

  lemma ExampleBlock()
    ensures Block(InitialState(Key(), 1, Nonce())) == Expected()
  {
    hide DoubleRounds, Doubled, InitialState, Key, Nonce, Plus;
    StartState();
    TenRounds();
    RoundsByColumns(Start(), 10);
    Sums();
  }

  lemma Sums()
    ensures Plus(0x837778ab, 0x61707865) == 0xe4e7f110
    ensures Plus(0xe238d763, 0x3320646e) == 0x15593bd1
    ensures Plus(0xa67ae21e, 0x79622d32) == 0x1fdd0f50
    ensures Plus(0x5950bb2f, 0x6b206574) == 0xc47120a3
    ensures Plus(0xc4f2d0c7, 0x03020100) == 0xc7f4d1c7
    ensures Plus(0xfc62bb2f, 0x07060504) == 0x0368c033
    ensures Plus(0x8fa018fc, 0x0b0a0908) == 0x9aaa2204
    ensures Plus(0x3f5ec7b7, 0x0f0e0d0c) == 0x4e6cd4c3
    ensures Plus(0x335271c2, 0x13121110) == 0x466482d2
    ensures Plus(0xf29489f3, 0x17161514) == 0x09aa9f07
    ensures Plus(0xeabda8fc, 0x1b1a1918) == 0x05d7c214
    ensures Plus(0x82e46ebd, 0x1f1e1d1c) == 0xa2028bd9
    ensures Plus(0xd19c12b4, 0x00000001) == 0xd19c12b5
    ensures Plus(0xb04e16de, 0x09000000) == 0xb94e16de
    ensures Plus(0x9e83d0cb, 0x4a000000) == 0xe883d0cb
    ensures Plus(0x4e3c50a2, 0x00000000) == 0x4e3c50a2
  {}

  // Its first eight bytes, as they are combined with the data.
  lemma ExampleBytes()
    ensures KeyStream(Key(), 1, Nonce(), 0) == 0x10 && KeyStream(Key(), 1, Nonce(), 1) == 0xf1
    ensures KeyStream(Key(), 1, Nonce(), 2) == 0xe7 && KeyStream(Key(), 1, Nonce(), 3) == 0xe4
    ensures KeyStream(Key(), 1, Nonce(), 4) == 0xd1 && KeyStream(Key(), 1, Nonce(), 5) == 0x3b
    ensures KeyStream(Key(), 1, Nonce(), 6) == 0x59 && KeyStream(Key(), 1, Nonce(), 7) == 0x15
  {
    hide Block, InitialState, Key, Nonce, WordByte;
    ExampleBlock();
    WordBytes0();
    WordBytes1();
    assert (1 + 0 / 64) % WORD == 1;
  }

  lemma WordBytes0()
    ensures WordByte(0xe4e7f110, 0) == 0x10 && WordByte(0xe4e7f110, 1) == 0xf1
    ensures WordByte(0xe4e7f110, 2) == 0xe7 && WordByte(0xe4e7f110, 3) == 0xe4
  {}

  lemma WordBytes1()
    ensures WordByte(0x15593bd1, 0) == 0xd1 && WordByte(0x15593bd1, 1) == 0x3b
    ensures WordByte(0x15593bd1, 2) == 0x59 && WordByte(0x15593bd1, 3) == 0x15
  {}
}
