/** The hash at the values published with it. */
module JenkinsValues {
  import opened JenkinsHash

  lemma MixLineAt(x: bv32, y: bv32, z: bv32, rot: bv32 -> bv32, r: bv32, x': bv32, z': bv32)
    requires rot(z) == r && x' == Xor(Sub(x, z), r) && z' == Add(z, y)
    ensures MixLine(x, y, z, rot) == (x', z')
  {
  }

  lemma FinalLineAt(x: bv32, y: bv32, rot: bv32 -> bv32, r: bv32, x': bv32)
    requires rot(y) == r && x' == Sub(Xor(x, y), r)
    ensures FinalLine(x, y, rot) == x'
  {
  }

  lemma Rot4(x: bv32)
    ensures Rot(4)(x) == (x << 4) ^ (x >> 28)
  {
  }

  lemma Rot6(x: bv32)
    ensures Rot(6)(x) == (x << 6) ^ (x >> 26)
  {
  }

  lemma Rot8(x: bv32)
    ensures Rot(8)(x) == (x << 8) ^ (x >> 24)
  {
  }

  lemma Rot11(x: bv32)
    ensures Rot(11)(x) == (x << 11) ^ (x >> 21)
  {
  }

  lemma Rot14(x: bv32)
    ensures Rot(14)(x) == (x << 14) ^ (x >> 18)
  {
  }

  lemma Rot16(x: bv32)
    ensures Rot(16)(x) == (x << 16) ^ (x >> 16)
  {
  }

  lemma Rot19(x: bv32)
    ensures Rot(19)(x) == (x << 19) ^ (x >> 13)
  {
  }

  lemma Rot24(x: bv32)
    ensures Rot(24)(x) == (x << 24) ^ (x >> 8)
  {
  }

  lemma Rot25(x: bv32)
    ensures Rot(25)(x) == (x << 25) ^ (x >> 7)
  {
  }

  lemma AbsorbThree(s: State, u: Block, v: Block, w: Block)
    ensures Absorb(s, [u, v, w]) == AddBlock(Mix(AddBlock(Mix(AddBlock(s, u)), v)), w)
  {
    hide Mix, AddBlock;
    assert [u] + [v, w] == [u, v, w] && [v] + [w] == [v, w];
    AbsorbCons(s, u, [v, w]);
    AbsorbCons(Mix(AddBlock(s, u)), v, [w]);
  }

  /** The bytes of "Four score and seven years ago". */
  const SPEECH: seq<bv8> := SPEECH1 + (SPEECH2 + SPEECH3)
  const SPEECH1: seq<bv8> := [0x46, 0x6f, 0x75, 0x72, 0x20, 0x73, 0x63, 0x6f, 0x72, 0x65, 0x20, 0x61]
  const SPEECH2: seq<bv8> := [0x6e, 0x64, 0x20, 0x73, 0x65, 0x76, 0x65, 0x6e, 0x20, 0x79, 0x65, 0x61]
  const SPEECH3: seq<bv8> := [0x72, 0x73, 0x20, 0x61, 0x67, 0x6f]

  const BLOCK1 := Block(0x72756f46, 0x6f637320, 0x61206572)
  const BLOCK2 := Block(0x7320646e, 0x6e657665, 0x61657920)
  const BLOCK3 := Block(0x61207372, 0x00006f67, 0x00000000)

  lemma WordIs(b0: bv8, b1: bv8, b2: bv8, b3: bv8, w: bv32)
    requires w == (b3 as bv32 << 24) | (b2 as bv32 << 16) | (b1 as bv32 << 8) | (b0 as bv32)
    ensures Word(b0, b1, b2, b3) == w
  {
  }

  lemma SpeechBlock1(rest: seq<bv8>)
    ensures FirstBlock(SPEECH1 + rest) == BLOCK1
  {
    hide Word;
    WordIs(0x46, 0x6f, 0x75, 0x72, 0x72756f46);
    WordIs(0x20, 0x73, 0x63, 0x6f, 0x6f637320);
    WordIs(0x72, 0x65, 0x20, 0x61, 0x61206572);
  }

  lemma SpeechBlock2(rest: seq<bv8>)
    ensures FirstBlock(SPEECH2 + rest) == BLOCK2
  {
    hide Word;
    WordIs(0x6e, 0x64, 0x20, 0x73, 0x7320646e);
    WordIs(0x65, 0x76, 0x65, 0x6e, 0x6e657665);
    WordIs(0x20, 0x79, 0x65, 0x61, 0x61657920);
  }

  lemma SpeechBlock3()
    ensures FirstBlock(SPEECH3) == BLOCK3
  {
    hide Word;
    WordIs(0x72, 0x73, 0x20, 0x61, 0x61207372);
    WordIs(0x67, 0x6f, 0x00, 0x00, 0x00006f67);
    WordIs(0x00, 0x00, 0x00, 0x00, 0x00000000);
  }

  lemma SpeechBlocks()
    ensures Blocks(SPEECH) == [BLOCK1, BLOCK2, BLOCK3]
  {
    hide FirstBlock;
    SpeechBlock1(SPEECH2 + SPEECH3);
    SpeechBlock2(SPEECH3);
    SpeechBlock3();
    assert SPEECH[12..] == SPEECH2 + SPEECH3 && (SPEECH2 + SPEECH3)[12..] == SPEECH3;
    assert Blocks(SPEECH3) == [BLOCK3];
    assert Blocks(SPEECH2 + SPEECH3) == [BLOCK2] + Blocks(SPEECH3);
  }

  lemma FirstMix0()
    ensures Mix(State(0x51232e53, 0x4e11322d, 0x3fce247f)) == State(0xf859ad7a, 0x04bc57ae, 0x40dddd7e)
  {
    hide MixLine, Rot;
    Rot4(0x3fce247f);
    MixLineAt(0x51232e53, 0x4e11322d, 0x3fce247f, Rot(4), 0xfce247f3, 0xedb74e27, 0x8ddf56ac);
    Rot6(0xedb74e27);
    MixLineAt(0x4e11322d, 0x8ddf56ac, 0xedb74e27, Rot(6), 0x6dd389fb, 0x0d8a6dfd, 0x7b96a4d3);
    Rot8(0x0d8a6dfd);
    MixLineAt(0x8ddf56ac, 0x7b96a4d3, 0x0d8a6dfd, Rot(8), 0x8a6dfd0d, 0x0a3915a2, 0x892112d0);
    Rot16(0x0a3915a2);
    MixLineAt(0x7b96a4d3, 0x892112d0, 0x0a3915a2, Rot(16), 0x15a20a39, 0x64ff8508, 0x935a2872);
    Rot19(0x64ff8508);
    MixLineAt(0x892112d0, 0x935a2872, 0x64ff8508, Rot(19), 0x284327fc, 0x0c62aa34, 0xf859ad7a);
    Rot4(0x0c62aa34);
    MixLineAt(0x935a2872, 0xf859ad7a, 0x0c62aa34, Rot(4), 0xc62aa340, 0x40dddd7e, 0x04bc57ae);
  }

  lemma SecondMix0()
    ensures Mix(State(0x6b7a11e8, 0x7321ce13, 0xa243569e)) == State(0x336aded2, 0x059f2642, 0xbd02ebd5)
  {
    hide MixLine, Rot;
    Rot4(0xa243569e);
    MixLineAt(0x6b7a11e8, 0x7321ce13, 0xa243569e, Rot(4), 0x243569ea, 0xed03d2a0, 0x156524b1);
    Rot6(0xed03d2a0);
    MixLineAt(0x7321ce13, 0x156524b1, 0xed03d2a0, Rot(6), 0x40f4a83b, 0xc6e95348, 0x0268f751);
    Rot8(0xc6e95348);
    MixLineAt(0x156524b1, 0x0268f751, 0xc6e95348, Rot(8), 0xe95348c6, 0xa72899af, 0xc9524a99);
    Rot16(0xa72899af);
    MixLineAt(0x0268f751, 0xc9524a99, 0xa72899af, Rot(16), 0x99afa728, 0xc2effa8a, 0x707ae448);
    Rot19(0xc2effa8a);
    MixLineAt(0xc9524a99, 0x707ae448, 0xc2effa8a, Rot(19), 0xd456177f, 0xd2344770, 0x336aded2);
    Rot4(0xd2344770);
    MixLineAt(0x707ae448, 0x336aded2, 0xd2344770, Rot(4), 0x2344770d, 0xbd02ebd5, 0x059f2642);
  }

  lemma LastFinal0()
    ensures Final(State(0x948b5244, 0x059f95a9, 0xbd02ebd5)) == State(0x9a837816, 0xce7226e6, 0x17770551)
  {
    hide FinalLine, Rot;
    Rot14(0x059f95a9);
    FinalLineAt(0xbd02ebd5, 0x059f95a9, Rot(14), 0xe56a4167, 0xd3333d15);
    Rot11(0xd3333d15);
    FinalLineAt(0x948b5244, 0xd3333d15, Rot(11), 0x99e8ae99, 0xadcfc0b8);
    Rot25(0xadcfc0b8);
    FinalLineAt(0x059f95a9, 0xadcfc0b8, Rot(25), 0x715b9f81, 0x36f4b590);
    Rot16(0x36f4b590);
    FinalLineAt(0xd3333d15, 0x36f4b590, Rot(16), 0xb59036f4, 0x30375191);
    Rot4(0x30375191);
    FinalLineAt(0xadcfc0b8, 0x30375191, Rot(4), 0x03751913, 0x9a837816);
    Rot14(0x9a837816);
    FinalLineAt(0x36f4b590, 0x9a837816, Rot(14), 0xde05a6a0, 0xce7226e6);
    Rot24(0xce7226e6);
    FinalLineAt(0x30375191, 0xce7226e6, Rot(24), 0xe6ce7226, 0x17770551);
  }

  lemma Absorbed0()
    ensures Absorb(State(0xdeadbf0d, 0xdeadbf0d, 0xdeadbf0d), [BLOCK1, BLOCK2, BLOCK3]) == State(0x948b5244, 0x059f95a9, 0xbd02ebd5)
  {
    hide Mix, Absorb;
    AbsorbThree(State(0xdeadbf0d, 0xdeadbf0d, 0xdeadbf0d), BLOCK1, BLOCK2, BLOCK3);
    FirstMix0();
    SecondMix0();
  }

  lemma FirstMix1()
    ensures Mix(State(0x51232e54, 0x4e11322e, 0x3fce2480)) == State(0x9fb9ade6, 0x89211ba9, 0x3ffff143)
  {
    hide MixLine, Rot;
    Rot4(0x3fce2480);
    MixLineAt(0x51232e54, 0x4e11322e, 0x3fce2480, Rot(4), 0xfce24803, 0xedb741d7, 0x8ddf56ae);
    Rot6(0xedb741d7);
    MixLineAt(0x4e11322e, 0x8ddf56ae, 0xedb741d7, Rot(6), 0x6dd075fb, 0x0d8985ac, 0x7b969885);
    Rot8(0x0d8985ac);
    MixLineAt(0x8ddf56ae, 0x7b969885, 0x0d8985ac, Rot(8), 0x8985ac0d, 0x09d07d0f, 0x89201e31);
    Rot16(0x09d07d0f);
    MixLineAt(0x7b969885, 0x89201e31, 0x09d07d0f, Rot(16), 0x7d0f09d0, 0x0cc912a6, 0x92f09b40);
    Rot19(0x0cc912a6);
    MixLineAt(0x89201e31, 0x92f09b40, 0x0cc912a6, Rot(19), 0x95306648, 0xe9676dc3, 0x9fb9ade6);
    Rot4(0xe9676dc3);
    MixLineAt(0x92f09b40, 0x9fb9ade6, 0xe9676dc3, Rot(4), 0x9676dc3e, 0x3ffff143, 0x89211ba9);
  }

  lemma SecondMix1()
    ensures Mix(State(0x12da1254, 0xf786920e, 0xa1656a63)) == State(0xd68042ad, 0x488e0a5d, 0xab16e7b2)
  {
    hide MixLine, Rot;
    Rot4(0xa1656a63);
    MixLineAt(0x12da1254, 0xf786920e, 0xa1656a63, Rot(4), 0x1656a63a, 0x672201cb, 0x98ebfc71);
    Rot6(0x672201cb);
    MixLineAt(0xf786920e, 0x98ebfc71, 0x672201cb, Rot(6), 0xc88072d9, 0x58e4e29a, 0x000dfe3c);
    Rot8(0x58e4e29a);
    MixLineAt(0x98ebfc71, 0x000dfe3c, 0x58e4e29a, Rot(8), 0xe4e29a58, 0xa4e5838f, 0x58f2e0d6);
    Rot16(0xa4e5838f);
    MixLineAt(0x000dfe3c, 0x58f2e0d6, 0xa4e5838f, Rot(16), 0x838fa4e5, 0xd8a7de48, 0xfdd86465);
    Rot19(0xd8a7de48);
    MixLineAt(0x58f2e0d6, 0xfdd86465, 0xd8a7de48, Rot(19), 0xf246c53e, 0x720dc7b0, 0xd68042ad);
    Rot4(0x720dc7b0);
    MixLineAt(0xfdd86465, 0xd68042ad, 0x720dc7b0, Rot(4), 0x20dc7b07, 0xab16e7b2, 0x488e0a5d);
  }

  lemma LastFinal1()
    ensures Final(State(0x37a0b61f, 0x488e79c4, 0xab16e7b2)) == State(0x1336f927, 0x6cbea4b3, 0xcd628161)
  {
    hide FinalLine, Rot;
    Rot14(0x488e79c4);
    FinalLineAt(0xab16e7b2, 0x488e79c4, Rot(14), 0x9e711223, 0x45278c53);
    Rot11(0x45278c53);
    FinalLineAt(0x37a0b61f, 0x45278c53, Rot(11), 0x3c629a29, 0x3624a023);
    Rot25(0x3624a023);
    FinalLineAt(0x488e79c4, 0x3624a023, Rot(25), 0x466c4940, 0x383e90a7);
    Rot16(0x383e90a7);
    FinalLineAt(0x45278c53, 0x383e90a7, Rot(16), 0x90a7383e, 0xec71e4b6);
    Rot4(0xec71e4b6);
    FinalLineAt(0x3624a023, 0xec71e4b6, Rot(4), 0xc71e4b6e, 0x1336f927);
    Rot14(0x1336f927);
    FinalLineAt(0x383e90a7, 0x1336f927, Rot(14), 0xbe49c4cd, 0x6cbea4b3);
    Rot24(0x6cbea4b3);
    FinalLineAt(0xec71e4b6, 0x6cbea4b3, Rot(24), 0xb36cbea4, 0xcd628161);
  }

  lemma Absorbed1()
    ensures Absorb(State(0xdeadbf0e, 0xdeadbf0e, 0xdeadbf0e), [BLOCK1, BLOCK2, BLOCK3]) == State(0x37a0b61f, 0x488e79c4, 0xab16e7b2)
  {
    hide Mix, Absorb;
    AbsorbThree(State(0xdeadbf0e, 0xdeadbf0e, 0xdeadbf0e), BLOCK1, BLOCK2, BLOCK3);
    FirstMix1();
    SecondMix1();
  }

  lemma SpeechLength()
    ensures SPEECH != [] && |SPEECH| == 30
  {
  }

  lemma Low32Of30()
    ensures Low32(30) == 30
  {
    assert 30 % 0x1_0000_0000 == 30;
    Cast(30 % 0x1_0000_0000);
  }

  lemma Cast(n: nat)
    requires n == 30
    ensures n as bv32 == 30
  {
  }

  lemma InitialState0()
    ensures InitState(30, 0) == State(0xdeadbf0d, 0xdeadbf0d, 0xdeadbf0d)
  {
    hide Low32;
    Low32Of30();
  }

  lemma InitialState1()
    ensures InitState(30, 1) == State(0xdeadbf0e, 0xdeadbf0e, 0xdeadbf0e)
  {
    hide Low32;
    Low32Of30();
  }

  lemma PublishedForSeed0()
    ensures HashOf(SPEECH, 0) == 0x17770551
  {
    hide Mix, Final, Absorb, Blocks, InitState;
    SpeechLength();
    InitialState0();
    SpeechBlocks();
    Absorbed0();
    LastFinal0();
  }

  lemma PublishedForSeed1()
    ensures HashOf(SPEECH, 1) == 0xcd628161
  {
    hide Mix, Final, Absorb, Blocks, InitState;
    SpeechLength();
    InitialState1();
    SpeechBlocks();
    Absorbed1();
    LastFinal1();
  }

  /** The values that the author of the hash publishes for this text and the seeds 0 and 1. */
  lemma PublishedValues()
    ensures HashOf(SPEECH, 0) == 0x17770551
    ensures HashOf(SPEECH, 1) == 0xcd628161
  {
    hide HashOf;
    PublishedForSeed0();
    PublishedForSeed1();
  }

  /** The empty key is not mixed at all. */
  lemma EmptyKey(initval: bv32)
    ensures HashOf([], initval) == 0xdeadbeef + initval
  {
    calc { HashOf([], initval); InitState(0, initval).c; 0xdeadbeef + (0 as bv32) + initval; 0xdeadbeef + initval; }
  }
}
