/** Known inputs and their hashes, computed step by step. */
module XxHashKnown {
  import opened Bytes
  import opened Format
  import opened XxHash
  import opened XxHashLaws

  // ---------------------------------------------------------------- words without recursion

  lemma PowersOfTwo()
    ensures Pow2(1) == 0x2 && Pow2(7) == 0x80 && Pow2(11) == 0x800 && Pow2(12) == 0x1000
    ensures Pow2(13) == 0x2000 && Pow2(14) == 0x4000 && Pow2(15) == 0x8000 && Pow2(16) == 0x10000
    ensures Pow2(17) == 0x20000 && Pow2(18) == 0x40000 && Pow2(19) == 0x80000 && Pow2(20) == 0x100000
    ensures Pow2(21) == 0x200000 && Pow2(23) == 0x800000 && Pow2(25) == 0x2000000 && Pow2(27) == 0x8000000
    ensures Pow2(29) == 0x20000000 && Pow2(31) == 0x80000000 && Pow2(32) == 0x100000000 && Pow2(33) == 0x200000000
    ensures Pow2(37) == 0x2000000000 && Pow2(41) == 0x20000000000 && Pow2(46) == 0x400000000000
    ensures Pow2(52) == 0x10000000000000
    ensures Pow2(53) == 0x20000000000000 && Pow2(57) == 0x200000000000000 && Pow2(63) == 0x8000000000000000
  {
    assert Pow2(1) == 2;
    Pow2Add(6, 1);
    assert Pow2(6) == 0x40;
    Pow2Add(4, 7);
    assert Pow2(4) == 0x10;
    assert Pow2(12) == 0x2 * Pow2(11);
    assert Pow2(13) == 0x2 * Pow2(12);
    assert Pow2(14) == 0x2 * Pow2(13);
    assert Pow2(15) == 0x2 * Pow2(14);
    assert Pow2(16) == 0x2 * Pow2(15);
    assert Pow2(17) == 0x2 * Pow2(16);
    assert Pow2(18) == 0x2 * Pow2(17);
    assert Pow2(19) == 0x2 * Pow2(18);
    assert Pow2(20) == 0x2 * Pow2(19);
    assert Pow2(21) == 0x2 * Pow2(20);
    assert Pow2(23) == 0x4 * Pow2(21);
    assert Pow2(25) == 0x4 * Pow2(23);
    assert Pow2(27) == 0x4 * Pow2(25);
    assert Pow2(29) == 0x4 * Pow2(27);
    assert Pow2(31) == 0x4 * Pow2(29);
    assert Pow2(32) == 0x2 * Pow2(31);
    assert Pow2(33) == 0x2 * Pow2(32);
    Pow2Add(4, 33);
    assert Pow2(4) == 0x10;
    Pow2Add(4, 37);
    assert Pow2(4) == 0x10;
    Pow2Add(5, 41);
    assert Pow2(5) == 0x20;
    Pow2Add(6, 46);
    assert Pow2(6) == 0x40;
    assert Pow2(53) == 0x2 * Pow2(52);
    Pow2Add(4, 53);
    assert Pow2(4) == 0x10;
    Pow2Add(6, 57);
    assert Pow2(6) == 0x40;
  }

  function Rest(x: nat, b: nat): nat {
    if x >= b then x - b else x
  }

  function Bit(x: nat, y: nat, b: nat): nat {
    if (x >= b) != (y >= b) then b else 0
  }

  /** Two numbers below 16 combined bit by bit. */
  function Nibble(x: nat, y: nat): nat {
    var a, b := Rest(x, 8), Rest(y, 8);
    var c, d := Rest(a, 4), Rest(b, 4);
    Bit(x, y, 8) + Bit(a, b, 4) + Bit(c, d, 2) + Bit(Rest(c, 2), Rest(d, 2), 1)
  }

  function Up(i: nat, b: nat): nat {
    if i >= b then 1 else 0
  }

  lemma FourBits(x: nat, y: nat, i: nat, j: nat)
    requires i < 16 && j < 16
    ensures Xor(16 * x + i, 16 * y + j) == 16 * Xor(x, y) + Nibble(i, j)
  {
    hide Xor, Up, Rest, Bit;
    var a, b := Rest(i, 8), Rest(j, 8);
    TopBit(i, j, 8);
    var c, d := Rest(a, 4), Rest(b, 4);
    TopBit(a, b, 4);
    var e, f := Rest(c, 2), Rest(d, 2);
    TopBit(c, d, 2);
    var x1, y1 := 2 * x + Up(i, 8), 2 * y + Up(j, 8);
    var x2, y2 := 2 * x1 + Up(a, 4), 2 * y1 + Up(b, 4);
    OneBit(x, y, Up(i, 8), Up(j, 8));
    OneBit(x1, y1, Up(a, 4), Up(b, 4));
    OneBit(x2, y2, Up(c, 2), Up(d, 2));
    OneBit(2 * x2 + Up(c, 2), 2 * y2 + Up(d, 2), e, f);
    assert Bit(e, f, 1) == Apart(e, f) by { BitOne(e, f); }
  }

  function Apart(i: nat, j: nat): nat {
    if i != j then 1 else 0
  }

  lemma BitOne(i: nat, j: nat)
    requires i < 2 && j < 2
    ensures Bit(i, j, 1) == Apart(i, j)
  {
  }

  lemma TopBit(i: nat, j: nat, b: nat)
    requires i < 2 * b && j < 2 * b
    ensures Up(i, b) < 2 && Rest(i, b) < b && i == b * Up(i, b) + Rest(i, b)
    ensures Up(j, b) < 2 && Rest(j, b) < b && j == b * Up(j, b) + Rest(j, b)
    ensures Bit(i, j, b) == b * Apart(Up(i, b), Up(j, b))
  {
  }

  lemma OneBit(x: nat, y: nat, i: nat, j: nat)
    requires i < 2 && j < 2
    ensures Xor(2 * x + i, 2 * y + j) == 2 * Xor(x, y) + Apart(i, j)
  {
    XorHalves(2 * x + i, 2 * y + j);
  }

  /** One byte more, at the low end. */
  lemma Join(x: nat, y: nat, z: nat, i: nat, j: nat, k: nat, l: nat)
    requires Xor(x, y) == z && i < 16 && j < 16 && k < 16 && l < 16
    ensures Xor(256 * x + 16 * i + k, 256 * y + 16 * j + l) == 256 * z + 16 * Nibble(i, j) + Nibble(k, l)
  {
    hide Xor, Nibble;
    FourBits(x, y, i, j);
    FourBits(16 * x + i, 16 * y + j, k, l);
  }

  lemma NothingCombined()
    ensures Xor(0, 0) == 0
  {
  }

  // ---------------------------------------------------------------- words of a byte string

  function Word(a: int, b: int, c: int, d: int): int {
    a + 0x100 * b + 0x1_0000 * c + 0x100_0000 * d
  }

  lemma FourNumber(r: seq<Byte>)
    requires |r| == 4
    ensures Number(r) == Word(r[0], r[1], r[2], r[3])
  {
    NumberSteps(r);
    NumberSteps(r[1..]);
    NumberSteps(r[2..]);
    NumberSteps(r[3..]);
    hide Number;
    assert r[1..][1..] == r[2..] && r[2..][1..] == r[3..];
    NumberNone(r[3..][1..]);
  }

  lemma NumberSteps(r: seq<Byte>)
    requires r != []
    ensures Number(r) == 0x100 * Number(r[1..]) + r[0]
  {
  }

  lemma NumberNone(r: seq<Byte>)
    requires |r| == 0
    ensures Number(r) == 0
  {
  }

  lemma WordAt(s: seq<Byte>, p: nat)
    requires p + 4 <= |s|
    ensures ReadLE(s, p, 4) == Word(s[p], s[p + 1], s[p + 2], s[p + 3])
  {
    hide Number;
    var r := Read(s, p, 4);
    assert r[0] == At(s, p) && r[1] == At(s, p + 1) && r[2] == At(s, p + 2) && r[3] == At(s, p + 3);
    FourNumber(r);
  }

  lemma LongNumber(r: seq<Byte>)
    requires |r| == 8
    ensures Number(r) == 0x1_0000_0000 * Number(r[4..]) + Number(r[..4])
  {
    FourNumber(r[..4]);
    NumberSteps(r);
    NumberSteps(r[1..]);
    NumberSteps(r[2..]);
    NumberSteps(r[3..]);
    hide Number;
    assert r[1..][1..] == r[2..] && r[2..][1..] == r[3..] && r[3..][1..] == r[4..];
  }

  lemma LongAt(s: seq<Byte>, p: nat)
    requires p + 8 <= |s|
    ensures ReadLE(s, p, 8) == 0x1_0000_0000 * ReadLE(s, p + 4, 4) + ReadLE(s, p, 4)
  {
    hide Number;
    var r := Read(s, p, 8);
    LongNumber(r);
    assert r[..4] == Read(s, p, 4);
    assert r[4..] == Read(s, p + 4, 4);
  }

  // ---------------------------------------------------------------- the steps of XXH32, value by value

  lemma Rotl32At(x: UInt32, r: nat, u: nat, v: nat)
    requires r < 32 && u == Pow2(r) && v == Pow2(32 - r)
    ensures v > 0 && Rotl32(x, r) == W32(x * u + x / v)
  {
  }

  lemma Round32At(acc: UInt32, w: UInt32, p: UInt32, x: UInt32, y: UInt32, r: UInt32)
    requires p == W32(w * P32B) && x == W32(acc + p)
    requires y == W32(x * 0x2000 + x / 0x8_0000) && r == W32(y * P32A)
    ensures Round32(acc, w) == r
  {
    PowersOfTwo();
    hide Pow2, Rotl32;
    Rotl32At(x, 13, 0x2000, 0x8_0000);
  }

  lemma Stripe32At(v: Lanes, s: seq<Byte>, p: nat, w1: nat, w2: nat, w3: nat, w4: nat)
    requires p + 16 <= |s| && ReadLE(s, p, 4) == w1 && ReadLE(s, p + 4, 4) == w2
    requires ReadLE(s, p + 8, 4) == w3 && ReadLE(s, p + 12, 4) == w4
    ensures Stripe32(v, s[p..p + 16])
      == Lanes(Round32(v.v1, w1), Round32(v.v2, w2), Round32(v.v3, w3), Round32(v.v4, w4))
  {
    hide Round32, ReadLE, Stripe32;
    StripeReads32(v, s, p);
  }

  lemma Merge32At(v1: UInt32, v2: UInt32, v3: UInt32, v4: UInt32, a: UInt32, b: UInt32, c: UInt32, d: UInt32)
    requires Rotl32(v1, 1) == a && Rotl32(v2, 7) == b && Rotl32(v3, 12) == c && Rotl32(v4, 18) == d
    ensures Merge32(Lanes(v1, v2, v3, v4)) == W32(a + b + c + d)
  {
    hide Rotl32;
    assert W32(v1) == v1 && W32(v2) == v2 && W32(v3) == v3 && W32(v4) == v4;
  }

  lemma Four32At(h: UInt32, s: seq<Byte>, w: UInt32, p: UInt32, x: UInt32, y: UInt32, r: UInt32)
    requires ReadLE(s, 0, 4) == w && p == W32(w * P32C) && x == W32(h + p)
    requires y == W32(x * 0x2_0000 + x / 0x8000) && r == W32(y * P32D)
    ensures Four32(h, s) == r
  {
    PowersOfTwo();
    hide Pow2, Rotl32, ReadLE;
    Rotl32At(x, 17, 0x2_0000, 0x8000);
  }

  lemma One32At(h: UInt32, c: Byte, x: UInt32, y: UInt32, r: UInt32)
    requires x == W32(h + W32(c * P32E))
    requires y == W32(x * 0x800 + x / 0x20_0000) && r == W32(y * P32A)
    ensures One32(h, c) == r
  {
    PowersOfTwo();
    hide Pow2, Rotl32;
    Rotl32At(x, 11, 0x800, 0x20_0000);
  }

  /** The last mixing, with the values it goes through. */
  lemma Avalanche32At(h: UInt32, x: UInt32, a: UInt32, y: UInt32, b: UInt32, z: UInt32)
    requires x == Xor(h, h / 0x8000) && a == W32(x * P32B)
    requires y == Xor(a, a / 0x2000) && b == W32(y * P32C)
    requires z == Xor(b, b / 0x1_0000)
    ensures Avalanche32(h) == z
  {
    PowersOfTwo();
    hide Pow2, Xor;
  }

  lemma EmptyMix32First()
    ensures Xor(0x1656_67b1, 0x2cac) == 0x1656_4b1d
  {
    hide Xor;
    NothingCombined();
    Join(0x0, 0x0, 0x0, 0x1, 0x0, 0x6, 0x0);
    Join(0x16, 0x0, 0x16, 0x5, 0x0, 0x6, 0x0);
    Join(0x1656, 0x0, 0x1656, 0x6, 0x2, 0x7, 0xc);
    Join(0x16_5667, 0x2c, 0x16_564b, 0xb, 0xa, 0x1, 0xc);
  }

  lemma EmptyMix32Second()
    ensures Xor(0x7e00_cc7b, 0x3_f006) == 0x7e03_3c7d
  {
    hide Xor;
    NothingCombined();
    Join(0x0, 0x0, 0x0, 0x7, 0x0, 0xe, 0x0);
    Join(0x7e, 0x0, 0x7e, 0x0, 0x0, 0x0, 0x3);
    Join(0x7e00, 0x3, 0x7e03, 0xc, 0xf, 0xc, 0x0);
    Join(0x7e_00cc, 0x3f0, 0x7e_033c, 0x7, 0x0, 0xb, 0x6);
  }

  lemma EmptyMix32Third()
    ensures Xor(0x2cc_5fc9, 0x2cc) == 0x2cc_5d05
  {
    hide Xor;
    NothingCombined();
    Join(0x0, 0x0, 0x0, 0x0, 0x0, 0x2, 0x0);
    Join(0x2, 0x0, 0x2, 0xc, 0x0, 0xc, 0x0);
    Join(0x2cc, 0x0, 0x2cc, 0x5, 0x0, 0xf, 0x2);
    Join(0x2_cc5f, 0x2, 0x2_cc5d, 0xc, 0xc, 0x9, 0xc);
  }

  lemma EmptyMix32()
    ensures Avalanche32(0x1656_67b1) == 0x2cc_5d05
  {
    hide Xor, Avalanche32;
    EmptyMix32First();
    EmptyMix32Second();
    EmptyMix32Third();
    Avalanche32At(0x1656_67b1, 0x1656_4b1d, 0x7e00_cc7b, 0x7e03_3c7d, 0x2cc_5fc9, 0x2cc_5d05);
  }

  /** XXH32 of nothing. */
  lemma Empty32()
    ensures Hash32(0, []) == 0x02cc_5d05
  {
    hide Avalanche32, Xor;
    EmptyMix32();
    assert Left([], 16) == [];
    assert Finalize32(0x1656_67b1, []) == Avalanche32(0x1656_67b1);
  }

  // ---------------------------------------------------------------- a text

  /** "Nobody inspects the spammish repetition" */
  const Text: seq<Byte> := [
    78, 111, 98, 111, 100, 121, 32, 105, 110, 115, 112, 101, 99, 116, 115, 32, 116, 104, 101, 32, 115,
    112, 97, 109, 109, 105, 115, 104, 32, 114, 101, 112, 101, 116, 105, 116, 105, 111, 110
  ]

  lemma TextWord0()
    ensures ReadLE(Text, 0, 4) == 0x6f62_6f4e
  {
    hide ReadLE;
    WordAt(Text, 0);
  }

  lemma TextWord1()
    ensures ReadLE(Text, 4, 4) == 0x6920_7964
  {
    hide ReadLE;
    WordAt(Text, 4);
  }

  lemma TextWord2()
    ensures ReadLE(Text, 8, 4) == 0x6570_736e
  {
    hide ReadLE;
    WordAt(Text, 8);
  }

  lemma TextWord3()
    ensures ReadLE(Text, 12, 4) == 0x2073_7463
  {
    hide ReadLE;
    WordAt(Text, 12);
  }

  lemma TextWord4()
    ensures ReadLE(Text, 16, 4) == 0x2065_6874
  {
    hide ReadLE;
    WordAt(Text, 16);
  }

  lemma TextWord5()
    ensures ReadLE(Text, 20, 4) == 0x6d61_7073
  {
    hide ReadLE;
    WordAt(Text, 20);
  }

  lemma TextWord6()
    ensures ReadLE(Text, 24, 4) == 0x6873_696d
  {
    hide ReadLE;
    WordAt(Text, 24);
  }

  lemma TextWord7()
    ensures ReadLE(Text, 28, 4) == 0x7065_7220
  {
    hide ReadLE;
    WordAt(Text, 28);
  }

  lemma TextWord8()
    ensures ReadLE(Text, 32, 4) == 0x7469_7465
  {
    hide ReadLE;
    WordAt(Text, 32);
  }

  lemma TextRound0()
    ensures Round32(0x2423_4428, 0x6f62_6f4e) == 0x46a_700a
  {
    hide Round32;
    Round32At(0x2423_4428, 0x6f62_6f4e, 0x252f_4942, 0x4952_8d6a, 0x51ad_492a, 0x46a_700a);
  }

  lemma TextRound1()
    ensures Round32(0x85eb_ca77, 0x6920_7964) == 0xbfad_f8e3
  {
    hide Round32;
    Round32At(0x85eb_ca77, 0x6920_7964, 0xe0ad_557c, 0x6699_1ff3, 0x23fe_6cd3, 0xbfad_f8e3);
  }

  lemma TextRound2()
    ensures Round32(0x0, 0x6570_736e) == 0x5b32_b4aa
  {
    hide Round32;
    Round32At(0x0, 0x6570_736e, 0xfe54_7422, 0xfe54_7422, 0x8e84_5fca, 0x5b32_b4aa);
  }

  lemma TextRound3()
    ensures Round32(0x61c8_864f, 0x2073_7463) == 0x137e_5555
  {
    hide Round32;
    Round32At(0x61c8_864f, 0x2073_7463, 0x7562_3805, 0xd72a_be54, 0x57ca_9ae5, 0x137e_5555);
  }

  lemma TextStripe1()
    ensures Stripe32(Lanes(0x2423_4428, 0x85eb_ca77, 0x0, 0x61c8_864f), Text[0..16])
      == Lanes(0x46a_700a, 0xbfad_f8e3, 0x5b32_b4aa, 0x137e_5555)
  {
    hide Stripe32, Round32, ReadLE;
    TextWord0();
    TextRound0();
    TextWord1();
    TextRound1();
    TextWord2();
    TextRound2();
    TextWord3();
    TextRound3();
    Stripe32At(Lanes(0x2423_4428, 0x85eb_ca77, 0x0, 0x61c8_864f), Text, 0, 0x6f62_6f4e, 0x6920_7964, 0x6570_736e,
        0x2073_7463);
  }

  lemma TextRound4()
    ensures Round32(0x46a_700a, 0x2065_6874) == 0x719a_836e
  {
    hide Round32;
    Round32At(0x46a_700a, 0x2065_6874, 0x3a0b_15ec, 0x3e75_85f6, 0xb0be_c7ce, 0x719a_836e);
  }

  lemma TextRound5()
    ensures Round32(0xbfad_f8e3, 0x6d61_7073) == 0x514c_1de8
  {
    hide Round32;
    Round32At(0xbfad_f8e3, 0x6d61_7073, 0xb397_0375, 0x7344_fc58, 0x9f8b_0e68, 0x514c_1de8);
  }

  lemma TextRound6()
    ensures Round32(0x5b32_b4aa, 0x6873_696d) == 0x97fa_4ba2
  {
    hide Round32;
    Round32At(0x5b32_b4aa, 0x6873_696d, 0x6e5_03ab, 0x6217_b855, 0xf70a_ac42, 0x97fa_4ba2);
  }

  lemma TextRound7()
    ensures Round32(0x137e_5555, 0x7065_7220) == 0x242a_97a2
  {
    hide Round32;
    Round32At(0x137e_5555, 0x7065_7220, 0xae95_4ce0, 0xc213_a235, 0x7446_b842, 0x242a_97a2);
  }

  lemma TextStripe2()
    ensures Stripe32(Lanes(0x46a_700a, 0xbfad_f8e3, 0x5b32_b4aa, 0x137e_5555), Text[16..32])
      == Lanes(0x719a_836e, 0x514c_1de8, 0x97fa_4ba2, 0x242a_97a2)
  {
    hide Stripe32, Round32, ReadLE;
    TextWord4();
    TextRound4();
    TextWord5();
    TextRound5();
    TextWord6();
    TextRound6();
    TextWord7();
    TextRound7();
    Stripe32At(Lanes(0x46a_700a, 0xbfad_f8e3, 0x5b32_b4aa, 0x137e_5555), Text, 16, 0x2065_6874, 0x6d61_7073,
        0x6873_696d, 0x7065_7220);
  }

  lemma TextTurn1()
    ensures Rotl32(0x719a_836e, 1) == 0xe335_06dc
  {
    hide Pow2, Rotl32;
    PowersOfTwo();
    Rotl32At(0x719a_836e, 1, 0x2, 0x8000_0000);
  }

  lemma TextTurn7()
    ensures Rotl32(0x514c_1de8, 7) == 0xa60e_f428
  {
    hide Pow2, Rotl32;
    PowersOfTwo();
    Rotl32At(0x514c_1de8, 7, 0x80, 0x200_0000);
  }

  lemma TextTurn12()
    ensures Rotl32(0x97fa_4ba2, 12) == 0xa4ba_297f
  {
    hide Pow2, Rotl32;
    PowersOfTwo();
    Rotl32At(0x97fa_4ba2, 12, 0x1000, 0x10_0000);
  }

  lemma TextTurn18()
    ensures Rotl32(0x242a_97a2, 18) == 0x5e88_90aa
  {
    hide Pow2, Rotl32;
    PowersOfTwo();
    Rotl32At(0x242a_97a2, 18, 0x4_0000, 0x4000);
  }

  lemma TextMerge32()
    ensures Merge32(Lanes(0x719a_836e, 0x514c_1de8, 0x97fa_4ba2, 0x242a_97a2)) == 0x8c86_b52d
  {
    hide Merge32, Rotl32;
    TextTurn1();
    TextTurn7();
    TextTurn12();
    TextTurn18();
    Merge32At(0x719a_836e, 0x514c_1de8, 0x97fa_4ba2, 0x242a_97a2, 0xe335_06dc, 0xa60e_f428, 0xa4ba_297f, 0x5e88_90aa);
  }

  lemma TextFour32()
    ensures Four32(0x8c86_b554, Text[32..]) == 0x9b5_1544
  {
    hide Four32, ReadLE;
    TextWord8();
    ReadBehind(Text, 32, 4);
    Four32At(0x8c86_b554, Text[32..], 0x7469_7465, 0xe277_6211, 0x6efe_1765, 0x2eca_ddfc, 0x9b5_1544);
  }

  lemma ReadBehind(s: seq<Byte>, p: nat, w: nat)
    requires p + w <= |s|
    ensures ReadLE(s[p..], 0, w) == ReadLE(s, p, w)
  {
    ReadSlice(s, p, |s| - p, 0, w);
    assert s[p..p + (|s| - p)] == s[p..];
  }

  lemma TextOnes32()
    ensures One32(0x9b5_1544, 105) == 0xcdef_d3c9 && One32(0xcdef_d3c9, 111) == 0x3852_087b
    ensures One32(0x3852_087b, 110) == 0xb3a7_011b
  {
    hide One32;
    One32At(0x9b5_1544, 105, 0x3325_9cdd, 0x2ce6_e999, 0xcdef_d3c9);
    One32At(0xcdef_d3c9, 111, 0x7d66_c988, 0x364c_43eb, 0x3852_087b);
    One32At(0x3852_087b, 110, 0xd172_9689, 0x94b4_4e8b, 0xb3a7_011b);
  }

  lemma TextMix32First()
    ensures Xor(0xb3a7_011b, 0x1_674e) == 0xb3a6_6655
  {
    hide Xor;
    NothingCombined();
    Join(0x0, 0x0, 0x0, 0xb, 0x0, 0x3, 0x0);
    Join(0xb3, 0x0, 0xb3, 0xa, 0x0, 0x7, 0x1);
    Join(0xb3a7, 0x1, 0xb3a6, 0x0, 0x6, 0x1, 0x7);
    Join(0xb3_a701, 0x167, 0xb3_a666, 0x1, 0x4, 0xb, 0xe);
  }

  lemma TextMix32Second()
    ensures Xor(0xe81f_a383, 0x7_40fd) == 0xe818_e37e
  {
    hide Xor;
    NothingCombined();
    Join(0x0, 0x0, 0x0, 0xe, 0x0, 0x8, 0x0);
    Join(0xe8, 0x0, 0xe8, 0x1, 0x0, 0xf, 0x7);
    Join(0xe81f, 0x7, 0xe818, 0xa, 0x4, 0x3, 0x0);
    Join(0xe8_1fa3, 0x740, 0xe8_18e3, 0x8, 0xf, 0x3, 0xd);
  }

  lemma TextMix32Third()
    ensures Xor(0xe229_d906, 0xe229) == 0xe229_3b2f
  {
    hide Xor;
    NothingCombined();
    Join(0x0, 0x0, 0x0, 0xe, 0x0, 0x2, 0x0);
    Join(0xe2, 0x0, 0xe2, 0x2, 0x0, 0x9, 0x0);
    Join(0xe229, 0x0, 0xe229, 0xd, 0xe, 0x9, 0x2);
    Join(0xe2_29d9, 0xe2, 0xe2_293b, 0x0, 0x2, 0x6, 0x9);
  }

  lemma TextMix32()
    ensures Avalanche32(0xb3a7_011b) == 0xe229_3b2f
  {
    hide Xor, Avalanche32;
    TextMix32First();
    TextMix32Second();
    TextMix32Third();
    Avalanche32At(0xb3a7_011b, 0xb3a6_6655, 0xe81f_a383, 0xe818_e37e, 0xe229_d906, 0xe229_3b2f);
  }

  lemma TailSteps32(t: seq<Byte>, h0: UInt32, h1: UInt32, h2: UInt32, h3: UInt32, h4: UInt32)
    requires |t| == 7 && Four32(h0, t) == h1
    requires One32(h1, t[4]) == h2 && One32(h2, t[5]) == h3 && One32(h3, t[6]) == h4
    ensures Finalize32(h0, t) == Avalanche32(h4)
  {
    hide Four32, One32, Avalanche32;
    var a := t[4..];
    var b := a[1..];
    var c := b[1..];
    assert a[0] == t[4] && b[0] == t[5] && c[0] == t[6] && c[1..] == [];
    assert Finalize32(h3, c) == Finalize32(h4, []);
    assert Finalize32(h2, b) == Finalize32(h3, c);
    assert Finalize32(h1, a) == Finalize32(h2, b);
    assert Finalize32(h0, t) == Finalize32(h1, a);
  }

  lemma TextTail32()
    ensures Finalize32(0x8c86_b554, Text[32..]) == 0xe229_3b2f
  {
    hide Four32, One32, Avalanche32, Finalize32;
    TextFour32();
    TextOnes32();
    TextMix32();
    TextEnd(Text[32..]);
    TailSteps32(Text[32..], 0x8c86_b554, 0x9b5_1544, 0xcdef_d3c9, 0x3852_087b, 0xb3a7_011b);
  }

  lemma TextEnd(t: seq<Byte>)
    requires t == Text[32..]
    ensures |t| == 7 && t[4] == 105 && t[5] == 111 && t[6] == 110
  {
  }

  /** Two stripes. */
  lemma TwoStripes(f: (Lanes, seq<Byte>) -> Lanes, v: Lanes, s: seq<Byte>, n: nat)
    requires 0 < n && 2 * n <= |s| < 3 * n
    ensures Fold(f, v, s, n) == f(f(v, s[0..n]), s[n..2 * n]) && Left(s, n) == s[2 * n..]
  {
    OneStripe(f, v, s, n);
    OneStripe(f, f(v, s[..n]), s[n..], n);
    LeftShort(s[2 * n..], n);
    assert s[n..][..n] == s[n..2 * n] && s[n..][n..] == s[2 * n..] && s[0..n] == s[..n];
  }

  lemma OneStripe(f: (Lanes, seq<Byte>) -> Lanes, v: Lanes, s: seq<Byte>, n: nat)
    requires 0 < n <= |s|
    ensures Fold(f, v, s, n) == Fold(f, f(v, s[..n]), s[n..], n) && Left(s, n) == Left(s[n..], n)
  {
  }

  lemma TextBegin32()
    ensures Begin32(0) == Lanes(0x2423_4428, 0x85eb_ca77, 0x0, 0x61c8_864f) && |Text| == 39
  {
  }

  /** XXH32 of the text. */
  lemma Text32()
    ensures Hash32(0, Text) == 0xe229_3b2f
  {
    hide Stripe32, Merge32, Finalize32, Fold, Left, Begin32;
    TextBegin32();
    TextStripe1();
    TextStripe2();
    TextMerge32();
    TextTail32();
    TwoStripes(Stripe32, Begin32(0), Text, 16);
  }

  // ---------------------------------------------------------------- the steps of XXH64, value by value

  lemma Rotl64At(x: UInt64, r: nat, u: nat, v: nat)
    requires r < 64 && u == Pow2(r) && v == Pow2(64 - r)
    ensures v > 0 && Rotl64(x, r) == W64(x * u + x / v)
  {
  }

  lemma Round64At(acc: UInt64, w: UInt64, p: UInt64, x: UInt64, y: UInt64, r: UInt64)
    requires p == W64(w * P64B) && x == W64(acc + p)
    requires y == W64(x * 0x8000_0000 + x / 0x2_0000_0000) && r == W64(y * P64A)
    ensures Round64(acc, w) == r
  {
    PowersOfTwo();
    hide Pow2, Rotl64;
    Rotl64At(x, 31, 0x8000_0000, 0x2_0000_0000);
  }

  lemma Stripe64At(v: Lanes, s: seq<Byte>, p: nat, w1: nat, w2: nat, w3: nat, w4: nat)
    requires p + 32 <= |s| && ReadLE(s, p, 8) == w1 && ReadLE(s, p + 8, 8) == w2
    requires ReadLE(s, p + 16, 8) == w3 && ReadLE(s, p + 24, 8) == w4
    ensures Stripe64(v, s[p..p + 32])
      == Lanes(Round64(v.v1, w1), Round64(v.v2, w2), Round64(v.v3, w3), Round64(v.v4, w4))
  {
    hide Round64, ReadLE, Stripe64;
    StripeReads64(v, s, p);
  }

  lemma Sum64At(v: Lanes, a: UInt64, b: UInt64, c: UInt64, d: UInt64)
    requires Words64(v) && a == W64(v.v1 * 0x2 + v.v1 / 0x8000_0000_0000_0000)
    requires b == W64(v.v2 * 0x80 + v.v2 / 0x200_0000_0000_0000)
    requires c == W64(v.v3 * 0x1000 + v.v3 / 0x10_0000_0000_0000) && d == W64(v.v4 * 0x4_0000 + v.v4 / 0x4000_0000_0000)
    ensures Sum64(v) == W64(a + b + c + d)
  {
    PowersOfTwo();
    hide Pow2, Rotl64;
    Rotl64At(v.v1, 1, 0x2, 0x8000_0000_0000_0000);
    Rotl64At(v.v2, 7, 0x80, 0x200_0000_0000_0000);
    Rotl64At(v.v3, 12, 0x1000, 0x10_0000_0000_0000);
    Rotl64At(v.v4, 18, 0x4_0000, 0x4000_0000_0000);
  }

  predicate Words64(v: Lanes) {
    && 0 <= v.v1 < 0x1_0000_0000_0000_0000 && 0 <= v.v2 < 0x1_0000_0000_0000_0000
    && 0 <= v.v3 < 0x1_0000_0000_0000_0000 && 0 <= v.v4 < 0x1_0000_0000_0000_0000
  }

  function Sum64(v: Lanes): UInt64
    requires Words64(v)
  {
    W64(Rotl64(v.v1, 1) + Rotl64(v.v2, 7) + Rotl64(v.v3, 12) + Rotl64(v.v4, 18))
  }

  lemma Merge64At(v: Lanes)
    requires Words64(v)
    ensures Merge64(v) == MergeRound64(MergeRound64(MergeRound64(MergeRound64(Sum64(v), v.v1), v.v2), v.v3), v.v4)
  {
    hide Rotl64, MergeRound64;
    assert W64(v.v1) == v.v1 && W64(v.v2) == v.v2 && W64(v.v3) == v.v3 && W64(v.v4) == v.v4;
  }

  lemma MergeRound64At(h: UInt64, v: UInt64, w: UInt64, x: UInt64, r: UInt64)
    requires Round64(0, v) == w && Xor(h, w) == x && r == W64(x * P64A + P64D)
    ensures MergeRound64(h, v) == r
  {
    hide Round64, Xor;
  }

  lemma Four64At(h: UInt64, s: seq<Byte>, w: UInt32, p: UInt64, x: UInt64, y: UInt64, r: UInt64)
    requires ReadLE(s, 0, 4) == w && p == W64(w * P64A) && x == Xor(h, p)
    requires y == W64(x * 0x80_0000 + x / 0x200_0000_0000) && r == W64(y * P64B + P64C)
    ensures Four64(h, s) == r
  {
    PowersOfTwo();
    hide Pow2, Rotl64, ReadLE, Xor;
    Rotl64At(x, 23, 0x80_0000, 0x200_0000_0000);
  }

  lemma One64At(h: UInt64, c: Byte, p: UInt64, x: UInt64, y: UInt64, r: UInt64)
    requires p == W64(c * P64E) && x == Xor(h, p)
    requires y == W64(x * 0x800 + x / 0x20_0000_0000_0000) && r == W64(y * P64A)
    ensures One64(h, c) == r
  {
    PowersOfTwo();
    hide Pow2, Rotl64, Xor;
    Rotl64At(x, 11, 0x800, 0x20_0000_0000_0000);
  }

  /** The last mixing, with the values it goes through. */
  lemma Avalanche64At(h: UInt64, x: UInt64, a: UInt64, y: UInt64, b: UInt64, z: UInt64)
    requires x == Xor(h, h / 0x2_0000_0000) && a == W64(x * P64B)
    requires y == Xor(a, a / 0x2000_0000) && b == W64(y * P64C)
    requires z == Xor(b, b / 0x1_0000_0000)
    ensures Avalanche64(h) == z
  {
    PowersOfTwo();
    hide Pow2, Xor;
  }

  lemma EmptyMix64First()
    ensures Xor(0x27d4_eb2f_1656_67c5, 0x13ea_7597) == 0x27d4_eb2f_05bc_1252
  {
    hide Xor;
    NothingCombined();
    Join(0x0, 0x0, 0x0, 0x2, 0x0, 0x7, 0x0);
    Join(0x27, 0x0, 0x27, 0xd, 0x0, 0x4, 0x0);
    Join(0x27d4, 0x0, 0x27d4, 0xe, 0x0, 0xb, 0x0);
    Join(0x27_d4eb, 0x0, 0x27_d4eb, 0x2, 0x0, 0xf, 0x0);
    Join(0x27d4_eb2f, 0x0, 0x27d4_eb2f, 0x1, 0x1, 0x6, 0x3);
    Join(0x27_d4eb_2f16, 0x13, 0x27_d4eb_2f05, 0x5, 0xe, 0x6, 0xa);
    Join(0x27d4_eb2f_1656, 0x13ea, 0x27d4_eb2f_05bc, 0x6, 0x7, 0x7, 0x5);
    Join(0x27_d4eb_2f16_5667, 0x13_ea75, 0x27_d4eb_2f05_bc12, 0xc, 0x9, 0x5, 0x7);
  }

  lemma EmptyMix64Second()
    ensures Xor(0xbeb1_3dda_13c2_ed4e, 0x5_f589_eed0) == 0xbeb1_3ddf_e64b_039e
  {
    hide Xor;
    NothingCombined();
    Join(0x0, 0x0, 0x0, 0xb, 0x0, 0xe, 0x0);
    Join(0xbe, 0x0, 0xbe, 0xb, 0x0, 0x1, 0x0);
    Join(0xbeb1, 0x0, 0xbeb1, 0x3, 0x0, 0xd, 0x0);
    Join(0xbe_b13d, 0x0, 0xbe_b13d, 0xd, 0x0, 0xa, 0x5);
    Join(0xbeb1_3dda, 0x5, 0xbeb1_3ddf, 0x1, 0xf, 0x3, 0x5);
    Join(0xbe_b13d_da13, 0x5f5, 0xbe_b13d_dfe6, 0xc, 0x8, 0x2, 0x9);
    Join(0xbeb1_3dda_13c2, 0x5_f589, 0xbeb1_3ddf_e64b, 0xe, 0xe, 0xd, 0xe);
    Join(0xbe_b13d_da13_c2ed, 0x5f5_89ee, 0xbe_b13d_dfe6_4b03, 0x4, 0xd, 0xe, 0x0);
  }

  lemma EmptyMix64Third()
    ensures Xor(0xef46_db37_be9e_32ae, 0xef46_db37) == 0xef46_db37_51d8_e999
  {
    hide Xor;
    NothingCombined();
    Join(0x0, 0x0, 0x0, 0xe, 0x0, 0xf, 0x0);
    Join(0xef, 0x0, 0xef, 0x4, 0x0, 0x6, 0x0);
    Join(0xef46, 0x0, 0xef46, 0xd, 0x0, 0xb, 0x0);
    Join(0xef_46db, 0x0, 0xef_46db, 0x3, 0x0, 0x7, 0x0);
    Join(0xef46_db37, 0x0, 0xef46_db37, 0xb, 0xe, 0xe, 0xf);
    Join(0xef_46db_37be, 0xef, 0xef_46db_3751, 0x9, 0x4, 0xe, 0x6);
    Join(0xef46_db37_be9e, 0xef46, 0xef46_db37_51d8, 0x3, 0xd, 0x2, 0xb);
    Join(0xef_46db_37be_9e32, 0xef_46db, 0xef_46db_3751_d8e9, 0xa, 0x3, 0xe, 0x7);
  }

  lemma EmptyMix64()
    ensures Avalanche64(0x27d4_eb2f_1656_67c5) == 0xef46_db37_51d8_e999
  {
    hide Xor, Avalanche64;
    EmptyMix64First();
    EmptyMix64Second();
    EmptyMix64Third();
    Avalanche64At(0x27d4_eb2f_1656_67c5, 0x27d4_eb2f_05bc_1252, 0xbeb1_3dda_13c2_ed4e, 0xbeb1_3ddf_e64b_039e,
        0xef46_db37_be9e_32ae, 0xef46_db37_51d8_e999);
  }

  /** XXH64 of nothing. */
  lemma Empty64()
    ensures Hash64(0, []) == 0xef46_db37_51d8_e999
  {
    hide Avalanche64, Xor;
    EmptyMix64();
    assert Left([], 32) == [];
    assert Finalize64(0x27d4_eb2f_1656_67c5, []) == Avalanche64(0x27d4_eb2f_1656_67c5);
  }

  lemma TextLong0()
    ensures ReadLE(Text, 0, 8) == 0x6920_7964_6f62_6f4e
    ensures Round64(0x60ea_27ee_adc0_b5d6, 0x6920_7964_6f62_6f4e) == 0x3724_5127_a406_7e4b
  {
    hide ReadLE, Round64;
    TextWord0();
    TextWord1();
    LongAt(Text, 0);
    Round64At(0x60ea_27ee_adc0_b5d6, 0x6920_7964_6f62_6f4e, 0x6f0_6e4c_ca24_f312, 0x67da_963b_77e5_a8e8,
        0xbbf2_d474_33ed_4b1d, 0x3724_5127_a406_7e4b);
  }

  lemma TextLong1()
    ensures ReadLE(Text, 8, 8) == 0x2073_7463_6570_736e
    ensures Round64(0xc2b2_ae3d_27d4_eb4f, 0x2073_7463_6570_736e) == 0x1b30_2b0a_818f_92cf
  {
    hide ReadLE, Round64;
    TextWord2();
    TextWord3();
    LongAt(Text, 8);
    Round64At(0xc2b2_ae3d_27d4_eb4f, 0x2073_7463_6570_736e, 0xbef8_90b5_e0c1_98f2, 0x81ab_3ef3_0896_8441,
        0x844b_4220_c0d5_9f79, 0x1b30_2b0a_818f_92cf);
  }

  lemma TextLong2()
    ensures ReadLE(Text, 16, 8) == 0x6d61_7073_2065_6874 && Round64(0x0, 0x6d61_7073_2065_6874) == 0xcd62_d843_d058_0fca
  {
    hide ReadLE, Round64;
    TextWord4();
    TextWord5();
    LongAt(Text, 16);
    Round64At(0x0, 0x6d61_7073_2065_6874, 0xa62_64cc_423d_b7cc, 0xa62_64cc_423d_b7cc, 0x211e_dbe6_0531_3266,
        0xcd62_d843_d058_0fca);
  }

  lemma TextLong3()
    ensures ReadLE(Text, 24, 8) == 0x7065_7220_6873_696d
    ensures Round64(0x61c8_864e_7a14_3579, 0x7065_7220_6873_696d) == 0x1c16_e43e_f214_2a4a
  {
    hide ReadLE, Round64;
    TextWord6();
    TextWord7();
    LongAt(Text, 24);
    Round64At(0x61c8_864e_7a14_3579, 0x7065_7220_6873_696d, 0x7ec4_417e_16a8_97a3, 0xe08c_c7cc_90bc_cd1c,
        0x485e_668e_7046_63e6, 0x1c16_e43e_f214_2a4a);
  }

  lemma TextStripe64()
    ensures Stripe64(Lanes(0x60ea_27ee_adc0_b5d6, 0xc2b2_ae3d_27d4_eb4f, 0x0, 0x61c8_864e_7a14_3579), Text[0..32])
      == Lanes(0x3724_5127_a406_7e4b, 0x1b30_2b0a_818f_92cf, 0xcd62_d843_d058_0fca, 0x1c16_e43e_f214_2a4a)
  {
    hide Stripe64, Round64, ReadLE;
    TextLong0();
    TextLong1();
    TextLong2();
    TextLong3();
    Stripe64At(Lanes(0x60ea_27ee_adc0_b5d6, 0xc2b2_ae3d_27d4_eb4f, 0x0, 0x61c8_864e_7a14_3579), Text, 0,
        0x6920_7964_6f62_6f4e, 0x2073_7463_6570_736e, 0x6d61_7073_2065_6874, 0x7065_7220_6873_696d);
  }

  lemma TextSum64()
    ensures Sum64(Lanes(0x3724_5127_a406_7e4b, 0x1b30_2b0a_818f_92cf, 0xcd62_d843_d058_0fca,
        0x1c16_e43e_f214_2a4a)) == 0xc4de_2ce6_39fb_8154
  {
    hide Sum64;
    Sum64At(Lanes(0x3724_5127_a406_7e4b, 0x1b30_2b0a_818f_92cf, 0xcd62_d843_d058_0fca, 0x1c16_e43e_f214_2a4a),
        0x6e48_a24f_480c_fc96, 0x9815_8540_c7c9_678d, 0x2d84_3d05_80fc_acd6, 0x90fb_c850_a928_705b);
  }

  lemma TextMergeXor1()
    ensures Xor(0xc4de_2ce6_39fb_8154, 0x7790_ff1f_7a9a_2803) == 0xb34e_d3f9_4361_a957
  {
    hide Xor;
    NothingCombined();
    Join(0x0, 0x0, 0x0, 0xc, 0x7, 0x4, 0x7);
    Join(0xc4, 0x77, 0xb3, 0xd, 0x9, 0xe, 0x0);
    Join(0xc4de, 0x7790, 0xb34e, 0x2, 0xf, 0xc, 0xf);
    Join(0xc4_de2c, 0x77_90ff, 0xb3_4ed3, 0xe, 0x1, 0x6, 0xf);
    Join(0xc4de_2ce6, 0x7790_ff1f, 0xb34e_d3f9, 0x3, 0x7, 0x9, 0xa);
    Join(0xc4_de2c_e639, 0x77_90ff_1f7a, 0xb3_4ed3_f943, 0xf, 0x9, 0xb, 0xa);
    Join(0xc4de_2ce6_39fb, 0x7790_ff1f_7a9a, 0xb34e_d3f9_4361, 0x8, 0x2, 0x1, 0x8);
    Join(0xc4_de2c_e639_fb81, 0x77_90ff_1f7a_9a28, 0xb3_4ed3_f943_61a9, 0x5, 0x0, 0x4, 0x3);
  }

  lemma TextMergeRound1()
    ensures MergeRound64(0xc4de_2ce6_39fb_8154, 0x3724_5127_a406_7e4b) == 0x30d4_0ddd_00ae_a144
  {
    hide MergeRound64, Round64, Xor;
    Round64At(0x0, 0x3724_5127_a406_7e4b, 0xbf0e_534a_970b_d225, 0xbf0e_534a_970b_d225, 0x4b85_e912_df87_29a5,
        0x7790_ff1f_7a9a_2803);
    TextMergeXor1();
    MergeRound64At(0xc4de_2ce6_39fb_8154, 0x3724_5127_a406_7e4b, 0x7790_ff1f_7a9a_2803, 0xb34e_d3f9_4361_a957,
        0x30d4_0ddd_00ae_a144);
  }

  lemma TextMergeXor2()
    ensures Xor(0x30d4_0ddd_00ae_a144, 0xdece_d6c0_bf71_6b27) == 0xee1a_db1d_bfdf_ca63
  {
    hide Xor;
    NothingCombined();
    Join(0x0, 0x0, 0x0, 0x3, 0xd, 0x0, 0xe);
    Join(0x30, 0xde, 0xee, 0xd, 0xc, 0x4, 0xe);
    Join(0x30d4, 0xdece, 0xee1a, 0x0, 0xd, 0xd, 0x6);
    Join(0x30_d40d, 0xde_ced6, 0xee_1adb, 0xd, 0xc, 0xd, 0x0);
    Join(0x30d4_0ddd, 0xdece_d6c0, 0xee1a_db1d, 0x0, 0xb, 0x0, 0xf);
    Join(0x30_d40d_dd00, 0xde_ced6_c0bf, 0xee_1adb_1dbf, 0xa, 0x7, 0xe, 0x1);
    Join(0x30d4_0ddd_00ae, 0xdece_d6c0_bf71, 0xee1a_db1d_bfdf, 0xa, 0x6, 0x1, 0xb);
    Join(0x30_d40d_dd00_aea1, 0xde_ced6_c0bf_716b, 0xee_1adb_1dbf_dfca, 0x4, 0x2, 0x4, 0x7);
  }

  lemma TextMergeRound2()
    ensures MergeRound64(0x30d4_0ddd_00ae_a144, 0x1b30_2b0a_818f_92cf) == 0xe5a1_f095_bf49_8698
  {
    hide MergeRound64, Round64, Xor;
    Round64At(0x0, 0x1b30_2b0a_818f_92cf, 0x40bc_c4c2_e37e_52e1, 0x40bc_c4c2_e37e_52e1, 0x71bf_2970_a05e_6261,
        0xdece_d6c0_bf71_6b27);
    TextMergeXor2();
    MergeRound64At(0x30d4_0ddd_00ae_a144, 0x1b30_2b0a_818f_92cf, 0xdece_d6c0_bf71_6b27, 0xee1a_db1d_bfdf_ca63,
        0xe5a1_f095_bf49_8698);
  }

  lemma TextMergeXor3()
    ensures Xor(0xe5a1_f095_bf49_8698, 0x7007_3eb8_0575_9bbe) == 0x95a6_ce2d_ba3c_1d26
  {
    hide Xor;
    NothingCombined();
    Join(0x0, 0x0, 0x0, 0xe, 0x7, 0x5, 0x0);
    Join(0xe5, 0x70, 0x95, 0xa, 0x0, 0x1, 0x7);
    Join(0xe5a1, 0x7007, 0x95a6, 0xf, 0x3, 0x0, 0xe);
    Join(0xe5_a1f0, 0x70_073e, 0x95_a6ce, 0x9, 0xb, 0x5, 0x8);
    Join(0xe5a1_f095, 0x7007_3eb8, 0x95a6_ce2d, 0xb, 0x0, 0xf, 0x5);
    Join(0xe5_a1f0_95bf, 0x70_073e_b805, 0x95_a6ce_2dba, 0x4, 0x7, 0x9, 0x5);
    Join(0xe5a1_f095_bf49, 0x7007_3eb8_0575, 0x95a6_ce2d_ba3c, 0x8, 0x9, 0x6, 0xb);
    Join(0xe5_a1f0_95bf_4986, 0x70_073e_b805_759b, 0x95_a6ce_2dba_3c1d, 0x9, 0xb, 0x8, 0xe);
  }

  lemma TextMergeRound3()
    ensures MergeRound64(0xe5a1_f095_bf49_8698, 0xcd62_d843_d058_0fca) == 0xf9ce_e721_e748_096d
  {
    hide MergeRound64, Round64, Xor;
    Round64At(0x0, 0xcd62_d843_d058_0fca, 0x1917_ffa4_faf3_4d56, 0x1917_ffa4_faf3_4d56, 0x7d79_a6ab_0c8b_ffd2,
        0x7007_3eb8_0575_9bbe);
    TextMergeXor3();
    MergeRound64At(0xe5a1_f095_bf49_8698, 0xcd62_d843_d058_0fca, 0x7007_3eb8_0575_9bbe, 0x95a6_ce2d_ba3c_1d26,
        0xf9ce_e721_e748_096d);
  }

  lemma TextMergeXor4()
    ensures Xor(0xf9ce_e721_e748_096d, 0xc1cb_bae5_0e57_e4f3) == 0x3805_5dc4_e91f_ed9e
  {
    hide Xor;
    NothingCombined();
    Join(0x0, 0x0, 0x0, 0xf, 0xc, 0x9, 0x1);
    Join(0xf9, 0xc1, 0x38, 0xc, 0xc, 0xe, 0xb);
    Join(0xf9ce, 0xc1cb, 0x3805, 0xe, 0xb, 0x7, 0xa);
    Join(0xf9_cee7, 0xc1_cbba, 0x38_055d, 0x2, 0xe, 0x1, 0x5);
    Join(0xf9ce_e721, 0xc1cb_bae5, 0x3805_5dc4, 0xe, 0x0, 0x7, 0xe);
    Join(0xf9_cee7_21e7, 0xc1_cbba_e50e, 0x38_055d_c4e9, 0x4, 0x5, 0x8, 0x7);
    Join(0xf9ce_e721_e748, 0xc1cb_bae5_0e57, 0x3805_5dc4_e91f, 0x0, 0xe, 0x9, 0x4);
    Join(0xf9_cee7_21e7_4809, 0xc1_cbba_e50e_57e4, 0x38_055d_c4e9_1fed, 0x6, 0xf, 0xd, 0x3);
  }

  lemma TextMergeRound4()
    ensures MergeRound64(0xf9ce_e721_e748_096d, 0x1c16_e43e_f214_2a4a) == 0x84f2_2c42_1a11_a8b5
  {
    hide MergeRound64, Round64, Xor;
    Round64At(0x0, 0x1c16_e43e_f214_2a4a, 0x2898_226b_8252_fad6, 0x2898_226b_8252_fad6, 0xc129_7d6b_144c_1135,
        0xc1cb_bae5_0e57_e4f3);
    TextMergeXor4();
    MergeRound64At(0xf9ce_e721_e748_096d, 0x1c16_e43e_f214_2a4a, 0xc1cb_bae5_0e57_e4f3, 0x3805_5dc4_e91f_ed9e,
        0x84f2_2c42_1a11_a8b5);
  }

  lemma TextMerge64()
    ensures Merge64(Lanes(0x3724_5127_a406_7e4b, 0x1b30_2b0a_818f_92cf, 0xcd62_d843_d058_0fca,
        0x1c16_e43e_f214_2a4a)) == 0x84f2_2c42_1a11_a8b5
  {
    hide Merge64, MergeRound64, Sum64;
    TextSum64();
    TextMergeRound1();
    TextMergeRound2();
    TextMergeRound3();
    TextMergeRound4();
    Merge64At(Lanes(0x3724_5127_a406_7e4b, 0x1b30_2b0a_818f_92cf, 0xcd62_d843_d058_0fca, 0x1c16_e43e_f214_2a4a));
  }

  lemma TextFourXor()
    ensures Xor(0x84f2_2c42_1a11_a8dc, 0xe986_3933_eb2b_1343) == 0x6d74_1571_f13a_bb9f
  {
    hide Xor;
    NothingCombined();
    Join(0x0, 0x0, 0x0, 0x8, 0xe, 0x4, 0x9);
    Join(0x84, 0xe9, 0x6d, 0xf, 0x8, 0x2, 0x6);
    Join(0x84f2, 0xe986, 0x6d74, 0x2, 0x3, 0xc, 0x9);
    Join(0x84_f22c, 0xe9_8639, 0x6d_7415, 0x4, 0x3, 0x2, 0x3);
    Join(0x84f2_2c42, 0xe986_3933, 0x6d74_1571, 0x1, 0xe, 0xa, 0xb);
    Join(0x84_f22c_421a, 0xe9_8639_33eb, 0x6d_7415_71f1, 0x1, 0x2, 0x1, 0xb);
    Join(0x84f2_2c42_1a11, 0xe986_3933_eb2b, 0x6d74_1571_f13a, 0xa, 0x1, 0x8, 0x3);
    Join(0x84_f22c_421a_11a8, 0xe9_8639_33eb_2b13, 0x6d_7415_71f1_3abb, 0xd, 0x4, 0xc, 0x3);
  }

  lemma TextFour64()
    ensures Four64(0x84f2_2c42_1a11_a8dc, Text[32..]) == 0x9fca_0f5d_0aaa_110f
  {
    hide Four64, ReadLE, Xor;
    TextWord8();
    ReadBehind(Text, 32, 4);
    TextFourXor();
    Four64At(0x84f2_2c42_1a11_a8dc, Text[32..], 0x7469_7465, 0xe986_3933_eb2b_1343, 0x6d74_1571_f13a_bb9f,
        0xb8f8_9d5d_cfb6_ba0a, 0x9fca_0f5d_0aaa_110f);
  }

  lemma TextOneXor1()
    ensures Xor(0x9fca_0f5d_0aaa_110f, 0x5654_7650_2970_8fcd) == 0xc99e_790d_23da_9ec2
  {
    hide Xor;
    NothingCombined();
    Join(0x0, 0x0, 0x0, 0x9, 0x5, 0xf, 0x6);
    Join(0x9f, 0x56, 0xc9, 0xc, 0x5, 0xa, 0x4);
    Join(0x9fca, 0x5654, 0xc99e, 0x0, 0x7, 0xf, 0x6);
    Join(0x9f_ca0f, 0x56_5476, 0xc9_9e79, 0x5, 0x5, 0xd, 0x0);
    Join(0x9fca_0f5d, 0x5654_7650, 0xc99e_790d, 0x0, 0x2, 0xa, 0x9);
    Join(0x9f_ca0f_5d0a, 0x56_5476_5029, 0xc9_9e79_0d23, 0xa, 0x7, 0xa, 0x0);
    Join(0x9fca_0f5d_0aaa, 0x5654_7650_2970, 0xc99e_790d_23da, 0x1, 0x8, 0x1, 0xf);
    Join(0x9f_ca0f_5d0a_aa11, 0x56_5476_5029_708f, 0xc9_9e79_0d23_da9e, 0x0, 0xc, 0xf, 0xd);
  }

  lemma TextOne1()
    ensures One64(0x9fca_0f5d_0aaa_110f, 105) == 0x7696_7154_6f21_ba14
  {
    hide One64, Xor;
    TextOneXor1();
    One64At(0x9fca_0f5d_0aaa_110f, 105, 0x5654_7650_2970_8fcd, 0xc99e_790d_23da_9ec2, 0xf3c8_691e_d4f6_164c,
        0x7696_7154_6f21_ba14);
  }

  lemma TextOneXor2()
    ensures Xor(0x7696_7154_6f21_ba14, 0x4551_f96a_af76_fe6b) == 0x33c7_883e_c057_447f
  {
    hide Xor;
    NothingCombined();
    Join(0x0, 0x0, 0x0, 0x7, 0x4, 0x6, 0x5);
    Join(0x76, 0x45, 0x33, 0x9, 0x5, 0x6, 0x1);
    Join(0x7696, 0x4551, 0x33c7, 0x7, 0xf, 0x1, 0x9);
    Join(0x76_9671, 0x45_51f9, 0x33_c788, 0x5, 0x6, 0x4, 0xa);
    Join(0x7696_7154, 0x4551_f96a, 0x33c7_883e, 0x6, 0xa, 0xf, 0xf);
    Join(0x76_9671_546f, 0x45_51f9_6aaf, 0x33_c788_3ec0, 0x2, 0x7, 0x1, 0x6);
    Join(0x7696_7154_6f21, 0x4551_f96a_af76, 0x33c7_883e_c057, 0xb, 0xf, 0xa, 0xe);
    Join(0x76_9671_546f_21ba, 0x45_51f9_6aaf_76fe, 0x33_c788_3ec0_5744, 0x1, 0x6, 0x4, 0xb);
  }

  lemma TextOne2()
    ensures One64(0x7696_7154_6f21_ba14, 111) == 0xeae9_b643_c5f9_4e52
  {
    hide One64, Xor;
    TextOneXor2();
    One64At(0x7696_7154_6f21_ba14, 111, 0x4551_f96a_af76_fe6b, 0x33c7_883e_c057_447f, 0x3c41_f602_ba23_f99e,
        0xeae9_b643_c5f9_4e52);
  }

  lemma TextOneXor3()
    ensures Xor(0xeae9_b643_c5f9_4e52, 0x1d7d_0e3b_9920_96a6) == 0xf794_b878_5cd9_d8f4
  {
    hide Xor;
    NothingCombined();
    Join(0x0, 0x0, 0x0, 0xe, 0x1, 0xa, 0xd);
    Join(0xea, 0x1d, 0xf7, 0xe, 0x7, 0x9, 0xd);
    Join(0xeae9, 0x1d7d, 0xf794, 0xb, 0x0, 0x6, 0xe);
    Join(0xea_e9b6, 0x1d_7d0e, 0xf7_94b8, 0x4, 0x3, 0x3, 0xb);
    Join(0xeae9_b643, 0x1d7d_0e3b, 0xf794_b878, 0xc, 0x9, 0x5, 0x9);
    Join(0xea_e9b6_43c5, 0x1d_7d0e_3b99, 0xf7_94b8_785c, 0xf, 0x2, 0x9, 0x0);
    Join(0xeae9_b643_c5f9, 0x1d7d_0e3b_9920, 0xf794_b878_5cd9, 0x4, 0x9, 0xe, 0x6);
    Join(0xea_e9b6_43c5_f94e, 0x1d_7d0e_3b99_2096, 0xf7_94b8_785c_d9d8, 0x5, 0xa, 0x2, 0x6);
  }

  lemma TextOne3()
    ensures One64(0xeae9_b643_c5f9_4e52, 110) == 0x1d0a_4748_3b37_cc24
  {
    hide One64, Xor;
    TextOneXor3();
    One64At(0xeae9_b643_c5f9_4e52, 110, 0x1d7d_0e3b_9920_96a6, 0xf794_b878_5cd9_d8f4, 0xa5c3_c2e6_cec7_a7bc,
        0x1d0a_4748_3b37_cc24);
  }

  lemma TextMix64First()
    ensures Xor(0x1d0a_4748_3b37_cc24, 0xe85_23a4) == 0x1d0a_4748_35b2_ef80
  {
    hide Xor;
    NothingCombined();
    Join(0x0, 0x0, 0x0, 0x1, 0x0, 0xd, 0x0);
    Join(0x1d, 0x0, 0x1d, 0x0, 0x0, 0xa, 0x0);
    Join(0x1d0a, 0x0, 0x1d0a, 0x4, 0x0, 0x7, 0x0);
    Join(0x1d_0a47, 0x0, 0x1d_0a47, 0x4, 0x0, 0x8, 0x0);
    Join(0x1d0a_4748, 0x0, 0x1d0a_4748, 0x3, 0x0, 0xb, 0xe);
    Join(0x1d_0a47_483b, 0xe, 0x1d_0a47_4835, 0x3, 0x8, 0x7, 0x5);
    Join(0x1d0a_4748_3b37, 0xe85, 0x1d0a_4748_35b2, 0xc, 0x2, 0xc, 0x3);
    Join(0x1d_0a47_483b_37cc, 0xe_8523, 0x1d_0a47_4835_b2ef, 0x2, 0xa, 0x4, 0x4);
  }

  lemma TextMix64Second()
    ensures Xor(0x5f02_14be_aa12_6880, 0x2_f810_a5f5) == 0x5f02_14bc_5202_cd75
  {
    hide Xor;
    NothingCombined();
    Join(0x0, 0x0, 0x0, 0x5, 0x0, 0xf, 0x0);
    Join(0x5f, 0x0, 0x5f, 0x0, 0x0, 0x2, 0x0);
    Join(0x5f02, 0x0, 0x5f02, 0x1, 0x0, 0x4, 0x0);
    Join(0x5f_0214, 0x0, 0x5f_0214, 0xb, 0x0, 0xe, 0x2);
    Join(0x5f02_14be, 0x2, 0x5f02_14bc, 0xa, 0xf, 0xa, 0x8);
    Join(0x5f_0214_beaa, 0x2f8, 0x5f_0214_bc52, 0x1, 0x1, 0x2, 0x0);
    Join(0x5f02_14be_aa12, 0x2_f810, 0x5f02_14bc_5202, 0x6, 0xa, 0x8, 0x5);
    Join(0x5f_0214_beaa_1268, 0x2f8_10a5, 0x5f_0214_bc52_02cd, 0x8, 0xf, 0x0, 0x5);
  }

  lemma TextMix64Third()
    ensures Xor(0xfbce_a83c_71f9_23cd, 0xfbce_a83c) == 0xfbce_a83c_8a37_8bf1
  {
    hide Xor;
    NothingCombined();
    Join(0x0, 0x0, 0x0, 0xf, 0x0, 0xb, 0x0);
    Join(0xfb, 0x0, 0xfb, 0xc, 0x0, 0xe, 0x0);
    Join(0xfbce, 0x0, 0xfbce, 0xa, 0x0, 0x8, 0x0);
    Join(0xfb_cea8, 0x0, 0xfb_cea8, 0x3, 0x0, 0xc, 0x0);
    Join(0xfbce_a83c, 0x0, 0xfbce_a83c, 0x7, 0xf, 0x1, 0xb);
    Join(0xfb_cea8_3c71, 0xfb, 0xfb_cea8_3c8a, 0xf, 0xc, 0x9, 0xe);
    Join(0xfbce_a83c_71f9, 0xfbce, 0xfbce_a83c_8a37, 0x2, 0xa, 0x3, 0x8);
    Join(0xfb_cea8_3c71_f923, 0xfb_cea8, 0xfb_cea8_3c8a_378b, 0xc, 0x3, 0xd, 0xc);
  }

  lemma TextMix64()
    ensures Avalanche64(0x1d0a_4748_3b37_cc24) == 0xfbce_a83c_8a37_8bf1
  {
    hide Xor, Avalanche64;
    TextMix64First();
    TextMix64Second();
    TextMix64Third();
    Avalanche64At(0x1d0a_4748_3b37_cc24, 0x1d0a_4748_35b2_ef80, 0x5f02_14be_aa12_6880, 0x5f02_14bc_5202_cd75,
        0xfbce_a83c_71f9_23cd, 0xfbce_a83c_8a37_8bf1);
  }

  lemma TailSteps64(t: seq<Byte>, h0: UInt64, h1: UInt64, h2: UInt64, h3: UInt64, h4: UInt64)
    requires |t| == 7 && Four64(h0, t) == h1
    requires One64(h1, t[4]) == h2 && One64(h2, t[5]) == h3 && One64(h3, t[6]) == h4
    ensures Finalize64(h0, t) == Avalanche64(h4)
  {
    hide Eight64, Four64, One64, Avalanche64;
    var a := t[4..];
    var b := a[1..];
    var c := b[1..];
    assert a[0] == t[4] && b[0] == t[5] && c[0] == t[6] && c[1..] == [];
    assert Finalize64(h3, c) == Finalize64(h4, []);
    assert Finalize64(h2, b) == Finalize64(h3, c);
    assert Finalize64(h1, a) == Finalize64(h2, b);
    assert Finalize64(h0, t) == Finalize64(h1, a);
  }

  lemma TextTail64()
    ensures Finalize64(0x84f2_2c42_1a11_a8dc, Text[32..]) == 0xfbce_a83c_8a37_8bf1
  {
    hide Four64, One64, Avalanche64, Finalize64;
    TextFour64();
    TextOne1();
    TextOne2();
    TextOne3();
    TextMix64();
    TextEnd(Text[32..]);
    TailSteps64(Text[32..], 0x84f2_2c42_1a11_a8dc, 0x9fca_0f5d_0aaa_110f, 0x7696_7154_6f21_ba14,
        0xeae9_b643_c5f9_4e52, 0x1d0a_4748_3b37_cc24);
  }

  lemma TextFolds64(v: Lanes)
    ensures Fold(Stripe64, v, Text, 32) == Stripe64(v, Text[0..32]) && Left(Text, 32) == Text[32..]
  {
    hide Stripe64;
    OneStripe(Stripe64, v, Text, 32);
    LeftShort(Text[32..], 32);
    assert Text[0..32] == Text[..32];
  }

  lemma TextBegin64()
    ensures Begin64(0) == Lanes(0x60ea_27ee_adc0_b5d6, 0xc2b2_ae3d_27d4_eb4f, 0x0, 0x61c8_864e_7a14_3579)
    ensures |Text| == 39
  {
  }

  /** XXH64 of the text. */
  lemma Text64()
    ensures Hash64(0, Text) == 0xfbce_a83c_8a37_8bf1
  {
    hide Stripe64, Merge64, Finalize64, Fold, Left, Begin64;
    TextBegin64();
    TextStripe64();
    TextMerge64();
    TextTail64();
    TextFolds64(Begin64(0));
  }

  // ---------------------------------------------------------------- with a seed

  lemma ReadFront(s: seq<Byte>, n: nat, p: nat, w: nat)
    requires p + w <= n <= |s|
    ensures ReadLE(s[..n], p, w) == ReadLE(s, p, w)
  {
    ReadSlice(s, 0, n, p, w);
    assert s[0..n] == s[..n];
  }

  /** One stripe and nothing behind it. */
  lemma OnlyStripe(f: (Lanes, seq<Byte>) -> Lanes, v: Lanes, s: seq<Byte>)
    requires s != []
    ensures Fold(f, v, s, |s|) == f(v, s[0..|s|]) && Left(s, |s|) == []
  {
    OneStripe(f, v, s, |s|);
    LeftShort(s[|s|..], |s|);
    assert s[0..|s|] == s[..|s|];
  }

  lemma SeededRound0()
    ensures Round32(0x2556_9809, 0x6f62_6f4e) == 0xab98_a050
  {
    hide Round32;
    Round32At(0x2556_9809, 0x6f62_6f4e, 0x252f_4942, 0x4a85_e14b, 0xbc29_6950, 0xab98_a050);
  }

  lemma SeededRound1()
    ensures Round32(0x871f_1e58, 0x6920_7964) == 0x66dc_2929
  {
    hide Round32;
    Round32At(0x871f_1e58, 0x6920_7964, 0xe0ad_557c, 0x67cc_73d4, 0x8e7a_8cf9, 0x66dc_2929);
  }

  lemma SeededRound2()
    ensures Round32(0x133_53e1, 0x6570_736e) == 0x260_e4f0
  {
    hide Round32;
    Round32At(0x133_53e1, 0x6570_736e, 0xfe54_7422, 0xff87_c803, 0xf900_7ff0, 0x260_e4f0);
  }

  lemma SeededRound3()
    ensures Round32(0x62fb_da30, 0x2073_7463) == 0xbaac_859b
  {
    hide Round32;
    Round32At(0x62fb_da30, 0x2073_7463, 0x7562_3805, 0xd85e_1235, 0xc246_bb0b, 0xbaac_859b);
  }

  lemma SeededStripe32()
    ensures Stripe32(Lanes(0x2556_9809, 0x871f_1e58, 0x133_53e1, 0x62fb_da30), Text[..16][0..16])
      == Lanes(0xab98_a050, 0x66dc_2929, 0x260_e4f0, 0xbaac_859b)
  {
    hide Stripe32, Round32, ReadLE;
    TextWord0();
    SeededRound0();
    ReadFront(Text, 16, 0, 4);
    TextWord1();
    SeededRound1();
    ReadFront(Text, 16, 4, 4);
    TextWord2();
    SeededRound2();
    ReadFront(Text, 16, 8, 4);
    TextWord3();
    SeededRound3();
    ReadFront(Text, 16, 12, 4);
    Stripe32At(Lanes(0x2556_9809, 0x871f_1e58, 0x133_53e1, 0x62fb_da30), Text[..16], 0, 0x6f62_6f4e, 0x6920_7964,
        0x6570_736e, 0x2073_7463);
  }

  lemma SeededTurn1()
    ensures Rotl32(0xab98_a050, 1) == 0x5731_40a1
  {
    hide Pow2, Rotl32;
    PowersOfTwo();
    Rotl32At(0xab98_a050, 1, 0x2, 0x8000_0000);
  }

  lemma SeededTurn7()
    ensures Rotl32(0x66dc_2929, 7) == 0x6e14_94b3
  {
    hide Pow2, Rotl32;
    PowersOfTwo();
    Rotl32At(0x66dc_2929, 7, 0x80, 0x200_0000);
  }

  lemma SeededTurn12()
    ensures Rotl32(0x260_e4f0, 12) == 0xe4f_0026
  {
    hide Pow2, Rotl32;
    PowersOfTwo();
    Rotl32At(0x260_e4f0, 12, 0x1000, 0x10_0000);
  }

  lemma SeededTurn18()
    ensures Rotl32(0xbaac_859b, 18) == 0x166e_eab2
  {
    hide Pow2, Rotl32;
    PowersOfTwo();
    Rotl32At(0xbaac_859b, 18, 0x4_0000, 0x4000);
  }

  lemma SeededMerge32()
    ensures Merge32(Lanes(0xab98_a050, 0x66dc_2929, 0x260_e4f0, 0xbaac_859b)) == 0xea03_c02c
  {
    hide Merge32, Rotl32;
    SeededTurn1();
    SeededTurn7();
    SeededTurn12();
    SeededTurn18();
    Merge32At(0xab98_a050, 0x66dc_2929, 0x260_e4f0, 0xbaac_859b, 0x5731_40a1, 0x6e14_94b3, 0xe4f_0026, 0x166e_eab2);
  }

  lemma SeededMix32First()
    ensures Xor(0xea03_c03c, 0x1_d407) == 0xea02_143b
  {
    hide Xor;
    NothingCombined();
    Join(0x0, 0x0, 0x0, 0xe, 0x0, 0xa, 0x0);
    Join(0xea, 0x0, 0xea, 0x0, 0x0, 0x3, 0x1);
    Join(0xea03, 0x1, 0xea02, 0xc, 0xd, 0x0, 0x4);
    Join(0xea_03c0, 0x1d4, 0xea_0214, 0x3, 0x0, 0xc, 0x7);
  }

  lemma SeededMix32Second()
    ensures Xor(0xa416_f56d, 0x5_20b7) == 0xa413_d5da
  {
    hide Xor;
    NothingCombined();
    Join(0x0, 0x0, 0x0, 0xa, 0x0, 0x4, 0x0);
    Join(0xa4, 0x0, 0xa4, 0x1, 0x0, 0x6, 0x5);
    Join(0xa416, 0x5, 0xa413, 0xf, 0x2, 0x5, 0x0);
    Join(0xa4_16f5, 0x520, 0xa4_13d5, 0x6, 0xb, 0xd, 0x7);
  }

  lemma SeededMix32Third()
    ensures Xor(0x79a8_20f2, 0x79a8) == 0x79a8_595a
  {
    hide Xor;
    NothingCombined();
    Join(0x0, 0x0, 0x0, 0x7, 0x0, 0x9, 0x0);
    Join(0x79, 0x0, 0x79, 0xa, 0x0, 0x8, 0x0);
    Join(0x79a8, 0x0, 0x79a8, 0x2, 0x7, 0x0, 0x9);
    Join(0x79_a820, 0x79, 0x79_a859, 0xf, 0xa, 0x2, 0x8);
  }

  lemma SeededMix32()
    ensures Avalanche32(0xea03_c03c) == 0x79a8_595a
  {
    hide Xor, Avalanche32;
    SeededMix32First();
    SeededMix32Second();
    SeededMix32Third();
    Avalanche32At(0xea03_c03c, 0xea02_143b, 0xa416_f56d, 0xa413_d5da, 0x79a8_20f2, 0x79a8_595a);
  }

  lemma SeededBegin32()
    ensures Begin32(20141025) == Lanes(0x2556_9809, 0x871f_1e58, 0x133_53e1, 0x62fb_da30) && |Text[..16]| == 16
  {
  }

  /** XXH32 of the first 16 bytes of the text, with a seed. */
  lemma Seeded32()
    ensures Hash32(20141025, Text[..16]) == 0x79a8_595a
  {
    hide Stripe32, Merge32, Fold, Left, Begin32, Avalanche32;
    SeededBegin32();
    SeededStripe32();
    SeededMerge32();
    SeededMix32();
    OnlyStripe(Stripe32, Begin32(20141025), Text[..16]);
    assert Finalize32(0xea03_c03c, []) == Avalanche32(0xea03_c03c);
  }

  lemma SeededLong0()
    ensures ReadLE(Text[..32], 0, 8) == 0x6920_7964_6f62_6f4e
    ensures Round64(0x60ea_27ee_aef4_09b7, 0x6920_7964_6f62_6f4e) == 0x3a8a_33fb_2406_7e4b
  {
    hide ReadLE, Round64;
    TextLong0();
    ReadFront(Text, 32, 0, 8);
    Round64At(0x60ea_27ee_aef4_09b7, 0x6920_7964_6f62_6f4e, 0x6f0_6e4c_ca24_f312, 0x67da_963b_7918_fcc9,
        0xbc8c_7e64_b3ed_4b1d, 0x3a8a_33fb_2406_7e4b);
  }

  lemma SeededLong1()
    ensures ReadLE(Text[..32], 8, 8) == 0x2073_7463_6570_736e
    ensures Round64(0xc2b2_ae3d_2908_3f30, 0x2073_7463_6570_736e) == 0x1e96_0dde_018f_92cf
  {
    hide ReadLE, Round64;
    TextLong1();
    ReadFront(Text, 32, 8, 8);
    Round64At(0xc2b2_ae3d_2908_3f30, 0x2073_7463_6570_736e, 0xbef8_90b5_e0c1_98f2, 0x81ab_3ef3_09c9_d822,
        0x84e4_ec11_40d5_9f79, 0x1e96_0dde_018f_92cf);
  }

  lemma SeededLong2()
    ensures ReadLE(Text[..32], 16, 8) == 0x6d61_7073_2065_6874
    ensures Round64(0x133_53e1, 0x6d61_7073_2065_6874) == 0xd0c8_bb17_5058_0fca
  {
    hide ReadLE, Round64;
    TextLong2();
    ReadFront(Text, 32, 16, 8);
    Round64At(0x133_53e1, 0x6d61_7073_2065_6874, 0xa62_64cc_423d_b7cc, 0xa62_64cc_4371_0bad, 0x21b8_85d6_8531_3266,
        0xd0c8_bb17_5058_0fca);
  }

  lemma SeededLong3()
    ensures ReadLE(Text[..32], 24, 8) == 0x7065_7220_6873_696d
    ensures Round64(0x61c8_864e_7b47_895a, 0x7065_7220_6873_696d) == 0x1f7c_c712_7214_2a4a
  {
    hide ReadLE, Round64;
    TextLong3();
    ReadFront(Text, 32, 24, 8);
    Round64At(0x61c8_864e_7b47_895a, 0x7065_7220_6873_696d, 0x7ec4_417e_16a8_97a3, 0xe08c_c7cc_91f0_20fd,
        0x48f8_107e_f046_63e6, 0x1f7c_c712_7214_2a4a);
  }

  lemma SeededStripe64()
    ensures Stripe64(Lanes(0x60ea_27ee_aef4_09b7, 0xc2b2_ae3d_2908_3f30, 0x133_53e1, 0x61c8_864e_7b47_895a),
        Text[..32][0..32])
      == Lanes(0x3a8a_33fb_2406_7e4b, 0x1e96_0dde_018f_92cf, 0xd0c8_bb17_5058_0fca, 0x1f7c_c712_7214_2a4a)
  {
    hide Stripe64, Round64, ReadLE;
    SeededLong0();
    SeededLong1();
    SeededLong2();
    SeededLong3();
    Stripe64At(Lanes(0x60ea_27ee_aef4_09b7, 0xc2b2_ae3d_2908_3f30, 0x133_53e1, 0x61c8_864e_7b47_895a), Text[..32], 0,
        0x6920_7964_6f62_6f4e, 0x2073_7463_6570_736e, 0x6d61_7073_2065_6874, 0x7065_7220_6873_696d);
  }

  lemma SeededSum64()
    ensures Sum64(Lanes(0x3a8a_33fb_2406_7e4b, 0x1e96_0dde_018f_92cf, 0xd0c8_bb17_5058_0fca,
        0x1f7c_c712_7214_2a4a)) == 0x6816_944d_39fb_8f24
  {
    hide Sum64;
    Sum64At(Lanes(0x3a8a_33fb_2406_7e4b, 0x1e96_0dde_018f_92cf, 0xd0c8_bb17_5058_0fca, 0x1f7c_c712_7214_2a4a),
        0x7514_67f6_480c_fc96, 0x4b06_ef00_c7c9_678f, 0x8bb1_7505_80fc_ad0c, 0x1c49_c850_a928_7df3);
  }

  lemma SeededMergeXor1()
    ensures Xor(0x6816_944d_39fb_8f24, 0xb4a4_b17c_4354_f131) == 0xdcb2_2531_7aaf_7e15
  {
    hide Xor;
    NothingCombined();
    Join(0x0, 0x0, 0x0, 0x6, 0xb, 0x8, 0x4);
    Join(0x68, 0xb4, 0xdc, 0x1, 0xa, 0x6, 0x4);
    Join(0x6816, 0xb4a4, 0xdcb2, 0x9, 0xb, 0x4, 0x1);
    Join(0x68_1694, 0xb4_a4b1, 0xdc_b225, 0x4, 0x7, 0xd, 0xc);
    Join(0x6816_944d, 0xb4a4_b17c, 0xdcb2_2531, 0x3, 0x4, 0x9, 0x3);
    Join(0x68_1694_4d39, 0xb4_a4b1_7c43, 0xdc_b225_317a, 0xf, 0x5, 0xb, 0x4);
    Join(0x6816_944d_39fb, 0xb4a4_b17c_4354, 0xdcb2_2531_7aaf, 0x8, 0xf, 0xf, 0x1);
    Join(0x68_1694_4d39_fb8f, 0xb4_a4b1_7c43_54f1, 0xdc_b225_317a_af7e, 0x2, 0x3, 0x4, 0x1);
  }

  lemma SeededMergeRound1()
    ensures MergeRound64(0x6816_944d_39fb_8f24, 0x3a8a_33fb_2406_7e4b) == 0x24d0_577c_9501_bd76
  {
    hide MergeRound64, Round64, Xor;
    Round64At(0x0, 0x3a8a_33fb_2406_7e4b, 0xe25d_790f_170b_d225, 0xe25d_790f_170b_d225, 0x8b85_e912_f12e_bc87,
        0xb4a4_b17c_4354_f131);
    SeededMergeXor1();
    MergeRound64At(0x6816_944d_39fb_8f24, 0x3a8a_33fb_2406_7e4b, 0xb4a4_b17c_4354_f131, 0xdcb2_2531_7aaf_7e15,
        0x24d0_577c_9501_bd76);
  }

  lemma SeededMergeXor2()
    ensures Xor(0x24d0_577c_9501_bd76, 0x1be2_891d_882c_3455) == 0x3f32_de61_1d2d_8923
  {
    hide Xor;
    NothingCombined();
    Join(0x0, 0x0, 0x0, 0x2, 0x1, 0x4, 0xb);
    Join(0x24, 0x1b, 0x3f, 0xd, 0xe, 0x0, 0x2);
    Join(0x24d0, 0x1be2, 0x3f32, 0x5, 0x8, 0x7, 0x9);
    Join(0x24_d057, 0x1b_e289, 0x3f_32de, 0x7, 0x1, 0xc, 0xd);
    Join(0x24d0_577c, 0x1be2_891d, 0x3f32_de61, 0x9, 0x8, 0x5, 0x8);
    Join(0x24_d057_7c95, 0x1b_e289_1d88, 0x3f_32de_611d, 0x0, 0x2, 0x1, 0xc);
    Join(0x24d0_577c_9501, 0x1be2_891d_882c, 0x3f32_de61_1d2d, 0xb, 0x3, 0xd, 0x4);
    Join(0x24_d057_7c95_01bd, 0x1b_e289_1d88_2c34, 0x3f_32de_611d_2d89, 0x7, 0x5, 0x6, 0x5);
  }

  lemma SeededMergeRound2()
    ensures MergeRound64(0x24d0_577c_9501_bd76, 0x1e96_0dde_018f_92cf) == 0x5758_7df3_260c_9dd8
  {
    hide MergeRound64, Round64, Xor;
    Round64At(0x0, 0x1e96_0dde_018f_92cf, 0x640b_ea87_637e_52e1, 0x640b_ea87_637e_52e1, 0xb1bf_2970_b205_f543,
        0x1be2_891d_882c_3455);
    SeededMergeXor2();
    MergeRound64At(0x24d0_577c_9501_bd76, 0x1e96_0dde_018f_92cf, 0x1be2_891d_882c_3455, 0x3f32_de61_1d2d_8923,
        0x5758_7df3_260c_9dd8);
  }

  lemma SeededMergeXor3()
    ensures Xor(0x5758_7df3_260c_9dd8, 0xad1a_f114_ce30_64ec) == 0xfa42_8ce7_e83c_f934
  {
    hide Xor;
    NothingCombined();
    Join(0x0, 0x0, 0x0, 0x5, 0xa, 0x7, 0xd);
    Join(0x57, 0xad, 0xfa, 0x5, 0x1, 0x8, 0xa);
    Join(0x5758, 0xad1a, 0xfa42, 0x7, 0xf, 0xd, 0x1);
    Join(0x57_587d, 0xad_1af1, 0xfa_428c, 0xf, 0x1, 0x3, 0x4);
    Join(0x5758_7df3, 0xad1a_f114, 0xfa42_8ce7, 0x2, 0xc, 0x6, 0xe);
    Join(0x57_587d_f326, 0xad_1af1_14ce, 0xfa_428c_e7e8, 0x0, 0x3, 0xc, 0x0);
    Join(0x5758_7df3_260c, 0xad1a_f114_ce30, 0xfa42_8ce7_e83c, 0x9, 0x6, 0xd, 0x4);
    Join(0x57_587d_f326_0c9d, 0xad_1af1_14ce_3064, 0xfa_428c_e7e8_3cf9, 0xd, 0xe, 0x8, 0xc);
  }

  lemma SeededMergeRound3()
    ensures MergeRound64(0x5758_7df3_260c_9dd8, 0xd0c8_bb17_5058_0fca) == 0xdcda_d468_1e39_20cf
  {
    hide MergeRound64, Round64, Xor;
    Round64At(0x0, 0xd0c8_bb17_5058_0fca, 0x3c67_2569_7af3_4d56, 0x3c67_2569_7af3_4d56, 0xbd79_a6ab_1e33_92b4,
        0xad1a_f114_ce30_64ec);
    SeededMergeXor3();
    MergeRound64At(0x5758_7df3_260c_9dd8, 0xd0c8_bb17_5058_0fca, 0xad1a_f114_ce30_64ec, 0xfa42_8ce7_e83c_f934,
        0xdcda_d468_1e39_20cf);
  }

  lemma SeededMergeXor4()
    ensures Xor(0xdcda_d468_1e39_20cf, 0x9d16_e6f3_5cfe_78a8) == 0x41cc_329b_42c7_5867
  {
    hide Xor;
    NothingCombined();
    Join(0x0, 0x0, 0x0, 0xd, 0x9, 0xc, 0xd);
    Join(0xdc, 0x9d, 0x41, 0xd, 0x1, 0xa, 0x6);
    Join(0xdcda, 0x9d16, 0x41cc, 0xd, 0xe, 0x4, 0x6);
    Join(0xdc_dad4, 0x9d_16e6, 0x41_cc32, 0x6, 0xf, 0x8, 0x3);
    Join(0xdcda_d468, 0x9d16_e6f3, 0x41cc_329b, 0x1, 0x5, 0xe, 0xc);
    Join(0xdc_dad4_681e, 0x9d_16e6_f35c, 0x41_cc32_9b42, 0x3, 0xf, 0x9, 0xe);
    Join(0xdcda_d468_1e39, 0x9d16_e6f3_5cfe, 0x41cc_329b_42c7, 0x2, 0x7, 0x0, 0x8);
    Join(0xdc_dad4_681e_3920, 0x9d_16e6_f35c_fe78, 0x41_cc32_9b42_c758, 0xc, 0xa, 0xf, 0x8);
  }

  lemma SeededMergeRound4()
    ensures MergeRound64(0xdcda_d468_1e39_20cf, 0x1f7c_c712_7214_2a4a) == 0x6b7e_a92b_ef20_92b4
  {
    hide MergeRound64, Round64, Xor;
    Round64At(0x0, 0x1f7c_c712_7214_2a4a, 0x4be7_4830_0252_fad6, 0x4be7_4830_0252_fad6, 0x129_7d6b_25f3_a418,
        0x9d16_e6f3_5cfe_78a8);
    SeededMergeXor4();
    MergeRound64At(0xdcda_d468_1e39_20cf, 0x1f7c_c712_7214_2a4a, 0x9d16_e6f3_5cfe_78a8, 0x41cc_329b_42c7_5867,
        0x6b7e_a92b_ef20_92b4);
  }

  lemma SeededMerge64()
    ensures Merge64(Lanes(0x3a8a_33fb_2406_7e4b, 0x1e96_0dde_018f_92cf, 0xd0c8_bb17_5058_0fca,
        0x1f7c_c712_7214_2a4a)) == 0x6b7e_a92b_ef20_92b4
  {
    hide Merge64, MergeRound64, Sum64;
    SeededSum64();
    SeededMergeRound1();
    SeededMergeRound2();
    SeededMergeRound3();
    SeededMergeRound4();
    Merge64At(Lanes(0x3a8a_33fb_2406_7e4b, 0x1e96_0dde_018f_92cf, 0xd0c8_bb17_5058_0fca, 0x1f7c_c712_7214_2a4a));
  }

  lemma SeededMix64First()
    ensures Xor(0x6b7e_a92b_ef20_92d4, 0x35bf_5495) == 0x6b7e_a92b_da9f_c641
  {
    hide Xor;
    NothingCombined();
    Join(0x0, 0x0, 0x0, 0x6, 0x0, 0xb, 0x0);
    Join(0x6b, 0x0, 0x6b, 0x7, 0x0, 0xe, 0x0);
    Join(0x6b7e, 0x0, 0x6b7e, 0xa, 0x0, 0x9, 0x0);
    Join(0x6b_7ea9, 0x0, 0x6b_7ea9, 0x2, 0x0, 0xb, 0x0);
    Join(0x6b7e_a92b, 0x0, 0x6b7e_a92b, 0xe, 0x3, 0xf, 0x5);
    Join(0x6b_7ea9_2bef, 0x35, 0x6b_7ea9_2bda, 0x2, 0xb, 0x0, 0xf);
    Join(0x6b7e_a92b_ef20, 0x35bf, 0x6b7e_a92b_da9f, 0x9, 0x5, 0x2, 0x4);
    Join(0x6b_7ea9_2bef_2092, 0x35_bf54, 0x6b_7ea9_2bda_9fc6, 0xd, 0x9, 0x4, 0x5);
  }

  lemma SeededMix64Second()
    ensures Xor(0x405_453a_371f_d90f, 0x202a_29d1) == 0x405_453a_1735_f0de
  {
    hide Xor;
    NothingCombined();
    Join(0x0, 0x0, 0x0, 0x0, 0x0, 0x4, 0x0);
    Join(0x4, 0x0, 0x4, 0x0, 0x0, 0x5, 0x0);
    Join(0x405, 0x0, 0x405, 0x4, 0x0, 0x5, 0x0);
    Join(0x4_0545, 0x0, 0x4_0545, 0x3, 0x0, 0xa, 0x0);
    Join(0x405_453a, 0x0, 0x405_453a, 0x3, 0x2, 0x7, 0x0);
    Join(0x4_0545_3a37, 0x20, 0x4_0545_3a17, 0x1, 0x2, 0xf, 0xa);
    Join(0x405_453a_371f, 0x202a, 0x405_453a_1735, 0xd, 0x2, 0x9, 0x9);
    Join(0x4_0545_3a37_1fd9, 0x20_2a29, 0x4_0545_3a17_35f0, 0x0, 0xd, 0xf, 0x1);
  }

  lemma SeededMix64Third()
    ensures Xor(0xdf6f_ed36_d602_35ee, 0xdf6f_ed36) == 0xdf6f_ed36_096d_d8d8
  {
    hide Xor;
    NothingCombined();
    Join(0x0, 0x0, 0x0, 0xd, 0x0, 0xf, 0x0);
    Join(0xdf, 0x0, 0xdf, 0x6, 0x0, 0xf, 0x0);
    Join(0xdf6f, 0x0, 0xdf6f, 0xe, 0x0, 0xd, 0x0);
    Join(0xdf_6fed, 0x0, 0xdf_6fed, 0x3, 0x0, 0x6, 0x0);
    Join(0xdf6f_ed36, 0x0, 0xdf6f_ed36, 0xd, 0xd, 0x6, 0xf);
    Join(0xdf_6fed_36d6, 0xdf, 0xdf_6fed_3609, 0x0, 0x6, 0x2, 0xf);
    Join(0xdf6f_ed36_d602, 0xdf6f, 0xdf6f_ed36_096d, 0x3, 0xe, 0x5, 0xd);
    Join(0xdf_6fed_36d6_0235, 0xdf_6fed, 0xdf_6fed_3609_6dd8, 0xe, 0x3, 0xe, 0x6);
  }

  lemma SeededMix64()
    ensures Avalanche64(0x6b7e_a92b_ef20_92d4) == 0xdf6f_ed36_096d_d8d8
  {
    hide Xor, Avalanche64;
    SeededMix64First();
    SeededMix64Second();
    SeededMix64Third();
    Avalanche64At(0x6b7e_a92b_ef20_92d4, 0x6b7e_a92b_da9f_c641, 0x405_453a_371f_d90f, 0x405_453a_1735_f0de,
        0xdf6f_ed36_d602_35ee, 0xdf6f_ed36_096d_d8d8);
  }

  lemma SeededBegin64()
    ensures Begin64(20141025) == Lanes(0x60ea_27ee_aef4_09b7, 0xc2b2_ae3d_2908_3f30, 0x133_53e1,
        0x61c8_864e_7b47_895a) && |Text[..32]| == 32
  {
  }

  /** XXH64 of the first 32 bytes of the text, with the same seed. */
  lemma Seeded64()
    ensures Hash64(20141025, Text[..32]) == 0xdf6f_ed36_096d_d8d8
  {
    hide Stripe64, Merge64, Fold, Left, Begin64, Avalanche64;
    SeededBegin64();
    SeededStripe64();
    SeededMerge64();
    SeededMix64();
    OnlyStripe(Stripe64, Begin64(20141025), Text[..32]);
    assert Finalize64(0x6b7e_a92b_ef20_92d4, []) == Avalanche64(0x6b7e_a92b_ef20_92d4);
  }

  lemma EightXor()
    ensures Xor(0x27d4_eb2f_1789_bbae, 0x2590_ef45_0dcb_110a) == 0x244_046a_1a42_aaa4
  {
    hide Xor;
    NothingCombined();
    Join(0x0, 0x0, 0x0, 0x2, 0x2, 0x7, 0x5);
    Join(0x27, 0x25, 0x2, 0xd, 0x9, 0x4, 0x0);
    Join(0x27d4, 0x2590, 0x244, 0xe, 0xe, 0xb, 0xf);
    Join(0x27_d4eb, 0x25_90ef, 0x2_4404, 0x2, 0x4, 0xf, 0x5);
    Join(0x27d4_eb2f, 0x2590_ef45, 0x244_046a, 0x1, 0x0, 0x7, 0xd);
    Join(0x27_d4eb_2f17, 0x25_90ef_450d, 0x2_4404_6a1a, 0x8, 0xc, 0x9, 0xb);
    Join(0x27d4_eb2f_1789, 0x2590_ef45_0dcb, 0x244_046a_1a42, 0xb, 0x1, 0xb, 0x1);
    Join(0x27_d4eb_2f17_89bb, 0x25_90ef_450d_cb11, 0x2_4404_6a1a_42aa, 0xa, 0x0, 0xe, 0xa);
  }

  lemma Eight64At(h: UInt64, s: seq<Byte>, w: UInt64, k: UInt64, x: UInt64, y: UInt64, r: UInt64)
    requires ReadLE(s, 0, 8) == w && Round64(0, w) == k && x == Xor(h, k)
    requires y == W64(x * 0x800_0000 + x / 0x20_0000_0000) && r == W64(y * P64A + P64D)
    ensures Eight64(h, s) == r
  {
    PowersOfTwo();
    hide Pow2, Rotl64, ReadLE, Xor, Round64;
    Rotl64At(x, 27, 0x800_0000, 0x20_0000_0000);
  }

  lemma EightRound()
    ensures Round64(0, 0x6920_7964_6f62_6f4e) == 0x2590_ef45_0dcb_110a
  {
    hide Round64;
    Round64At(0x0, 0x6920_7964_6f62_6f4e, 0x6f0_6e4c_ca24_f312, 0x6f0_6e4c_ca24_f312, 0x6512_7989_0378_3726,
        0x2590_ef45_0dcb_110a);
  }

  lemma EightStep()
    ensures Eight64(0x27d4_eb2f_1789_bbae, Text[..8]) == 0xf795_d432_a8be_3ed8 && |Text[..8]| == 8
  {
    hide Eight64, ReadLE, Round64, Xor;
    TextLong0();
    ReadFront(Text, 8, 0, 8);
    EightRound();
    EightXor();
    Eight64At(0x27d4_eb2f_1789_bbae, Text[..8], 0x6920_7964_6f62_6f4e, 0x2590_ef45_0dcb_110a, 0x244_046a_1a42_aaa4,
        0x50d2_1555_2012_2023, 0xf795_d432_a8be_3ed8);
  }

  lemma EightMixFirst()
    ensures Xor(0xf795_d432_a8be_3ed8, 0x7bca_ea19) == 0xf795_d432_d374_d4c1
  {
    hide Xor;
    NothingCombined();
    Join(0x0, 0x0, 0x0, 0xf, 0x0, 0x7, 0x0);
    Join(0xf7, 0x0, 0xf7, 0x9, 0x0, 0x5, 0x0);
    Join(0xf795, 0x0, 0xf795, 0xd, 0x0, 0x4, 0x0);
    Join(0xf7_95d4, 0x0, 0xf7_95d4, 0x3, 0x0, 0x2, 0x0);
    Join(0xf795_d432, 0x0, 0xf795_d432, 0xa, 0x7, 0x8, 0xb);
    Join(0xf7_95d4_32a8, 0x7b, 0xf7_95d4_32d3, 0xb, 0xc, 0xe, 0xa);
    Join(0xf795_d432_a8be, 0x7bca, 0xf795_d432_d374, 0x3, 0xe, 0xe, 0xa);
    Join(0xf7_95d4_32a8_be3e, 0x7b_caea, 0xf7_95d4_32d3_74d4, 0xd, 0x1, 0x8, 0x9);
  }

  lemma EightMixSecond()
    ensures Xor(0x64f8_ecf2_172e_d28f, 0x3_27c7_6790) == 0x64f8_ecf1_30e9_b51f
  {
    hide Xor;
    NothingCombined();
    Join(0x0, 0x0, 0x0, 0x6, 0x0, 0x4, 0x0);
    Join(0x64, 0x0, 0x64, 0xf, 0x0, 0x8, 0x0);
    Join(0x64f8, 0x0, 0x64f8, 0xe, 0x0, 0xc, 0x0);
    Join(0x64_f8ec, 0x0, 0x64_f8ec, 0xf, 0x0, 0x2, 0x3);
    Join(0x64f8_ecf2, 0x3, 0x64f8_ecf1, 0x1, 0x2, 0x7, 0x7);
    Join(0x64_f8ec_f217, 0x327, 0x64_f8ec_f130, 0x2, 0xc, 0xe, 0x7);
    Join(0x64f8_ecf2_172e, 0x3_27c7, 0x64f8_ecf1_30e9, 0xd, 0x6, 0x2, 0x7);
    Join(0x64_f8ec_f217_2ed2, 0x327_c767, 0x64_f8ec_f130_e9b5, 0x8, 0x9, 0xf, 0x0);
  }

  lemma EightMixThird()
    ensures Xor(0xfdfd_ea25_1595_d227, 0xfdfd_ea25) == 0xfdfd_ea25_e868_3802
  {
    hide Xor;
    NothingCombined();
    Join(0x0, 0x0, 0x0, 0xf, 0x0, 0xd, 0x0);
    Join(0xfd, 0x0, 0xfd, 0xf, 0x0, 0xd, 0x0);
    Join(0xfdfd, 0x0, 0xfdfd, 0xe, 0x0, 0xa, 0x0);
    Join(0xfd_fdea, 0x0, 0xfd_fdea, 0x2, 0x0, 0x5, 0x0);
    Join(0xfdfd_ea25, 0x0, 0xfdfd_ea25, 0x1, 0xf, 0x5, 0xd);
    Join(0xfd_fdea_2515, 0xfd, 0xfd_fdea_25e8, 0x9, 0xf, 0x5, 0xd);
    Join(0xfdfd_ea25_1595, 0xfdfd, 0xfdfd_ea25_e868, 0xd, 0xe, 0x2, 0xa);
    Join(0xfd_fdea_2515_95d2, 0xfd_fdea, 0xfd_fdea_25e8_6838, 0x2, 0x2, 0x7, 0x5);
  }

  lemma EightMix()
    ensures Avalanche64(0xf795_d432_a8be_3ed8) == 0xfdfd_ea25_e868_3802
  {
    hide Xor, Avalanche64;
    EightMixFirst();
    EightMixSecond();
    EightMixThird();
    Avalanche64At(0xf795_d432_a8be_3ed8, 0xf795_d432_d374_d4c1, 0x64f8_ecf2_172e_d28f, 0x64f8_ecf1_30e9_b51f,
        0xfdfd_ea25_1595_d227, 0xfdfd_ea25_e868_3802);
  }

  /** XXH64 of the first 8 bytes. */
  lemma Eight()
    ensures Hash64(20141025, Text[..8]) == 0xfdfd_ea25_e868_3802
  {
    hide Eight64, Four64, One64, Avalanche64;
    EightStep();
    EightMix();
    LeftShort(Text[..8], 32);
    EightFinal(0x27d4_eb2f_1789_bbae, Text[..8]);
  }

  lemma EightFinal(h: UInt64, s: seq<Byte>)
    requires |s| == 8
    ensures Finalize64(h, s) == Avalanche64(Eight64(h, s))
  {
    hide Eight64, Four64, One64, Avalanche64;
    assert s[8..] == [];
  }
}
