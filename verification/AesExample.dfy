/** The cipher example of appendix B of FIPS 197, whose key is that of appendix A.1: each round key, each
    state and the output as they are printed there. The inverses that the proof names are checked by products in the field. */
module AesExample {
  import opened AesField
  import opened AesTables
  import opened Aes
  import opened AesBox
  import opened AesBytes

  const Key: seq<bv8> := [0x2B, 0x7E, 0x15, 0x16, 0x28, 0xAE, 0xD2, 0xA6, 0xAB, 0xF7, 0x15, 0x88, 0x09, 0xCF, 0x4F, 0x3C]
  const Input: seq<bv8> := [0x32, 0x43, 0xF6, 0xA8, 0x88, 0x5A, 0x30, 0x8D, 0x31, 0x31, 0x98, 0xA2, 0xE0, 0x37, 0x07, 0x34]

  /** Round key `i` is `k`. */
  ghost predicate KeyIs(i: nat, k: Block) {
    KeyWord(Key, 4 * i) == k.c0 && KeyWord(Key, 4 * i + 1) == k.c1 && KeyWord(Key, 4 * i + 2) == k.c2 && KeyWord(Key, 4 * i + 3) == k.c3
  }

  /** The round key after `k`, given the substituted and rotated last word and the constant. */
  function Next(k: Block, s: Word, rcon: bv8): Block {
    var a := k.c0.Xor(s.Xor(Word(rcon, 0, 0, 0)));
    var b := k.c1.Xor(a);
    var c := k.c2.Xor(b);
    Block(a, b, c, k.c3.Xor(c))
  }

  lemma KeyNext(i: nat, k: Block, s: Word, next: Block)
    requires KeyIs(i, k) && s == SubWord(RotWord(k.c3)) && next == Next(k, s, Rcon(i))
    ensures KeyIs(i + 1, next)
  {
    hide Sub, Add, Rcon, KeyWord, SubWord, RotWord;
    FirstOfFour(i);
    Others(4 * i + 5);
    Others(4 * i + 6);
    Others(4 * i + 7);
  }

  lemma FirstOfFour(i: nat)
    ensures KeyWord(Key, 4 * i + 4) == KeyWord(Key, 4 * i).Xor(SubWord(RotWord(KeyWord(Key, 4 * i + 3))).Xor(Word(Rcon(i), 0, 0, 0)))
  {
    hide SubWord, RotWord, Rcon, Word.Xor;
    var n := 4 * i + 4;
    assert |Key| / 4 == 4 && n % 4 == 0 && n / 4 - 1 == i;
  }

  lemma Others(n: nat)
    requires n > 4 && n % 4 != 0
    ensures KeyWord(Key, n) == KeyWord(Key, n - 4).Xor(KeyWord(Key, n - 1))
  {
    hide SubWord, RotWord, Rcon, Word.Xor;
    assert |Key| / 4 == 4;
  }

  lemma Constants()
    ensures Rcon(0) == 0x01 && Rcon(1) == 0x02 && Rcon(2) == 0x04 && Rcon(3) == 0x08 && Rcon(4) == 0x10 && Rcon(5) == 0x20 && Rcon(6) == 0x40 && Rcon(7) == 0x80 && Rcon(8) == 0x1B && Rcon(9) == 0x36
  {
    assert Rcon(2) == Xt(Rcon(1));
    assert Rcon(4) == Xt(Rcon(3));
    assert Rcon(6) == Xt(Rcon(5));
    assert Rcon(8) == Xt(Rcon(7));
  }

  lemma Key0()
    ensures KeyIs(0, Block(Word(0x2B, 0x7E, 0x15, 0x16), Word(0x28, 0xAE, 0xD2, 0xA6), Word(0xAB, 0xF7, 0x15, 0x88), Word(0x09, 0xCF, 0x4F, 0x3C)))
  {
  }

  lemma Key1()
    ensures KeyIs(1, Block(Word(0xA0, 0xFA, 0xFE, 0x17), Word(0x88, 0x54, 0x2C, 0xB1), Word(0x23, 0xA3, 0x39, 0x39), Word(0x2A, 0x6C, 0x76, 0x05)))
  {
    hide Sub, SubWord, KeyIs, Rcon;
    Key0();
    Constants();
    Turned1();
    KeyNext(0, Block(Word(0x2B, 0x7E, 0x15, 0x16), Word(0x28, 0xAE, 0xD2, 0xA6), Word(0xAB, 0xF7, 0x15, 0x88), Word(0x09, 0xCF, 0x4F, 0x3C)),
            Word(0x8A, 0x84, 0xEB, 0x01), Block(Word(0xA0, 0xFA, 0xFE, 0x17), Word(0x88, 0x54, 0x2C, 0xB1), Word(0x23, 0xA3, 0x39, 0x39), Word(0x2A, 0x6C, 0x76, 0x05)));
  }

  lemma Turned1()
    ensures SubWord(Word(0xCF, 0x4F, 0x3C, 0x09)) == Word(0x8A, 0x84, 0xEB, 0x01)
  {
    hide Sub;
    Figure7();
  }

  lemma Key2()
    ensures KeyIs(2, Block(Word(0xF2, 0xC2, 0x95, 0xF2), Word(0x7A, 0x96, 0xB9, 0x43), Word(0x59, 0x35, 0x80, 0x7A), Word(0x73, 0x59, 0xF6, 0x7F)))
  {
    hide Sub, SubWord, KeyIs, Rcon;
    Key1();
    Constants();
    Turned2();
    KeyNext(1, Block(Word(0xA0, 0xFA, 0xFE, 0x17), Word(0x88, 0x54, 0x2C, 0xB1), Word(0x23, 0xA3, 0x39, 0x39), Word(0x2A, 0x6C, 0x76, 0x05)),
            Word(0x50, 0x38, 0x6B, 0xE5), Block(Word(0xF2, 0xC2, 0x95, 0xF2), Word(0x7A, 0x96, 0xB9, 0x43), Word(0x59, 0x35, 0x80, 0x7A), Word(0x73, 0x59, 0xF6, 0x7F)));
  }

  lemma Turned2()
    ensures SubWord(Word(0x6C, 0x76, 0x05, 0x2A)) == Word(0x50, 0x38, 0x6B, 0xE5)
  {
    hide Sub;
    Figure7();
  }

  lemma Key3()
    ensures KeyIs(3, Block(Word(0x3D, 0x80, 0x47, 0x7D), Word(0x47, 0x16, 0xFE, 0x3E), Word(0x1E, 0x23, 0x7E, 0x44), Word(0x6D, 0x7A, 0x88, 0x3B)))
  {
    hide Sub, SubWord, KeyIs, Rcon;
    Key2();
    Constants();
    Turned3();
    KeyNext(2, Block(Word(0xF2, 0xC2, 0x95, 0xF2), Word(0x7A, 0x96, 0xB9, 0x43), Word(0x59, 0x35, 0x80, 0x7A), Word(0x73, 0x59, 0xF6, 0x7F)),
            Word(0xCB, 0x42, 0xD2, 0x8F), Block(Word(0x3D, 0x80, 0x47, 0x7D), Word(0x47, 0x16, 0xFE, 0x3E), Word(0x1E, 0x23, 0x7E, 0x44), Word(0x6D, 0x7A, 0x88, 0x3B)));
  }

  lemma Turned3()
    ensures SubWord(Word(0x59, 0xF6, 0x7F, 0x73)) == Word(0xCB, 0x42, 0xD2, 0x8F)
  {
    hide Sub;
    Figure7();
  }

  lemma Key4()
    ensures KeyIs(4, Block(Word(0xEF, 0x44, 0xA5, 0x41), Word(0xA8, 0x52, 0x5B, 0x7F), Word(0xB6, 0x71, 0x25, 0x3B), Word(0xDB, 0x0B, 0xAD, 0x00)))
  {
    hide Sub, SubWord, KeyIs, Rcon;
    Key3();
    Constants();
    Turned4();
    KeyNext(3, Block(Word(0x3D, 0x80, 0x47, 0x7D), Word(0x47, 0x16, 0xFE, 0x3E), Word(0x1E, 0x23, 0x7E, 0x44), Word(0x6D, 0x7A, 0x88, 0x3B)),
            Word(0xDA, 0xC4, 0xE2, 0x3C), Block(Word(0xEF, 0x44, 0xA5, 0x41), Word(0xA8, 0x52, 0x5B, 0x7F), Word(0xB6, 0x71, 0x25, 0x3B), Word(0xDB, 0x0B, 0xAD, 0x00)));
  }

  lemma Turned4()
    ensures SubWord(Word(0x7A, 0x88, 0x3B, 0x6D)) == Word(0xDA, 0xC4, 0xE2, 0x3C)
  {
    hide Sub;
    Figure7();
  }

  lemma Key5()
    ensures KeyIs(5, Block(Word(0xD4, 0xD1, 0xC6, 0xF8), Word(0x7C, 0x83, 0x9D, 0x87), Word(0xCA, 0xF2, 0xB8, 0xBC), Word(0x11, 0xF9, 0x15, 0xBC)))
  {
    hide Sub, SubWord, KeyIs, Rcon;
    Key4();
    Constants();
    Turned5();
    KeyNext(4, Block(Word(0xEF, 0x44, 0xA5, 0x41), Word(0xA8, 0x52, 0x5B, 0x7F), Word(0xB6, 0x71, 0x25, 0x3B), Word(0xDB, 0x0B, 0xAD, 0x00)),
            Word(0x2B, 0x95, 0x63, 0xB9), Block(Word(0xD4, 0xD1, 0xC6, 0xF8), Word(0x7C, 0x83, 0x9D, 0x87), Word(0xCA, 0xF2, 0xB8, 0xBC), Word(0x11, 0xF9, 0x15, 0xBC)));
  }

  lemma Turned5()
    ensures SubWord(Word(0x0B, 0xAD, 0x00, 0xDB)) == Word(0x2B, 0x95, 0x63, 0xB9)
  {
    hide Sub;
    Figure7();
  }

  lemma Key6()
    ensures KeyIs(6, Block(Word(0x6D, 0x88, 0xA3, 0x7A), Word(0x11, 0x0B, 0x3E, 0xFD), Word(0xDB, 0xF9, 0x86, 0x41), Word(0xCA, 0x00, 0x93, 0xFD)))
  {
    hide Sub, SubWord, KeyIs, Rcon;
    Key5();
    Constants();
    Turned6();
    KeyNext(5, Block(Word(0xD4, 0xD1, 0xC6, 0xF8), Word(0x7C, 0x83, 0x9D, 0x87), Word(0xCA, 0xF2, 0xB8, 0xBC), Word(0x11, 0xF9, 0x15, 0xBC)),
            Word(0x99, 0x59, 0x65, 0x82), Block(Word(0x6D, 0x88, 0xA3, 0x7A), Word(0x11, 0x0B, 0x3E, 0xFD), Word(0xDB, 0xF9, 0x86, 0x41), Word(0xCA, 0x00, 0x93, 0xFD)));
  }

  lemma Turned6()
    ensures SubWord(Word(0xF9, 0x15, 0xBC, 0x11)) == Word(0x99, 0x59, 0x65, 0x82)
  {
    hide Sub;
    Figure7();
  }

  lemma Key7()
    ensures KeyIs(7, Block(Word(0x4E, 0x54, 0xF7, 0x0E), Word(0x5F, 0x5F, 0xC9, 0xF3), Word(0x84, 0xA6, 0x4F, 0xB2), Word(0x4E, 0xA6, 0xDC, 0x4F)))
  {
    hide Sub, SubWord, KeyIs, Rcon;
    Key6();
    Constants();
    Turned7();
    KeyNext(6, Block(Word(0x6D, 0x88, 0xA3, 0x7A), Word(0x11, 0x0B, 0x3E, 0xFD), Word(0xDB, 0xF9, 0x86, 0x41), Word(0xCA, 0x00, 0x93, 0xFD)),
            Word(0x63, 0xDC, 0x54, 0x74), Block(Word(0x4E, 0x54, 0xF7, 0x0E), Word(0x5F, 0x5F, 0xC9, 0xF3), Word(0x84, 0xA6, 0x4F, 0xB2), Word(0x4E, 0xA6, 0xDC, 0x4F)));
  }

  lemma Turned7()
    ensures SubWord(Word(0x00, 0x93, 0xFD, 0xCA)) == Word(0x63, 0xDC, 0x54, 0x74)
  {
    hide Sub;
    Figure7();
  }

  lemma Key8()
    ensures KeyIs(8, Block(Word(0xEA, 0xD2, 0x73, 0x21), Word(0xB5, 0x8D, 0xBA, 0xD2), Word(0x31, 0x2B, 0xF5, 0x60), Word(0x7F, 0x8D, 0x29, 0x2F)))
  {
    hide Sub, SubWord, KeyIs, Rcon;
    Key7();
    Constants();
    Turned8();
    KeyNext(7, Block(Word(0x4E, 0x54, 0xF7, 0x0E), Word(0x5F, 0x5F, 0xC9, 0xF3), Word(0x84, 0xA6, 0x4F, 0xB2), Word(0x4E, 0xA6, 0xDC, 0x4F)),
            Word(0x24, 0x86, 0x84, 0x2F), Block(Word(0xEA, 0xD2, 0x73, 0x21), Word(0xB5, 0x8D, 0xBA, 0xD2), Word(0x31, 0x2B, 0xF5, 0x60), Word(0x7F, 0x8D, 0x29, 0x2F)));
  }

  lemma Turned8()
    ensures SubWord(Word(0xA6, 0xDC, 0x4F, 0x4E)) == Word(0x24, 0x86, 0x84, 0x2F)
  {
    hide Sub;
    Figure7();
  }

  lemma Key9()
    ensures KeyIs(9, Block(Word(0xAC, 0x77, 0x66, 0xF3), Word(0x19, 0xFA, 0xDC, 0x21), Word(0x28, 0xD1, 0x29, 0x41), Word(0x57, 0x5C, 0x00, 0x6E)))
  {
    hide Sub, SubWord, KeyIs, Rcon;
    Key8();
    Constants();
    Turned9();
    KeyNext(8, Block(Word(0xEA, 0xD2, 0x73, 0x21), Word(0xB5, 0x8D, 0xBA, 0xD2), Word(0x31, 0x2B, 0xF5, 0x60), Word(0x7F, 0x8D, 0x29, 0x2F)),
            Word(0x5D, 0xA5, 0x15, 0xD2), Block(Word(0xAC, 0x77, 0x66, 0xF3), Word(0x19, 0xFA, 0xDC, 0x21), Word(0x28, 0xD1, 0x29, 0x41), Word(0x57, 0x5C, 0x00, 0x6E)));
  }

  lemma Turned9()
    ensures SubWord(Word(0x8D, 0x29, 0x2F, 0x7F)) == Word(0x5D, 0xA5, 0x15, 0xD2)
  {
    hide Sub;
    Figure7();
  }

  lemma Key10()
    ensures KeyIs(10, Block(Word(0xD0, 0x14, 0xF9, 0xA8), Word(0xC9, 0xEE, 0x25, 0x89), Word(0xE1, 0x3F, 0x0C, 0xC8), Word(0xB6, 0x63, 0x0C, 0xA6)))
  {
    hide Sub, SubWord, KeyIs, Rcon;
    Key9();
    Constants();
    Turned10();
    KeyNext(9, Block(Word(0xAC, 0x77, 0x66, 0xF3), Word(0x19, 0xFA, 0xDC, 0x21), Word(0x28, 0xD1, 0x29, 0x41), Word(0x57, 0x5C, 0x00, 0x6E)),
            Word(0x4A, 0x63, 0x9F, 0x5B), Block(Word(0xD0, 0x14, 0xF9, 0xA8), Word(0xC9, 0xEE, 0x25, 0x89), Word(0xE1, 0x3F, 0x0C, 0xC8), Word(0xB6, 0x63, 0x0C, 0xA6)));
  }

  lemma Turned10()
    ensures SubWord(Word(0x5C, 0x00, 0x6E, 0x57)) == Word(0x4A, 0x63, 0x9F, 0x5B)
  {
    hide Sub;
    Figure7();
  }

  // ----- The states -----

  ghost function State(j: nat): Block
    requires j < 11
  {
    KeysLength(Key);
    Rounds(EncKeys(Key), LoadBlock(Input), j)
  }

  lemma KeyOf(i: nat, k: Block)
    requires KeyIs(i, k) && i <= 10
    ensures |EncKeys(Key)| == 11 && EncKeys(Key)[i] == k
  {
    hide KeyWord;
  }

  /** One round from the state `s`. */
  lemma NextState(j: nat, s: Block, t: Block, k: Block)
    requires 1 <= j <= 9 && State(j - 1) == s && KeyIs(j, k) && SubShift(s) == t
    ensures State(j) == MixColumns(t).Xor(k)
  {
    hide EncKeys, LoadBlock, SubShift, MixColumns, Block.Xor, KeyIs;
    KeyOf(j, k);
  }

  lemma State0()
    ensures State(0) == Block(Word(0x19, 0x3D, 0xE3, 0xBE), Word(0xA0, 0xF4, 0xE2, 0x2B), Word(0x9A, 0xC6, 0x8D, 0x2A), Word(0xE9, 0xF8, 0x48, 0x08))
  {
    hide EncKeys, KeyIs;
    Key0();
    KeyOf(0, Block(Word(0x2B, 0x7E, 0x15, 0x16), Word(0x28, 0xAE, 0xD2, 0xA6), Word(0xAB, 0xF7, 0x15, 0x88), Word(0x09, 0xCF, 0x4F, 0x3C)));
  }

  lemma State1()
    ensures State(1) == Block(Word(0xA4, 0x9C, 0x7F, 0xF2), Word(0x68, 0x9F, 0x35, 0x2B), Word(0x6B, 0x5B, 0xEA, 0x43), Word(0x02, 0x6A, 0x50, 0x49))
  {
    Sub1();
    hide State, KeyIs, SubShift, EncKeys, Sub;
    State0();
    Key1();
    NextState(1, Block(Word(0x19, 0x3D, 0xE3, 0xBE), Word(0xA0, 0xF4, 0xE2, 0x2B), Word(0x9A, 0xC6, 0x8D, 0x2A), Word(0xE9, 0xF8, 0x48, 0x08)),
              Block(Word(0xD4, 0xBF, 0x5D, 0x30), Word(0xE0, 0xB4, 0x52, 0xAE), Word(0xB8, 0x41, 0x11, 0xF1), Word(0x1E, 0x27, 0x98, 0xE5)),
              Block(Word(0xA0, 0xFA, 0xFE, 0x17), Word(0x88, 0x54, 0x2C, 0xB1), Word(0x23, 0xA3, 0x39, 0x39), Word(0x2A, 0x6C, 0x76, 0x05)));
  }

  lemma Sub1()
    ensures SubShift(Block(Word(0x19, 0x3D, 0xE3, 0xBE), Word(0xA0, 0xF4, 0xE2, 0x2B), Word(0x9A, 0xC6, 0x8D, 0x2A), Word(0xE9, 0xF8, 0x48, 0x08))) ==
            Block(Word(0xD4, 0xBF, 0x5D, 0x30), Word(0xE0, 0xB4, 0x52, 0xAE), Word(0xB8, 0x41, 0x11, 0xF1), Word(0x1E, 0x27, 0x98, 0xE5))
  {
    hide Sub;
    Figure7();
  }

  lemma State2()
    ensures State(2) == Block(Word(0xAA, 0x8F, 0x5F, 0x03), Word(0x61, 0xDD, 0xE3, 0xEF), Word(0x82, 0xD2, 0x4A, 0xD2), Word(0x68, 0x32, 0x46, 0x9A))
  {
    Sub2();
    hide State, KeyIs, SubShift, EncKeys, Sub;
    State1();
    Key2();
    NextState(2, Block(Word(0xA4, 0x9C, 0x7F, 0xF2), Word(0x68, 0x9F, 0x35, 0x2B), Word(0x6B, 0x5B, 0xEA, 0x43), Word(0x02, 0x6A, 0x50, 0x49)),
              Block(Word(0x49, 0xDB, 0x87, 0x3B), Word(0x45, 0x39, 0x53, 0x89), Word(0x7F, 0x02, 0xD2, 0xF1), Word(0x77, 0xDE, 0x96, 0x1A)),
              Block(Word(0xF2, 0xC2, 0x95, 0xF2), Word(0x7A, 0x96, 0xB9, 0x43), Word(0x59, 0x35, 0x80, 0x7A), Word(0x73, 0x59, 0xF6, 0x7F)));
  }

  lemma Sub2()
    ensures SubShift(Block(Word(0xA4, 0x9C, 0x7F, 0xF2), Word(0x68, 0x9F, 0x35, 0x2B), Word(0x6B, 0x5B, 0xEA, 0x43), Word(0x02, 0x6A, 0x50, 0x49))) ==
            Block(Word(0x49, 0xDB, 0x87, 0x3B), Word(0x45, 0x39, 0x53, 0x89), Word(0x7F, 0x02, 0xD2, 0xF1), Word(0x77, 0xDE, 0x96, 0x1A))
  {
    hide Sub;
    Figure7();
  }

  lemma State3()
    ensures State(3) == Block(Word(0x48, 0x6C, 0x4E, 0xEE), Word(0x67, 0x1D, 0x9D, 0x0D), Word(0x4D, 0xE3, 0xB1, 0x38), Word(0xD6, 0x5F, 0x58, 0xE7))
  {
    Sub3();
    hide State, KeyIs, SubShift, EncKeys, Sub;
    State2();
    Key3();
    NextState(3, Block(Word(0xAA, 0x8F, 0x5F, 0x03), Word(0x61, 0xDD, 0xE3, 0xEF), Word(0x82, 0xD2, 0x4A, 0xD2), Word(0x68, 0x32, 0x46, 0x9A)),
              Block(Word(0xAC, 0xC1, 0xD6, 0xB8), Word(0xEF, 0xB5, 0x5A, 0x7B), Word(0x13, 0x23, 0xCF, 0xDF), Word(0x45, 0x73, 0x11, 0xB5)),
              Block(Word(0x3D, 0x80, 0x47, 0x7D), Word(0x47, 0x16, 0xFE, 0x3E), Word(0x1E, 0x23, 0x7E, 0x44), Word(0x6D, 0x7A, 0x88, 0x3B)));
  }

  lemma Sub3()
    ensures SubShift(Block(Word(0xAA, 0x8F, 0x5F, 0x03), Word(0x61, 0xDD, 0xE3, 0xEF), Word(0x82, 0xD2, 0x4A, 0xD2), Word(0x68, 0x32, 0x46, 0x9A))) ==
            Block(Word(0xAC, 0xC1, 0xD6, 0xB8), Word(0xEF, 0xB5, 0x5A, 0x7B), Word(0x13, 0x23, 0xCF, 0xDF), Word(0x45, 0x73, 0x11, 0xB5))
  {
    hide Sub;
    Figure7();
  }

  lemma State4()
    ensures State(4) == Block(Word(0xE0, 0x92, 0x7F, 0xE8), Word(0xC8, 0x63, 0x63, 0xC0), Word(0xD9, 0xB1, 0x35, 0x50), Word(0x85, 0xB8, 0xBE, 0x01))
  {
    Sub4();
    hide State, KeyIs, SubShift, EncKeys, Sub;
    State3();
    Key4();
    NextState(4, Block(Word(0x48, 0x6C, 0x4E, 0xEE), Word(0x67, 0x1D, 0x9D, 0x0D), Word(0x4D, 0xE3, 0xB1, 0x38), Word(0xD6, 0x5F, 0x58, 0xE7)),
              Block(Word(0x52, 0xA4, 0xC8, 0x94), Word(0x85, 0x11, 0x6A, 0x28), Word(0xE3, 0xCF, 0x2F, 0xD7), Word(0xF6, 0x50, 0x5E, 0x07)),
              Block(Word(0xEF, 0x44, 0xA5, 0x41), Word(0xA8, 0x52, 0x5B, 0x7F), Word(0xB6, 0x71, 0x25, 0x3B), Word(0xDB, 0x0B, 0xAD, 0x00)));
  }

  lemma Sub4()
    ensures SubShift(Block(Word(0x48, 0x6C, 0x4E, 0xEE), Word(0x67, 0x1D, 0x9D, 0x0D), Word(0x4D, 0xE3, 0xB1, 0x38), Word(0xD6, 0x5F, 0x58, 0xE7))) ==
            Block(Word(0x52, 0xA4, 0xC8, 0x94), Word(0x85, 0x11, 0x6A, 0x28), Word(0xE3, 0xCF, 0x2F, 0xD7), Word(0xF6, 0x50, 0x5E, 0x07))
  {
    hide Sub;
    Figure7();
  }

  lemma State5()
    ensures State(5) == Block(Word(0xF1, 0x00, 0x6F, 0x55), Word(0xC1, 0x92, 0x4C, 0xEF), Word(0x7C, 0xC8, 0x8B, 0x32), Word(0x5D, 0xB5, 0xD5, 0x0C))
  {
    Sub5();
    hide State, KeyIs, SubShift, EncKeys, Sub;
    State4();
    Key5();
    NextState(5, Block(Word(0xE0, 0x92, 0x7F, 0xE8), Word(0xC8, 0x63, 0x63, 0xC0), Word(0xD9, 0xB1, 0x35, 0x50), Word(0x85, 0xB8, 0xBE, 0x01)),
              Block(Word(0xE1, 0xFB, 0x96, 0x7C), Word(0xE8, 0xC8, 0xAE, 0x9B), Word(0x35, 0x6C, 0xD2, 0xBA), Word(0x97, 0x4F, 0xFB, 0x53)),
              Block(Word(0xD4, 0xD1, 0xC6, 0xF8), Word(0x7C, 0x83, 0x9D, 0x87), Word(0xCA, 0xF2, 0xB8, 0xBC), Word(0x11, 0xF9, 0x15, 0xBC)));
  }

  lemma Sub5()
    ensures SubShift(Block(Word(0xE0, 0x92, 0x7F, 0xE8), Word(0xC8, 0x63, 0x63, 0xC0), Word(0xD9, 0xB1, 0x35, 0x50), Word(0x85, 0xB8, 0xBE, 0x01))) ==
            Block(Word(0xE1, 0xFB, 0x96, 0x7C), Word(0xE8, 0xC8, 0xAE, 0x9B), Word(0x35, 0x6C, 0xD2, 0xBA), Word(0x97, 0x4F, 0xFB, 0x53))
  {
    hide Sub;
    Figure7();
  }

  lemma State6()
    ensures State(6) == Block(Word(0x26, 0x0E, 0x2E, 0x17), Word(0x3D, 0x41, 0xB7, 0x7D), Word(0xE8, 0x64, 0x72, 0xA9), Word(0xFD, 0xD2, 0x8B, 0x25))
  {
    Sub6();
    hide State, KeyIs, SubShift, EncKeys, Sub;
    State5();
    Key6();
    NextState(6, Block(Word(0xF1, 0x00, 0x6F, 0x55), Word(0xC1, 0x92, 0x4C, 0xEF), Word(0x7C, 0xC8, 0x8B, 0x32), Word(0x5D, 0xB5, 0xD5, 0x0C)),
              Block(Word(0xA1, 0x4F, 0x3D, 0xFE), Word(0x78, 0xE8, 0x03, 0xFC), Word(0x10, 0xD5, 0xA8, 0xDF), Word(0x4C, 0x63, 0x29, 0x23)),
              Block(Word(0x6D, 0x88, 0xA3, 0x7A), Word(0x11, 0x0B, 0x3E, 0xFD), Word(0xDB, 0xF9, 0x86, 0x41), Word(0xCA, 0x00, 0x93, 0xFD)));
  }

  lemma Sub6()
    ensures SubShift(Block(Word(0xF1, 0x00, 0x6F, 0x55), Word(0xC1, 0x92, 0x4C, 0xEF), Word(0x7C, 0xC8, 0x8B, 0x32), Word(0x5D, 0xB5, 0xD5, 0x0C))) ==
            Block(Word(0xA1, 0x4F, 0x3D, 0xFE), Word(0x78, 0xE8, 0x03, 0xFC), Word(0x10, 0xD5, 0xA8, 0xDF), Word(0x4C, 0x63, 0x29, 0x23))
  {
    hide Sub;
    Figure7();
  }

  lemma State7()
    ensures State(7) == Block(Word(0x5A, 0x41, 0x42, 0xB1), Word(0x19, 0x49, 0xDC, 0x1F), Word(0xA3, 0xE0, 0x19, 0x65), Word(0x7A, 0x8C, 0x04, 0x0C))
  {
    Sub7();
    hide State, KeyIs, SubShift, EncKeys, Sub;
    State6();
    Key7();
    NextState(7, Block(Word(0x26, 0x0E, 0x2E, 0x17), Word(0x3D, 0x41, 0xB7, 0x7D), Word(0xE8, 0x64, 0x72, 0xA9), Word(0xFD, 0xD2, 0x8B, 0x25)),
              Block(Word(0xF7, 0x83, 0x40, 0x3F), Word(0x27, 0x43, 0x3D, 0xF0), Word(0x9B, 0xB5, 0x31, 0xFF), Word(0x54, 0xAB, 0xA9, 0xD3)),
              Block(Word(0x4E, 0x54, 0xF7, 0x0E), Word(0x5F, 0x5F, 0xC9, 0xF3), Word(0x84, 0xA6, 0x4F, 0xB2), Word(0x4E, 0xA6, 0xDC, 0x4F)));
  }

  lemma Sub7()
    ensures SubShift(Block(Word(0x26, 0x0E, 0x2E, 0x17), Word(0x3D, 0x41, 0xB7, 0x7D), Word(0xE8, 0x64, 0x72, 0xA9), Word(0xFD, 0xD2, 0x8B, 0x25))) ==
            Block(Word(0xF7, 0x83, 0x40, 0x3F), Word(0x27, 0x43, 0x3D, 0xF0), Word(0x9B, 0xB5, 0x31, 0xFF), Word(0x54, 0xAB, 0xA9, 0xD3))
  {
    hide Sub;
    Figure7();
  }

  lemma State8()
    ensures State(8) == Block(Word(0xEA, 0x83, 0x5C, 0xF0), Word(0x04, 0x45, 0x33, 0x2D), Word(0x65, 0x5D, 0x98, 0xAD), Word(0x85, 0x96, 0xB0, 0xC5))
  {
    Sub8();
    hide State, KeyIs, SubShift, EncKeys, Sub;
    State7();
    Key8();
    NextState(8, Block(Word(0x5A, 0x41, 0x42, 0xB1), Word(0x19, 0x49, 0xDC, 0x1F), Word(0xA3, 0xE0, 0x19, 0x65), Word(0x7A, 0x8C, 0x04, 0x0C)),
              Block(Word(0xBE, 0x3B, 0xD4, 0xFE), Word(0xD4, 0xE1, 0xF2, 0xC8), Word(0x0A, 0x64, 0x2C, 0xC0), Word(0xDA, 0x83, 0x86, 0x4D)),
              Block(Word(0xEA, 0xD2, 0x73, 0x21), Word(0xB5, 0x8D, 0xBA, 0xD2), Word(0x31, 0x2B, 0xF5, 0x60), Word(0x7F, 0x8D, 0x29, 0x2F)));
  }

  lemma Sub8()
    ensures SubShift(Block(Word(0x5A, 0x41, 0x42, 0xB1), Word(0x19, 0x49, 0xDC, 0x1F), Word(0xA3, 0xE0, 0x19, 0x65), Word(0x7A, 0x8C, 0x04, 0x0C))) ==
            Block(Word(0xBE, 0x3B, 0xD4, 0xFE), Word(0xD4, 0xE1, 0xF2, 0xC8), Word(0x0A, 0x64, 0x2C, 0xC0), Word(0xDA, 0x83, 0x86, 0x4D))
  {
    hide Sub;
    Figure7();
  }

  lemma State9()
    ensures State(9) == Block(Word(0xEB, 0x40, 0xF2, 0x1E), Word(0x59, 0x2E, 0x38, 0x84), Word(0x8B, 0xA1, 0x13, 0xE7), Word(0x1B, 0xC3, 0x42, 0xD2))
  {
    Sub9();
    hide State, KeyIs, SubShift, EncKeys, Sub;
    State8();
    Key9();
    NextState(9, Block(Word(0xEA, 0x83, 0x5C, 0xF0), Word(0x04, 0x45, 0x33, 0x2D), Word(0x65, 0x5D, 0x98, 0xAD), Word(0x85, 0x96, 0xB0, 0xC5)),
              Block(Word(0x87, 0x6E, 0x46, 0xA6), Word(0xF2, 0x4C, 0xE7, 0x8C), Word(0x4D, 0x90, 0x4A, 0xD8), Word(0x97, 0xEC, 0xC3, 0x95)),
              Block(Word(0xAC, 0x77, 0x66, 0xF3), Word(0x19, 0xFA, 0xDC, 0x21), Word(0x28, 0xD1, 0x29, 0x41), Word(0x57, 0x5C, 0x00, 0x6E)));
  }

  lemma Sub9()
    ensures SubShift(Block(Word(0xEA, 0x83, 0x5C, 0xF0), Word(0x04, 0x45, 0x33, 0x2D), Word(0x65, 0x5D, 0x98, 0xAD), Word(0x85, 0x96, 0xB0, 0xC5))) ==
            Block(Word(0x87, 0x6E, 0x46, 0xA6), Word(0xF2, 0x4C, 0xE7, 0x8C), Word(0x4D, 0x90, 0x4A, 0xD8), Word(0x97, 0xEC, 0xC3, 0x95))
  {
    hide Sub;
    Figure7();
  }

  lemma Sub10()
    ensures SubShift(Block(Word(0xEB, 0x40, 0xF2, 0x1E), Word(0x59, 0x2E, 0x38, 0x84), Word(0x8B, 0xA1, 0x13, 0xE7), Word(0x1B, 0xC3, 0x42, 0xD2))) ==
            Block(Word(0xE9, 0x31, 0x7D, 0xB5), Word(0xCB, 0x32, 0x2C, 0x72), Word(0x3D, 0x2E, 0x89, 0x5F), Word(0xAF, 0x09, 0x07, 0x94))
  {
    hide Sub;
    Figure7();
  }

  /** The output of the example. */
  lemma Output()
    ensures CipherOutput(Key, Input) == [0x39, 0x25, 0x84, 0x1D, 0x02, 0xDC, 0x09, 0xFB, 0xDC, 0x11, 0x85, 0x97, 0x19, 0x6A, 0x0B, 0x32]
  {
    hide CipherOutput, State, KeyIs, SubShift, EncKeys, LoadBlock, Ciphered, StoreBlock;
    State9();
    Sub10();
    Key10();
    KeyOf(10, Block(Word(0xD0, 0x14, 0xF9, 0xA8), Word(0xC9, 0xEE, 0x25, 0x89), Word(0xE1, 0x3F, 0x0C, 0xC8), Word(0xB6, 0x63, 0x0C, 0xA6)));
    LastState(Block(Word(0xE9, 0x31, 0x7D, 0xB5), Word(0xCB, 0x32, 0x2C, 0x72), Word(0x3D, 0x2E, 0x89, 0x5F), Word(0xAF, 0x09, 0x07, 0x94)), Block(Word(0xD0, 0x14, 0xF9, 0xA8), Word(0xC9, 0xEE, 0x25, 0x89), Word(0xE1, 0x3F, 0x0C, 0xC8), Word(0xB6, 0x63, 0x0C, 0xA6)));
    CipherBytes(Key, Input);
    Stored(Block(Word(0x39, 0x25, 0x84, 0x1D), Word(0x02, 0xDC, 0x09, 0xFB), Word(0xDC, 0x11, 0x85, 0x97), Word(0x19, 0x6A, 0x0B, 0x32)));
  }

  lemma LastState(t: Block, k: Block)
    requires SubShift(State(9)) == t && |EncKeys(Key)| == 11 && EncKeys(Key)[10] == k
    ensures Ciphered(Key, Input) == t.Xor(k)
  {
    hide EncKeys, LoadBlock, SubShift, Block.Xor;
  }

  lemma Stored(b: Block)
    ensures StoreBlock(b) == [b.c0.b0, b.c0.b1, b.c0.b2, b.c0.b3, b.c1.b0, b.c1.b1, b.c1.b2, b.c1.b3,
                              b.c2.b0, b.c2.b1, b.c2.b2, b.c2.b3, b.c3.b0, b.c3.b1, b.c3.b2, b.c3.b3]
  {
  }

  /** The first expanded word of appendix A.1. */
  lemma FirstExpanded()
    ensures KeyWord(Key, 4) == Word(0xA0, 0xFA, 0xFE, 0x17)
  {
    Key1();
  }
}
