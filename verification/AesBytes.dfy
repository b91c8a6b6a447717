/** The cipher of FIPS 197 byte by byte: what the words and blocks of `Aes` hold, in the indices of the standard and
    with the product of the field. */
module AesBytes {
  import opened AesField
  import opened AesTables
  import opened Aes

  /** Byte `r` of a word, and byte `n` of a block, which is the one in row `n % 4` and column `n / 4`. */
  function ByteAt(w: Word, r: nat): bv8 {
    if r == 0 then w.b0 else if r == 1 then w.b1 else if r == 2 then w.b2 else w.b3
  }

  function StateAt(s: Block, n: nat): bv8 {
    ByteAt(if n / 4 == 0 then s.c0 else if n / 4 == 1 then s.c1 else if n / 4 == 2 then s.c2 else s.c3, n % 4)
  }

  // ----- Key expansion -----

  /** 2 to the power of `n` in the field. */
  function PowerOf2(n: nat): bv8 { if n == 0 then 1 else FieldProduct(2, PowerOf2(n - 1)) }

  /** Byte `n` of the expanded key (section 5.2). */
  ghost function KeyByte(key: seq<bv8>, n: nat): bv8
    requires |key| in {16, 24, 32}
  {
    if n < |key| then key[n]
    else
      var (i, j, nk) := (n / 4, n % 4, |key| / 4);
      var t := if i % nk == 0 then Add(Sub(KeyByte(key, 4 * (i - 1) + (j + 1) % 4)), if j == 0 then PowerOf2(i / nk - 1) else 0)
               else if nk == 8 && i % 8 == 4 then Sub(KeyByte(key, n - 4))
               else KeyByte(key, n - 4);
      Add(KeyByte(key, n - |key|), t)
  }

  lemma {:induction false} RconPower(n: nat)
    ensures Rcon(n) == PowerOf2(n)
  {
    hide FieldProduct, Xt;
    if n > 0 {
      RconPower(n - 1);
      DoubleProduct(PowerOf2(n - 1));
    } else {
    }
  }

  /** Products with the factors of the matrix of MixColumns. */
  lemma DoubleProduct(x: bv8)
    ensures FieldProduct(2, x) == Xt(x) && FieldProduct(3, x) == M3(x)
  {
    hide Add, Xt, Mul, FieldProduct;
    MulProduct(2, x);
    MulProduct(3, x);
    MulComm(2, x);
    MulComm(3, x);
    XtZero();
    MulLinear(x, 1, 0);
    MulLinear(x, 2, 1);
    assert Add(2, 1) == 3 by {
      ThreeIs();
    }
  }

  lemma ThreeIs()
    ensures Add(2, 1) == 3
  {
  }

  lemma MulComm(x: bv8, y: bv8)
    ensures Mul(x, y) == Mul(y, x)
  {
    hide Pow3;
    if x != 0 && y != 0 {
      assert Log(x) + Log(y) == Log(y) + Log(x);
    }
  }

  ghost predicate WordBytes(w: Word, key: seq<bv8>, i: nat)
    requires |key| in {16, 24, 32}
  {
    forall j :: 0 <= j < 4 ==> ByteAt(w, j) == KeyByte(key, 4 * i + j)
  }

  /** The words of the schedule hold the bytes of the expanded key. */
  lemma {:induction false} KeyWordBytes(key: seq<bv8>, i: nat)
    requires |key| in {16, 24, 32}
    ensures WordBytes(KeyWord(key, i), key, i)
    decreases i
  {
    hide Sub, Add, Rcon, PowerOf2, KeyByte, KeyWord;
    var nk := |key| / 4;
    if i < nk {
      FirstBytes(key, i);
    } else {
      KeyWordBytes(key, i - nk);
      KeyWordBytes(key, i - 1);
      RconPower(if i % nk == 0 then i / nk - 1 else 0);
      NextBytes(key, i, KeyWord(key, i - nk), KeyWord(key, i - 1), KeyWord(key, i));
    }
  }

  lemma FirstBytes(key: seq<bv8>, i: nat)
    requires |key| in {16, 24, 32} && i < |key| / 4
    ensures WordBytes(KeyWord(key, i), key, i)
  {
  }

  lemma NextBytes(key: seq<bv8>, i: nat, first: Word, prev: Word, w: Word)
    requires |key| in {16, 24, 32} && i >= |key| / 4 && first == KeyWord(key, i - |key| / 4) && prev == KeyWord(key, i - 1) && w == KeyWord(key, i)
    requires WordBytes(first, key, i - |key| / 4) && WordBytes(prev, key, i - 1)
    requires var nk := |key| / 4; i % nk == 0 ==> Rcon(i / nk - 1) == PowerOf2(i / nk - 1)
    ensures WordBytes(w, key, i)
  {
    hide Sub, Add, Rcon, PowerOf2, KeyByte, KeyWord, ByteAt;
    var nk := |key| / 4;
    forall j | 0 <= j < 4
      ensures ByteAt(w, j) == KeyByte(key, 4 * i + j)
    {
      KeyStep(key, i, j);
      WordStep(key, i, j);
      assert ByteAt(first, j) == KeyByte(key, 4 * (i - nk) + j);
      assert ByteAt(prev, j) == KeyByte(key, 4 * (i - 1) + j);
      assert ByteAt(prev, Turned(j)) == KeyByte(key, 4 * (i - 1) + Turned(j));
    }
  }

  function Turned(j: nat): nat
    requires j < 4
  {
    (j + 1) % 4
  }

  lemma WordStep(key: seq<bv8>, i: nat, j: nat)
    requires |key| in {16, 24, 32} && i >= |key| / 4 && j < 4
    ensures var (nk, prev) := (|key| / 4, KeyWord(key, i - 1));
            ByteAt(KeyWord(key, i), j) ==
            Add(ByteAt(KeyWord(key, i - nk), j),
                if i % nk == 0 then Add(Sub(ByteAt(prev, Turned(j))), if j == 0 then Rcon(i / nk - 1) else 0)
                else if nk == 8 && i % 8 == 4 then Sub(ByteAt(prev, j))
                else ByteAt(prev, j))
  {
    hide Sub, Rcon, Add, ByteAt, Word.Xor, SubWord, RotWord;
    var (nk, first, prev) := (|key| / 4, KeyWord(key, i - |key| / 4), KeyWord(key, i - 1));
    var r := Word(Rcon(i / nk - 1), 0, 0, 0);
    XorByte(first, SubWord(RotWord(prev)).Xor(r), j);
    XorByte(SubWord(RotWord(prev)), r, j);
    XorByte(first, SubWord(prev), j);
    XorByte(first, prev, j);
    SubWordByte(prev, j);
    FirstByte(Rcon(i / nk - 1), j);
  }

  lemma XorByte(a: Word, b: Word, j: nat)
    ensures ByteAt(a.Xor(b), j) == Add(ByteAt(a, j), ByteAt(b, j))
  {
    hide Add;
  }

  lemma SubWordByte(w: Word, j: nat)
    requires j < 4
    ensures ByteAt(SubWord(w), j) == Sub(ByteAt(w, j)) && ByteAt(SubWord(RotWord(w)), j) == Sub(ByteAt(w, Turned(j)))
  {
    hide Sub;
  }

  lemma FirstByte(c: bv8, j: nat)
    ensures ByteAt(Word(c, 0, 0, 0), j) == if j == 0 then c else 0
  {
  }

  lemma KeyStep(key: seq<bv8>, i: nat, j: nat)
    requires |key| in {16, 24, 32} && i >= |key| / 4 && j < 4
    ensures var nk := |key| / 4;
            KeyByte(key, 4 * i + j) ==
            Add(KeyByte(key, 4 * (i - nk) + j),
                if i % nk == 0 then Add(Sub(KeyByte(key, 4 * (i - 1) + Turned(j))), if j == 0 then PowerOf2(i / nk - 1) else 0)
                else if nk == 8 && i % 8 == 4 then Sub(KeyByte(key, 4 * (i - 1) + j))
                else KeyByte(key, 4 * (i - 1) + j))
  {
    hide Sub, Add, PowerOf2;
    assert (4 * i + j) / 4 == i && (4 * i + j) % 4 == j;
  }

  // ----- Rounds -----

  /** The place that ShiftRows takes byte `n` from (section 5.1.2): in its row `r`, `r` columns further. */
  function ShiftedFrom(n: nat): (m: nat)
    requires n < 16
    ensures m < 16
  {
    n % 4 + 4 * ((n / 4 + n % 4) % 4)
  }

  /** Byte `n` after SubBytes and ShiftRows. */
  ghost function Shifted(s: Block, n: nat): bv8
    requires n < 16
  {
    Sub(StateAt(s, ShiftedFrom(n)))
  }

  /** MixColumns (section 5.1.3): byte `n` from its column `a`, with the bytes of the column from row `n % 4` on. */
  function MixedByte(a0: bv8, a1: bv8, a2: bv8, a3: bv8): bv8 {
    Add(Add(FieldProduct(2, a0), FieldProduct(3, a1)), Add(a2, a3))
  }

  lemma ShiftBytes(s: Block, n: nat)
    requires n < 16
    ensures StateAt(SubShift(s), n) == Shifted(s, n)
  {
    hide Sub;
    var (c, r) := (n / 4, n % 4);
    assert n == 4 * c + r;
    assert c == 0 || c == 1 || c == 2 || c == 3;
    assert r == 0 || r == 1 || r == 2 || r == 3;
  }

  lemma XorBytes(a: Block, b: Block, n: nat)
    ensures StateAt(a.Xor(b), n) == Add(StateAt(a, n), StateAt(b, n))
  {
    hide Add;
  }

  /** Row `n % 4 + k` of the column of byte `n`. */
  function InColumn(n: nat, k: nat): (m: nat)
    requires n < 16
    ensures m < 16 && m / 4 == n / 4 && m % 4 == (n % 4 + k) % 4
  {
    n / 4 * 4 + (n % 4 + k) % 4
  }

  lemma MixWord(w: Word, r: nat)
    requires r < 4
    ensures ByteAt(Mix(w), r) == MixedByte(ByteAt(w, r), ByteAt(w, (r + 1) % 4), ByteAt(w, (r + 2) % 4), ByteAt(w, (r + 3) % 4))
  {
    hide Row, MixedByte;
    MixRow(w.b0, w.b1, w.b2, w.b3);
    MixRow(w.b1, w.b2, w.b3, w.b0);
    MixRow(w.b2, w.b3, w.b0, w.b1);
    MixRow(w.b3, w.b0, w.b1, w.b2);
  }

  lemma MixRow(a: bv8, b: bv8, c: bv8, d: bv8)
    ensures Row(a, b, c, d) == MixedByte(a, b, c, d)
  {
    hide Add, Xt, M3, FieldProduct;
    DoubleProduct(a);
    DoubleProduct(b);
  }

  lemma MixBytes(s: Block, n: nat)
    requires n < 16
    ensures StateAt(MixColumns(s), n) == MixedByte(StateAt(s, n), StateAt(s, InColumn(n, 1)), StateAt(s, InColumn(n, 2)), StateAt(s, InColumn(n, 3)))
  {
    hide Mix, MixedByte, ByteAt, InColumn;
    var c := n / 4;
    MixWord(if c == 0 then s.c0 else if c == 1 then s.c1 else if c == 2 then s.c2 else s.c3, n % 4);
  }

  /** Byte `n` of the state after `j` rounds (section 5.1), of which the last leaves out MixColumns. */
  ghost function CipherByte(key: seq<bv8>, input: seq<bv8>, j: nat, n: nat): bv8
    requires |key| in {16, 24, 32} && |input| == 16 && n < 16
    decreases j, 0
  {
    if j == 0 then Add(input[n], KeyByte(key, n))
    else
      Add(if j == |key| / 4 + 6 then SubByte(key, input, j - 1, n)
          else MixedByte(SubByte(key, input, j - 1, n), SubByte(key, input, j - 1, InColumn(n, 1)),
                         SubByte(key, input, j - 1, InColumn(n, 2)), SubByte(key, input, j - 1, InColumn(n, 3))),
          KeyByte(key, 16 * j + n))
  }

  /** Byte `n` after SubBytes and ShiftRows of the state after `j` rounds. */
  ghost function SubByte(key: seq<bv8>, input: seq<bv8>, j: nat, n: nat): bv8
    requires |key| in {16, 24, 32} && |input| == 16 && n < 16
    decreases j, 1
  {
    Sub(CipherByte(key, input, j, ShiftedFrom(n)))
  }

  /** The round keys hold the bytes of the expanded key. */
  lemma RoundKeyBytes(key: seq<bv8>, i: nat, n: nat)
    requires |key| in {16, 24, 32} && i <= RoundsOf(key) && n < 16
    ensures |EncKeys(key)| == RoundsOf(key) + 1 && StateAt(EncKeys(key)[i], n) == KeyByte(key, 16 * i + n)
  {
    hide KeyWord, KeyByte, ByteAt;
    KeyWordBytes(key, 4 * i + n / 4);
  }

  ghost predicate StateBytes(s: Block, key: seq<bv8>, input: seq<bv8>, j: nat)
    requires |key| in {16, 24, 32} && |input| == 16
  {
    forall n :: 0 <= n < 16 ==> StateAt(s, n) == CipherByte(key, input, j, n)
  }

  lemma LoadBytes(input: seq<bv8>, n: nat)
    requires |input| == 16 && n < 16
    ensures StateAt(LoadBlock(input), n) == input[n]
  {
    assert n == 4 * (n / 4) + n % 4;
  }

  lemma {:induction false} RoundsBytes(key: seq<bv8>, input: seq<bv8>, j: nat)
    requires |key| in {16, 24, 32} && |input| == 16 && j < RoundsOf(key)
    ensures |EncKeys(key)| == RoundsOf(key) + 1 && StateBytes(Rounds(EncKeys(key), LoadBlock(input), j), key, input, j)
  {
    hide EncKeys, StateAt, LoadBlock, SubShift, MixColumns, Block.Xor, MixedByte, InColumn, KeyByte, Add, Shifted, ShiftedFrom;
    RoundKeyBytes(key, j, 0);
    var keys, x := EncKeys(key), LoadBlock(input);
    if j == 0 {
      forall n | 0 <= n < 16
        ensures StateAt(x.Xor(keys[0]), n) == CipherByte(key, input, 0, n)
      {
        RoundKeyBytes(key, 0, n);
        LoadBytes(input, n);
        XorBytes(x, keys[0], n);
      }
    } else {
      RoundsBytes(key, input, j - 1);
      var s := Rounds(keys, x, j - 1);
      forall n | 0 <= n < 16
        ensures StateAt(MixColumns(SubShift(s)).Xor(keys[j]), n) == CipherByte(key, input, j, n)
      {
        RoundKeyBytes(key, j, n);
        ShiftedByte(s, key, input, j - 1, n);
        ShiftedByte(s, key, input, j - 1, InColumn(n, 1));
        ShiftedByte(s, key, input, j - 1, InColumn(n, 2));
        ShiftedByte(s, key, input, j - 1, InColumn(n, 3));
        MixBytes(SubShift(s), n);
        XorBytes(MixColumns(SubShift(s)), keys[j], n);
      }
    }
  }

  lemma ShiftedByte(s: Block, key: seq<bv8>, input: seq<bv8>, j: nat, n: nat)
    requires |key| in {16, 24, 32} && |input| == 16 && n < 16 && StateBytes(s, key, input, j)
    ensures StateAt(SubShift(s), n) == SubByte(key, input, j, n)
  {
    hide CipherByte, Sub, SubShift, StateAt;
    ShiftBytes(s, n);
  }

  /** The output block of the standard for any key and block. */
  ghost function CipherOutput(key: seq<bv8>, input: seq<bv8>): seq<bv8>
    requires |key| in {16, 24, 32} && |input| == 16
  {
    seq(16, n requires 0 <= n < 16 => CipherByte(key, input, |key| / 4 + 6, n))
  }

  lemma KeysLength(key: seq<bv8>)
    requires |key| in {16, 24, 32}
    ensures |EncKeys(key)| == RoundsOf(key) + 1
  {
  }

  /** What the blocks of `Aes` make of a key and an input. */
  ghost function Ciphered(key: seq<bv8>, input: seq<bv8>): Block
    requires |key| in {16, 24, 32} && |input| == 16
  {
    KeysLength(key);
    Encrypt(EncKeys(key), LoadBlock(input))
  }

  /** It is the output of the standard, byte by byte. */
  lemma CipherBytes(key: seq<bv8>, input: seq<bv8>)
    requires |key| in {16, 24, 32} && |input| == 16
    ensures StoreBlock(Ciphered(key, input)) == CipherOutput(key, input)
  {
    hide EncKeys, StateAt, LoadBlock, SubShift, MixColumns, Block.Xor, MixedByte, InColumn, KeyByte, Add, Rounds, StoreBlock, CipherByte;
    var r := RoundsOf(key);
    KeysLength(key);
    RoundsBytes(key, input, r - 1);
    var (keys, s) := (EncKeys(key), Rounds(EncKeys(key), LoadBlock(input), r - 1));
    forall n | 0 <= n < 16
      ensures StoreBlock(SubShift(s).Xor(keys[r]))[n] == CipherByte(key, input, r, n)
    {
      LastByte(s, key, input, n);
    }
  }

  /** The last round. */
  lemma LastByte(s: Block, key: seq<bv8>, input: seq<bv8>, n: nat)
    requires |key| in {16, 24, 32} && |input| == 16 && n < 16 && StateBytes(s, key, input, RoundsOf(key) - 1)
    ensures |EncKeys(key)| == RoundsOf(key) + 1
    ensures StoreBlock(SubShift(s).Xor(EncKeys(key)[RoundsOf(key)]))[n] == CipherByte(key, input, RoundsOf(key), n)
  {
    hide EncKeys, StateAt, LoadBlock, SubShift, Block.Xor, KeyByte, Add, StoreBlock, StateBytes;
    var r := RoundsOf(key);
    RoundKeyBytes(key, r, n);
    ShiftedByte(s, key, input, r - 1, n);
    XorBytes(SubShift(s), EncKeys(key)[r], n);
    StoreBytes(SubShift(s).Xor(EncKeys(key)[r]), n);
  }

  lemma StoreBytes(b: Block, n: nat)
    requires n < 16
    ensures StoreBlock(b)[n] == StateAt(b, n)
  {
  }

  lemma OutputIs(key: seq<bv8>, input: seq<bv8>, output: seq<bv8>)
    requires |key| in {16, 24, 32} && |input| == |output| == 16 && |EncKeys(key)| >= 2
    requires LoadBlock(output) == Encrypt(EncKeys(key), LoadBlock(input))
    ensures output == CipherOutput(key, input)
  {
    hide CipherOutput, EncKeys, Encrypt, LoadBlock, StoreBlock;
    CipherBytes(key, input);
    LoadStore(output);
  }

  /** For every key of 16, 24 or 32 bytes and every block, what is enciphered under the one schedule is the output of
      the standard, and is deciphered under the other. */
  method RoundTrip(t: Tables, key: seq<bv8>, input: seq<bv8>) returns (cipher: seq<bv8>, output: seq<bv8>)
    requires t.Valid() && |key| in {16, 24, 32} && |input| == 16
    ensures cipher == CipherOutput(key, input) && output == input
  {
    hide CipherOutput, Ciphered, EncKeys, DecKeys, Encrypt, Decrypt, Tables.At, LoadBlock, StoreBlock;
    KeysLength(key);
    var enc := new AesContext();
    var dec := new AesContext();
    var ok := enc.SetKey(t, false, key);
    ok := dec.SetKey(t, true, key);
    ghost var keys := EncKeys(key);
    cipher := enc.Cipher(t, input, keys);
    OutputIs(key, input, cipher);
    output := dec.Cipher(t, cipher, DecKeys(keys));
    DecryptInverts(keys, LoadBlock(input));
    LoadStore(input);
    LoadStore(output);
  }
}
