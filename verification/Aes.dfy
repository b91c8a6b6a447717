/** The block cipher of `nfq2/crypto/aes.c`: both key schedules and `aes_cipher` in both directions, against
    FIPS 197. */
module Aes {
  import opened AesField
  import opened AesTables

  datatype Block = Block(c0: Word, c1: Word, c2: Word, c3: Word) {
    function Xor(b: Block): Block {
      Block(c0.Xor(b.c0), c1.Xor(b.c1), c2.Xor(b.c2), c3.Xor(b.c3))
    }
  }

  // ----- The cipher of FIPS 197 -----

  /** SubBytes and ShiftRows on the bytes of one new column. */
  ghost function SubColumn(a: Word, b: Word, c: Word, d: Word): Word {
    Word(Sub(a.b0), Sub(b.b1), Sub(c.b2), Sub(d.b3))
  }

  ghost function SubShift(s: Block): Block {
    Block(SubColumn(s.c0, s.c1, s.c2, s.c3), SubColumn(s.c1, s.c2, s.c3, s.c0),
          SubColumn(s.c2, s.c3, s.c0, s.c1), SubColumn(s.c3, s.c0, s.c1, s.c2))
  }

  ghost function InvSubColumn(a: Word, b: Word, c: Word, d: Word): Word {
    Word(InvSub(a.b0), InvSub(b.b1), InvSub(c.b2), InvSub(d.b3))
  }

  ghost function InvSubShift(s: Block): Block {
    Block(InvSubColumn(s.c0, s.c3, s.c2, s.c1), InvSubColumn(s.c1, s.c0, s.c3, s.c2),
          InvSubColumn(s.c2, s.c1, s.c0, s.c3), InvSubColumn(s.c3, s.c2, s.c1, s.c0))
  }

  function Mix(w: Word): Word {
    Word(Row(w.b0, w.b1, w.b2, w.b3), Row(w.b1, w.b2, w.b3, w.b0), Row(w.b2, w.b3, w.b0, w.b1), Row(w.b3, w.b0, w.b1, w.b2))
  }

  function InvMix(w: Word): Word {
    Word(InvRow(w.b0, w.b1, w.b2, w.b3), InvRow(w.b1, w.b2, w.b3, w.b0), InvRow(w.b2, w.b3, w.b0, w.b1), InvRow(w.b3, w.b0, w.b1, w.b2))
  }

  function MixColumns(s: Block): Block { Block(Mix(s.c0), Mix(s.c1), Mix(s.c2), Mix(s.c3)) }
  function InvMixColumns(s: Block): Block { Block(InvMix(s.c0), InvMix(s.c1), InvMix(s.c2), InvMix(s.c3)) }

  /** The state after `j` rounds of the cipher (section 5.1). */
  ghost function Rounds(keys: seq<Block>, x: Block, j: nat): Block
    requires j < |keys|
  {
    if j == 0 then x.Xor(keys[0]) else MixColumns(SubShift(Rounds(keys, x, j - 1))).Xor(keys[j])
  }

  ghost function Encrypt(keys: seq<Block>, x: Block): Block
    requires |keys| >= 2
  {
    SubShift(Rounds(keys, x, |keys| - 2)).Xor(keys[|keys| - 1])
  }

  /** The state after `j` rounds of the equivalent inverse cipher (section 5.3.5). */
  ghost function InvRounds(keys: seq<Block>, y: Block, j: nat): Block
    requires j < |keys|
  {
    if j == 0 then y.Xor(keys[0]) else InvMixColumns(InvSubShift(InvRounds(keys, y, j - 1))).Xor(keys[j])
  }

  ghost function Decrypt(keys: seq<Block>, y: Block): Block
    requires |keys| >= 2
  {
    InvSubShift(InvRounds(keys, y, |keys| - 2)).Xor(keys[|keys| - 1])
  }

  /** The keys for it: in reverse, the inner ones through the inverse of MixColumns. */
  ghost function DecKeys(keys: seq<Block>): seq<Block> {
    var r := |keys| - 1;
    seq(|keys|, i requires 0 <= i < |keys| => if i == 0 || i == r then keys[r - i] else InvMixColumns(keys[r - i]))
  }

  // ----- Decryption inverts encryption -----

  lemma XorTwice(a: Block, b: Block)
    ensures a.Xor(b).Xor(b) == a
  {
    hide Block.Xor, Add;
    WordTwice(a.c0, b.c0);
    WordTwice(a.c1, b.c1);
    WordTwice(a.c2, b.c2);
    WordTwice(a.c3, b.c3);
    BlockXor(a, b);
    BlockXor(a.Xor(b), b);
  }

  lemma BlockXor(a: Block, b: Block)
    ensures a.Xor(b) == Block(a.c0.Xor(b.c0), a.c1.Xor(b.c1), a.c2.Xor(b.c2), a.c3.Xor(b.c3))
  {
  }

  lemma WordTwice(a: Word, b: Word)
    ensures a.Xor(b).Xor(b) == a
  {
    hide Add;
    Twice(a.b0, b.b0);
    Twice(a.b1, b.b1);
    Twice(a.b2, b.b2);
    Twice(a.b3, b.b3);
  }

  lemma SubShiftBack(s: Block)
    ensures InvSubShift(SubShift(s)) == s
  {
    hide Sub, InvSub;
    WordBack(s.c0);
    WordBack(s.c1);
    WordBack(s.c2);
    WordBack(s.c3);
  }

  lemma WordBack(w: Word)
    ensures InvSub(Sub(w.b0)) == w.b0 && InvSub(Sub(w.b1)) == w.b1 && InvSub(Sub(w.b2)) == w.b2 && InvSub(Sub(w.b3)) == w.b3
  {
    hide Sub, InvSub;
    InvSubSub(w.b0);
    InvSubSub(w.b1);
    InvSubSub(w.b2);
    InvSubSub(w.b3);
  }

  lemma MixBack(w: Word)
    ensures InvMix(Mix(w)) == w
  {
    hide Row, InvRow;
    RowInverse(w.b0, w.b1, w.b2, w.b3);
    RowInverse(w.b1, w.b2, w.b3, w.b0);
    RowInverse(w.b2, w.b3, w.b0, w.b1);
    RowInverse(w.b3, w.b0, w.b1, w.b2);
  }

  lemma InvRowLinear(a: bv8, b: bv8, c: bv8, d: bv8, e: bv8, f: bv8, g: bv8, h: bv8)
    ensures InvRow(Add(a, e), Add(b, f), Add(c, g), Add(d, h)) == Add(InvRow(a, b, c, d), InvRow(e, f, g, h))
  {
    hide Add, Sum4, M3, M9, M11, M13, M14;
    Linear(a, e);
    Linear(b, f);
    Linear(c, g);
    Linear(d, h);
    Sum4Add(M14(a), M11(b), M13(c), M9(d), M14(e), M11(f), M13(g), M9(h));
  }

  lemma InvMixLinear(u: Word, v: Word)
    ensures InvMix(u.Xor(v)) == InvMix(u).Xor(InvMix(v))
  {
    hide InvRow, Add;
    InvRowLinear(u.b0, u.b1, u.b2, u.b3, v.b0, v.b1, v.b2, v.b3);
    InvRowLinear(u.b1, u.b2, u.b3, u.b0, v.b1, v.b2, v.b3, v.b0);
    InvRowLinear(u.b2, u.b3, u.b0, u.b1, v.b2, v.b3, v.b0, v.b1);
    InvRowLinear(u.b3, u.b0, u.b1, u.b2, v.b3, v.b0, v.b1, v.b2);
  }

  /** A round taken back: the inverse of MixColumns of the state and of the key. */
  lemma ColumnsBack(t: Block, k: Block)
    ensures InvMixColumns(MixColumns(t).Xor(k)).Xor(InvMixColumns(k)) == t
  {
    hide Mix, InvMix, Word.Xor;
    WordColumnBack(t.c0, k.c0);
    WordColumnBack(t.c1, k.c1);
    WordColumnBack(t.c2, k.c2);
    WordColumnBack(t.c3, k.c3);
  }

  lemma WordColumnBack(t: Word, k: Word)
    ensures InvMix(Mix(t).Xor(k)).Xor(InvMix(k)) == t
  {
    hide Mix, InvMix, Word.Xor;
    MixBack(t);
    InvMixLinear(Mix(t), k);
    WordTwice(t, InvMix(k));
  }

  lemma {:induction false} RoundsBack(keys: seq<Block>, x: Block, j: nat)
    requires |keys| >= 2 && j < |keys| - 1
    ensures InvRounds(DecKeys(keys), Encrypt(keys, x), j) == SubShift(Rounds(keys, x, |keys| - 2 - j))
  {
    hide SubShift, InvSubShift, MixColumns, InvMixColumns, Block.Xor;
    var r := |keys| - 1;
    if j == 0 {
      XorTwice(SubShift(Rounds(keys, x, r - 1)), keys[r]);
    } else {
      RoundsBack(keys, x, j - 1);
      var (s, t) := (Rounds(keys, x, r - j), SubShift(Rounds(keys, x, r - 1 - j)));
      SubShiftBack(s);
      ColumnsBack(t, keys[r - j]);
    }
  }

  /** With the keys of the equivalent inverse cipher every block comes back, for any number of rounds. */
  lemma DecryptInverts(keys: seq<Block>, x: Block)
    requires |keys| >= 2
    ensures Decrypt(DecKeys(keys), Encrypt(keys, x)) == x
  {
    hide SubShift, InvSubShift, MixColumns, InvMixColumns, Block.Xor, Encrypt;
    var r := |keys| - 1;
    RoundsBack(keys, x, r - 1);
    SubShiftBack(x.Xor(keys[0]));
    XorTwice(x, keys[0]);
  }

  // ----- Key schedules -----

  ghost function SubWord(w: Word): Word { Word(Sub(w.b0), Sub(w.b1), Sub(w.b2), Sub(w.b3)) }

  function RotWord(w: Word): Word { Word(w.b1, w.b2, w.b3, w.b0) }

  /** `GET_UINT32_LE`. */
  function LoadWord(s: seq<bv8>, i: nat): Word
    requires i + 4 <= |s|
  {
    Word(s[i], s[i + 1], s[i + 2], s[i + 3])
  }

  /** The words of the key expansion (section 5.2). */
  ghost function KeyWord(key: seq<bv8>, i: nat): Word
    requires |key| in {16, 24, 32}
  {
    var nk := |key| / 4;
    if i < nk then LoadWord(key, 4 * i)
    else
      var (first, prev) := (KeyWord(key, i - nk), KeyWord(key, i - 1));
      if i % nk == 0 then first.Xor(SubWord(RotWord(prev)).Xor(Word(Rcon(i / nk - 1), 0, 0, 0)))
      else if nk > 6 && i % nk == 4 then first.Xor(SubWord(prev))
      else first.Xor(prev)
  }

  function KeyBlock(rk: seq<Word>, i: nat): Block
    requires 4 * i + 4 <= |rk|
  {
    Block(rk[4 * i], rk[4 * i + 1], rk[4 * i + 2], rk[4 * i + 3])
  }

  /** The first `n` round keys in a buffer. */
  ghost function KeyBlocks(rk: seq<Word>, n: nat): seq<Block>
    requires 4 * n <= |rk|
  {
    seq(n, i requires 0 <= i < n => KeyBlock(rk, i))
  }

  /** The number of rounds for a key. */
  function RoundsOf(key: seq<bv8>): nat
    requires |key| in {16, 24, 32}
  {
    |key| / 4 + 6
  }

  ghost function EncKeys(key: seq<bv8>): seq<Block>
    requires |key| in {16, 24, 32}
  {
    seq(RoundsOf(key) + 1, i requires 0 <= i =>
      Block(KeyWord(key, 4 * i), KeyWord(key, 4 * i + 1), KeyWord(key, 4 * i + 2), KeyWord(key, 4 * i + 3)))
  }

  /** The substituted bytes of a word, rotated as in `RK[4]`. */
  function BoxRot(t: Tables, w: Word): Word
    requires t.Valid()
  {
    Index(w.b0);
    Index(w.b1);
    Index(w.b2);
    Index(w.b3);
    Word(t.fsb[w.b1 as int], t.fsb[w.b2 as int], t.fsb[w.b3 as int], t.fsb[w.b0 as int])
  }

  /** And as in `RK[12]`. */
  function BoxWord(t: Tables, w: Word): Word
    requires t.Valid()
  {
    Index(w.b0);
    Index(w.b1);
    Index(w.b2);
    Index(w.b3);
    Word(t.fsb[w.b0 as int], t.fsb[w.b1 as int], t.fsb[w.b2 as int], t.fsb[w.b3 as int])
  }

  lemma BoxFacts(t: Tables, w: Word)
    requires t.Valid()
    ensures BoxRot(t, w) == SubWord(RotWord(w)) && BoxWord(t, w) == SubWord(w)
  {
    hide Sub, ForwardWord, ReverseWord;
    assert t.At(w.b0) && t.At(w.b1) && t.At(w.b2) && t.At(w.b3);
  }

  lemma XorOrder(f: Word, r: Word, s: Word)
    ensures f.Xor(r).Xor(s) == f.Xor(s.Xor(r))
  {
    hide Add;
    Assoc(f.b0, r.b0, s.b0);
    Assoc(f.b1, r.b1, s.b1);
    Assoc(f.b2, r.b2, s.b2);
    Assoc(f.b3, r.b3, s.b3);
    Comm(r.b0, s.b0);
    Comm(r.b1, s.b1);
    Comm(r.b2, s.b2);
    Comm(r.b3, s.b3);
  }

  ghost predicate Expanded(key: seq<bv8>, rk: seq<Word>, n: nat)
    requires |key| in {16, 24, 32} && n <= |rk|
  {
    forall j :: 0 <= j < n ==> rk[j] == KeyWord(key, j)
  }

  /** One pass of an expansion loop: `nk` words, of which the first is rotated and, with a long key, the fifth is
      substituted. */
  method ExpandOnce(t: Tables, key: seq<bv8>, rk: array<Word>, i: nat)
    requires t.Valid() && |key| in {16, 24, 32} && i < 10 && rk.Length == 68
    requires var nk := |key| / 4; nk * (i + 2) <= 68 && Expanded(key, rk[..], nk * (i + 1))
    modifies rk
    ensures var nk := |key| / 4; Expanded(key, rk[..], nk * (i + 2))
  {
    hide Sub, Word.Xor, Rcon, BoxRot, BoxWord, LoadWord, KeyWord, Expanded, Tables.At;
    var nk := |key| / 4;
    var base := nk * i;
    var at := base + nk;
    Passes(nk, i);
    ghost var was := rk[..];
    ExpandedAt(key, was, at, base);
    ExpandedAt(key, was, at, at - 1);
    FirstWord(t, key, i, rk[base], rk[at - 1]);
    rk[at] := rk[base].Xor(Word(t.rcon[i], 0, 0, 0)).Xor(BoxRot(t, rk[at - 1]));
    ExpandedSnoc(key, was, rk[..], at);
    var j := 1;
    while j < nk
      invariant 1 <= j <= nk && Expanded(key, rk[..], at + j)
    {
      was := rk[..];
      ExpandedAt(key, was, at + j, base + j);
      ExpandedAt(key, was, at + j, at + j - 1);
      NextWord(t, key, i, j, rk[base + j], rk[at + j - 1]);
      rk[at + j] := rk[base + j].Xor(if nk > 6 && j == 4 then BoxWord(t, rk[at + j - 1]) else rk[at + j - 1]);
      ExpandedSnoc(key, was, rk[..], at + j);
      j := j + 1;
    }
  }

  lemma Passes(nk: nat, i: nat)
    ensures nk * (i + 1) == nk * i + nk && nk * (i + 2) == nk * i + 2 * nk
  {
  }

  lemma ExpandedAt(key: seq<bv8>, rk: seq<Word>, n: nat, j: nat)
    requires |key| in {16, 24, 32} && j < n <= |rk| && Expanded(key, rk, n)
    ensures rk[j] == KeyWord(key, j)
  {
    hide KeyWord;
  }

  lemma ExpandedSnoc(key: seq<bv8>, was: seq<Word>, now: seq<Word>, n: nat)
    requires |key| in {16, 24, 32} && n < |was| == |now| && Expanded(key, was, n)
    requires now == was[n := now[n]] && now[n] == KeyWord(key, n)
    ensures Expanded(key, now, n + 1)
  {
    hide KeyWord;
  }

  lemma FirstWord(t: Tables, key: seq<bv8>, i: nat, first: Word, prev: Word)
    requires t.Valid() && |key| in {16, 24, 32} && i < 10
    requires var nk := |key| / 4; first == KeyWord(key, nk * i) && prev == KeyWord(key, nk * (i + 1) - 1)
    ensures var nk := |key| / 4;
            first.Xor(Word(t.rcon[i], 0, 0, 0)).Xor(BoxRot(t, prev)) == KeyWord(key, nk * (i + 1))
  {
    hide Sub, Word.Xor, Rcon, BoxRot, BoxWord, LoadWord, Tables.At, KeyWord, SubWord, RotWord;
    var nk := |key| / 4;
    BoxFacts(t, prev);
    XorOrder(first, Word(t.rcon[i], 0, 0, 0), BoxRot(t, prev));
    Positions(nk, i, 0);
    FirstOfPass(key, nk * (i + 1));
  }

  lemma FirstOfPass(key: seq<bv8>, n: nat)
    requires |key| in {16, 24, 32} && n >= |key| / 4 && n % (|key| / 4) == 0
    ensures var nk := |key| / 4;
            KeyWord(key, n) == KeyWord(key, n - nk).Xor(SubWord(RotWord(KeyWord(key, n - 1))).Xor(Word(Rcon(n / nk - 1), 0, 0, 0)))
  {
    hide Sub, SubWord, RotWord, Word.Xor, Rcon;
  }

  lemma NextWord(t: Tables, key: seq<bv8>, i: nat, j: nat, first: Word, prev: Word)
    requires t.Valid() && |key| in {16, 24, 32} && 0 < j < |key| / 4
    requires var nk := |key| / 4; first == KeyWord(key, nk * i + j) && prev == KeyWord(key, nk * (i + 1) + j - 1)
    ensures var nk := |key| / 4;
            first.Xor(if nk > 6 && j == 4 then BoxWord(t, prev) else prev) == KeyWord(key, nk * (i + 1) + j)
  {
    hide Sub, Word.Xor, Rcon, BoxRot, BoxWord, LoadWord, Tables.At;
    var nk := |key| / 4;
    BoxFacts(t, prev);
    Positions(nk, i, j);
  }

  lemma Positions(nk: nat, i: nat, j: nat)
    requires nk in {4, 6, 8} && j < nk
    ensures var n := nk * (i + 1) + j; n >= nk && n - nk == nk * i + j && n % nk == j && (j == 0 ==> n / nk - 1 == i)
  {
  }

  /** `aes_set_encryption_key`: the expansion of FIPS 197; the buffer of 68 words is never exceeded. */
  method SetEncryptionKey(t: Tables, key: seq<bv8>, rk: array<Word>)
    requires t.Valid() && |key| in {16, 24, 32} && rk.Length == 68
    modifies rk
    ensures KeyBlocks(rk[..], RoundsOf(key) + 1) == EncKeys(key)
  {
    hide KeyWord;
    var nk := |key| / 4;
    var i := 0;
    while i < nk
      invariant i <= nk && Expanded(key, rk[..], i)
    {
      LoadedWord(key, i);
      rk[i] := LoadWord(key, 4 * i);
      i := i + 1;
    }
    var passes := if nk == 4 then 10 else if nk == 6 then 8 else 7;
    i := 0;
    while i < passes
      invariant i <= passes && Expanded(key, rk[..], nk * (i + 1))
    {
      ExpandOnce(t, key, rk, i);
      i := i + 1;
    }
    assert nk * (passes + 1) >= 4 * (RoundsOf(key) + 1);
    ghost var b := KeyBlocks(rk[..], RoundsOf(key) + 1);
    assert b == EncKeys(key);
  }

  lemma LoadedWord(key: seq<bv8>, i: nat)
    requires |key| in {16, 24, 32} && i < |key| / 4
    ensures KeyWord(key, i) == LoadWord(key, 4 * i)
  {
  }

  // ----- Tables as matrices -----

  function RColumn(t: Tables, w: Word): Word
    requires t.Sizes()
  {
    Index(w.b0);
    Index(w.b1);
    Index(w.b2);
    Index(w.b3);
    t.rt0[w.b0 as int].Xor(t.rt1[w.b1 as int]).Xor(t.rt2[w.b2 as int]).Xor(t.rt3[w.b3 as int])
  }

  function FColumn(t: Tables, w: Word): Word
    requires t.Sizes()
  {
    Index(w.b0);
    Index(w.b1);
    Index(w.b2);
    Index(w.b3);
    t.ft0[w.b0 as int].Xor(t.ft1[w.b1 as int]).Xor(t.ft2[w.b2 as int]).Xor(t.ft3[w.b3 as int])
  }

  lemma Sum4Left(a: bv8, b: bv8, c: bv8, d: bv8)
    ensures Add(Add(Add(a, b), c), d) == Sum4(a, b, c, d)
  {
    hide Add;
    Assoc(Add(a, b), c, d);
  }

  /** Four forward words make a column of MixColumns. */
  lemma ForwardMix(a: bv8, b: bv8, c: bv8, d: bv8)
    ensures ForwardWord(a).Xor(ForwardWord(b).RotL8()).Xor(ForwardWord(c).RotL8().RotL8()).Xor(ForwardWord(d).RotL8().RotL8().RotL8()) ==
            Mix(Word(a, b, c, d))
  {
    hide Add, Xt, Row;
    RowOrder(a, b, c, d);
    FirstRow(a, b, c, d);
    Sum4Left(Xt(a), M3(b), c, d);
    Sum4Left(a, Xt(b), M3(c), d);
    Sum4Left(a, b, Xt(c), M3(d));
    Sum4Left(M3(a), b, c, Xt(d));
  }

  lemma FirstRow(a: bv8, b: bv8, c: bv8, d: bv8)
    ensures Row(a, b, c, d) == Sum4(Xt(a), M3(b), c, d)
  {
  }

  lemma InvRowOrder(a: bv8, b: bv8, c: bv8, d: bv8)
    ensures InvRow(a, b, c, d) == Sum4(M14(a), M11(b), M13(c), M9(d)) && InvRow(b, c, d, a) == Sum4(M9(a), M14(b), M11(c), M13(d))
    ensures InvRow(c, d, a, b) == Sum4(M13(a), M9(b), M14(c), M11(d)) && InvRow(d, a, b, c) == Sum4(M11(a), M13(b), M9(c), M14(d))
  {
    hide M9, M11, M13, M14, Sum4;
    Turn(M14(b), M11(c), M13(d), M9(a));
    Turn(M14(c), M11(d), M13(a), M9(b));
    Turn(M9(b), M14(c), M11(d), M13(a));
    Turn(M11(a), M13(b), M9(c), M14(d));
  }

  /** Four reverse words make a column of its inverse. */
  lemma ReverseMix(a: bv8, b: bv8, c: bv8, d: bv8)
    ensures ReverseWord(a).Xor(ReverseWord(b).RotL8()).Xor(ReverseWord(c).RotL8().RotL8()).Xor(ReverseWord(d).RotL8().RotL8().RotL8()) ==
            InvMix(Word(a, b, c, d))
  {
    hide Add, M9, M11, M13, M14, InvRow;
    InvRowOrder(a, b, c, d);
    Sum4Left(M14(a), M11(b), M13(c), M9(d));
    Sum4Left(M9(a), M14(b), M11(c), M13(d));
    Sum4Left(M13(a), M9(b), M14(c), M11(d));
    Sum4Left(M11(a), M13(b), M9(c), M14(d));
  }

  /** What the tables hold for a byte and for its image. */
  lemma Looked(t: Tables, x: bv8)
    requires t.Valid()
    ensures 0 <= x as int < 256 && t.fsb[x as int] == Sub(x) && t.rsb[x as int] == InvSub(x)
    ensures t.ft0[x as int] == ForwardWord(Sub(x)) && t.ft1[x as int] == ForwardWord(Sub(x)).RotL8()
    ensures t.ft2[x as int] == ForwardWord(Sub(x)).RotL8().RotL8() && t.ft3[x as int] == ForwardWord(Sub(x)).RotL8().RotL8().RotL8()
    ensures t.rt0[x as int] == ReverseWord(InvSub(x)) && t.rt1[x as int] == ReverseWord(InvSub(x)).RotL8()
    ensures t.rt2[x as int] == ReverseWord(InvSub(x)).RotL8().RotL8() && t.rt3[x as int] == ReverseWord(InvSub(x)).RotL8().RotL8().RotL8()
  {
    hide Sub, ForwardWord, ReverseWord, Word.RotL8;
    assert t.At(x);
    assert t.At(InvSub(x)) && Sub(InvSub(x)) == x;
  }

  lemma ForwardTables(t: Tables, w: Word)
    requires t.Valid()
    ensures FColumn(t, w) == Mix(SubWord(w))
  {
    hide Sub, InvSub, ForwardWord, ReverseWord, Word.RotL8, Word.Xor, Tables.At, Mix;
    Looked(t, w.b0);
    Looked(t, w.b1);
    Looked(t, w.b2);
    Looked(t, w.b3);
    ForwardMix(Sub(w.b0), Sub(w.b1), Sub(w.b2), Sub(w.b3));
  }

  ghost function InvSubWord(w: Word): Word { Word(InvSub(w.b0), InvSub(w.b1), InvSub(w.b2), InvSub(w.b3)) }

  lemma ReverseTables(t: Tables, w: Word)
    requires t.Valid()
    ensures RColumn(t, w) == InvMix(InvSubWord(w))
  {
    hide Sub, InvSub, ForwardWord, ReverseWord, Word.RotL8, Word.Xor, Tables.At, InvMix;
    Looked(t, w.b0);
    Looked(t, w.b1);
    Looked(t, w.b2);
    Looked(t, w.b3);
    ReverseMix(InvSub(w.b0), InvSub(w.b1), InvSub(w.b2), InvSub(w.b3));
  }

  /** The key words of the inverse cipher: the box and the reverse tables together are the inverse of MixColumns. */
  lemma KeyTables(t: Tables, w: Word)
    requires t.Valid()
    ensures RColumn(t, BoxWord(t, w)) == InvMix(w)
  {
    hide Sub, InvSub, RColumn, InvMix, Tables.At, BoxWord;
    BoxFacts(t, w);
    ReverseTables(t, SubWord(w));
    WordBack(w);
  }

  // ----- The cipher as it runs -----

  /** `AES_FROUND`. */
  function FRound(t: Tables, k: Block, s: Block): Block
    requires t.Sizes()
  {
    Block(k.c0.Xor(FColumn(t, Word(s.c0.b0, s.c1.b1, s.c2.b2, s.c3.b3))), k.c1.Xor(FColumn(t, Word(s.c1.b0, s.c2.b1, s.c3.b2, s.c0.b3))),
          k.c2.Xor(FColumn(t, Word(s.c2.b0, s.c3.b1, s.c0.b2, s.c1.b3))), k.c3.Xor(FColumn(t, Word(s.c3.b0, s.c0.b1, s.c1.b2, s.c2.b3))))
  }

  /** `AES_RROUND`. */
  function RRound(t: Tables, k: Block, s: Block): Block
    requires t.Sizes()
  {
    Block(k.c0.Xor(RColumn(t, Word(s.c0.b0, s.c3.b1, s.c2.b2, s.c1.b3))), k.c1.Xor(RColumn(t, Word(s.c1.b0, s.c0.b1, s.c3.b2, s.c2.b3))),
          k.c2.Xor(RColumn(t, Word(s.c2.b0, s.c1.b1, s.c0.b2, s.c3.b3))), k.c3.Xor(RColumn(t, Word(s.c3.b0, s.c2.b1, s.c1.b2, s.c0.b3))))
  }

  /** The bytes of a word through a box. */
  function Through(box: seq<bv8>, w: Word): Word
    requires |box| == 256
  {
    Index(w.b0);
    Index(w.b1);
    Index(w.b2);
    Index(w.b3);
    Word(box[w.b0 as int], box[w.b1 as int], box[w.b2 as int], box[w.b3 as int])
  }

  /** The last round of the cipher. */
  function FLast(t: Tables, k: Block, s: Block): Block
    requires t.Sizes()
  {
    Block(k.c0.Xor(Through(t.fsb, Word(s.c0.b0, s.c1.b1, s.c2.b2, s.c3.b3))), k.c1.Xor(Through(t.fsb, Word(s.c1.b0, s.c2.b1, s.c3.b2, s.c0.b3))),
          k.c2.Xor(Through(t.fsb, Word(s.c2.b0, s.c3.b1, s.c0.b2, s.c1.b3))), k.c3.Xor(Through(t.fsb, Word(s.c3.b0, s.c0.b1, s.c1.b2, s.c2.b3))))
  }

  /** The last round of the inverse cipher. */
  function RLast(t: Tables, k: Block, s: Block): Block
    requires t.Sizes()
  {
    Block(k.c0.Xor(Through(t.rsb, Word(s.c0.b0, s.c3.b1, s.c2.b2, s.c1.b3))), k.c1.Xor(Through(t.rsb, Word(s.c1.b0, s.c0.b1, s.c3.b2, s.c2.b3))),
          k.c2.Xor(Through(t.rsb, Word(s.c2.b0, s.c1.b1, s.c0.b2, s.c3.b3))), k.c3.Xor(Through(t.rsb, Word(s.c3.b0, s.c2.b1, s.c1.b2, s.c0.b3))))
  }

  lemma XorComm(a: Word, b: Word)
    ensures a.Xor(b) == b.Xor(a)
  {
    hide Add;
    Comm(a.b0, b.b0);
    Comm(a.b1, b.b1);
    Comm(a.b2, b.b2);
    Comm(a.b3, b.b3);
  }

  lemma KeyLast(k: Block, s: Block)
    ensures Block(k.c0.Xor(s.c0), k.c1.Xor(s.c1), k.c2.Xor(s.c2), k.c3.Xor(s.c3)) == s.Xor(k)
  {
    hide Word.Xor;
    XorComm(k.c0, s.c0);
    XorComm(k.c1, s.c1);
    XorComm(k.c2, s.c2);
    XorComm(k.c3, s.c3);
  }

  lemma FRoundIs(t: Tables, k: Block, s: Block)
    requires t.Valid()
    ensures FRound(t, k, s) == MixColumns(SubShift(s)).Xor(k)
  {
    hide FColumn, Mix, Word.Xor, Tables.At, Sub;
    ForwardTables(t, Word(s.c0.b0, s.c1.b1, s.c2.b2, s.c3.b3));
    ForwardTables(t, Word(s.c1.b0, s.c2.b1, s.c3.b2, s.c0.b3));
    ForwardTables(t, Word(s.c2.b0, s.c3.b1, s.c0.b2, s.c1.b3));
    ForwardTables(t, Word(s.c3.b0, s.c0.b1, s.c1.b2, s.c2.b3));
    KeyLast(k, MixColumns(SubShift(s)));
  }

  lemma RRoundIs(t: Tables, k: Block, s: Block)
    requires t.Valid()
    ensures RRound(t, k, s) == InvMixColumns(InvSubShift(s)).Xor(k)
  {
    hide RColumn, InvMix, Word.Xor, Tables.At, InvSub;
    ReverseTables(t, Word(s.c0.b0, s.c3.b1, s.c2.b2, s.c1.b3));
    ReverseTables(t, Word(s.c1.b0, s.c0.b1, s.c3.b2, s.c2.b3));
    ReverseTables(t, Word(s.c2.b0, s.c1.b1, s.c0.b2, s.c3.b3));
    ReverseTables(t, Word(s.c3.b0, s.c2.b1, s.c1.b2, s.c0.b3));
    KeyLast(k, InvMixColumns(InvSubShift(s)));
  }

  lemma ThroughIs(t: Tables, w: Word)
    requires t.Valid()
    ensures Through(t.fsb, w) == SubWord(w) && Through(t.rsb, w) == InvSubWord(w)
  {
    hide Sub, InvSub, ForwardWord, ReverseWord, Word.RotL8, Tables.At;
    Looked(t, w.b0);
    Looked(t, w.b1);
    Looked(t, w.b2);
    Looked(t, w.b3);
  }

  lemma LastIs(t: Tables, k: Block, s: Block)
    requires t.Valid()
    ensures FLast(t, k, s) == SubShift(s).Xor(k) && RLast(t, k, s) == InvSubShift(s).Xor(k)
  {
    hide Through, Word.Xor, Tables.At, Sub, InvSub;
    ThroughIs(t, Word(s.c0.b0, s.c1.b1, s.c2.b2, s.c3.b3));
    ThroughIs(t, Word(s.c1.b0, s.c2.b1, s.c3.b2, s.c0.b3));
    ThroughIs(t, Word(s.c2.b0, s.c3.b1, s.c0.b2, s.c1.b3));
    ThroughIs(t, Word(s.c3.b0, s.c0.b1, s.c1.b2, s.c2.b3));
    ThroughIs(t, Word(s.c0.b0, s.c3.b1, s.c2.b2, s.c1.b3));
    ThroughIs(t, Word(s.c1.b0, s.c0.b1, s.c3.b2, s.c2.b3));
    ThroughIs(t, Word(s.c2.b0, s.c1.b1, s.c0.b2, s.c3.b3));
    ThroughIs(t, Word(s.c3.b0, s.c2.b1, s.c1.b2, s.c0.b3));
    KeyLast(k, SubShift(s));
    KeyLast(k, InvSubShift(s));
  }

  /** `CPY128`. */
  method CopyBlock(src: array<Word>, i: nat, dst: array<Word>, j: nat)
    requires src != dst && src.Length == dst.Length == 68 && i < 17 && j < 17
    modifies dst
    ensures KeyBlock(dst[..], j) == KeyBlock(src[..], i)
    ensures forall m :: 0 <= m < 17 && m != j ==> KeyBlock(dst[..], m) == KeyBlock(old(dst[..]), m)
  {
    forall k | 0 <= k < 4 {
      dst[4 * j + k] := src[4 * i + k];
    }
    OtherBlocks(old(dst[..]), dst[..], j);
  }

  /** The inner loop of `aes_set_decryption_key`. */
  method InvBlock(t: Tables, src: array<Word>, i: nat, dst: array<Word>, j: nat)
    requires t.Valid() && src != dst && src.Length == dst.Length == 68 && i < 17 && j < 17
    modifies dst
    ensures KeyBlock(dst[..], j) == InvMixColumns(KeyBlock(src[..], i))
    ensures forall m :: 0 <= m < 17 && m != j ==> KeyBlock(dst[..], m) == KeyBlock(old(dst[..]), m)
  {
    hide InvMix, RColumn, BoxWord, Tables.At;
    var k := 0;
    while k < 4
      invariant k <= 4
      invariant forall q :: 0 <= q < 68 ==> dst[q] == if 4 * j <= q < 4 * j + k then InvMix(src[4 * i + q - 4 * j]) else old(dst[q])
    {
      KeyTables(t, src[4 * i + k]);
      dst[4 * j + k] := RColumn(t, BoxWord(t, src[4 * i + k]));
      k := k + 1;
    }
    OtherBlocks(old(dst[..]), dst[..], j);
    BlockInverted(src[..], i, dst[..], j);
  }

  lemma BlockInverted(s: seq<Word>, i: nat, d: seq<Word>, j: nat)
    requires 4 * i + 4 <= |s| && 4 * j + 4 <= |d| && forall q :: 4 * j <= q < 4 * j + 4 ==> d[q] == InvMix(s[4 * i + q - 4 * j])
    ensures KeyBlock(d, j) == InvMixColumns(KeyBlock(s, i))
  {
    hide InvMix;
  }

  /** Blocks other than the one that is written stay. */
  lemma OtherBlocks(was: seq<Word>, now: seq<Word>, i: nat)
    requires |was| == |now| == 68 && i < 17 && forall q :: 0 <= q < 68 && !(4 * i <= q < 4 * i + 4) ==> now[q] == was[q]
    ensures forall m :: 0 <= m < 17 && m != i ==> KeyBlock(now, m) == KeyBlock(was, m)
  {
  }

  /** `aes_context`, with a buffer of 68 words. */
  class AesContext {
    var decrypt: bool
    var rounds: nat
    const rk: array<Word>

    constructor ()
      ensures rk.Length == 68 && fresh(rk)
    {
      rk := new Word[68];
      decrypt, rounds := false, 0;
    }

    ghost predicate Keyed(keys: seq<Block>)
      reads this, rk
    {
      rk.Length == 68 && rounds in {10, 12, 14} && keys == KeyBlocks(rk[..], rounds + 1)
    }

    /** `aes_set_decryption_key`. */
    method SetDecryptionKey(t: Tables, key: seq<bv8>)
      requires t.Valid() && |key| in {16, 24, 32} && rk.Length == 68
      modifies rk
      ensures KeyBlocks(rk[..], RoundsOf(key) + 1) == DecKeys(EncKeys(key))
    {
      hide EncKeys, DecKeys, InvMixColumns, Tables.At, KeyBlock, KeyBlocks;
      var r := RoundsOf(key);
      var cty := new Word[68];
      SetEncryptionKey(t, key, cty);
      ghost var sk := cty[..];
      CopyBlock(cty, r, rk, 0);
      var i := 1;
      while i < r
        invariant 1 <= i <= r && cty[..] == sk && KeyBlock(rk[..], 0) == KeyBlock(sk, r)
        invariant forall m :: 1 <= m < i ==> KeyBlock(rk[..], m) == InvMixColumns(KeyBlock(sk, r - m))
      {
        InvBlock(t, cty, r - i, rk, i);
        i := i + 1;
      }
      CopyBlock(cty, 0, rk, r);
      DecBlocks(key, sk, rk[..]);
    }

    /** `aes_setkey`: fails for a key that is not 16, 24 or 32 bytes long. */
    method SetKey(t: Tables, decrypt: bool, key: seq<bv8>) returns (ok: bool)
      requires t.Valid() && rk.Length == 68
      modifies this, rk
      ensures ok == (|key| in {16, 24, 32}) && this.decrypt == decrypt
      ensures ok ==> rounds == RoundsOf(key) && Keyed(if decrypt then DecKeys(EncKeys(key)) else EncKeys(key))
    {
      hide EncKeys, DecKeys, Tables.At;
      this.decrypt := decrypt;
      if |key| == 16 {
        rounds := 10;
      } else if |key| == 24 {
        rounds := 12;
      } else if |key| == 32 {
        rounds := 14;
      } else {
        return false;
      }
      if decrypt {
        SetDecryptionKey(t, key);
      } else {
        SetEncryptionKey(t, key, rk);
      }
      ok := true;
    }

    /** `aes_cipher`: the cipher or the equivalent inverse cipher with the keys in the buffer. */
    method Cipher(t: Tables, input: seq<bv8>, ghost keys: seq<Block>) returns (output: seq<bv8>)
      requires t.Valid() && |input| == 16 && Keyed(keys)
      ensures |output| == 16 && LoadBlock(output) == if decrypt then Decrypt(keys, LoadBlock(input)) else Encrypt(keys, LoadBlock(input))
    {
      hide LoadBlock, SubShift, InvSubShift, MixColumns, InvMixColumns, Block.Xor, FRound, RRound, FLast, RLast, Tables.At;
      var x := LoadBlock(input).Xor(KeyBlock(rk[..], 0));
      var i, p := rounds / 2 - 1, 0;
      ghost var x0 := LoadBlock(input);
      while i > 0
        invariant 0 <= i && p == rounds - 2 - 2 * i && x == if decrypt then InvRounds(keys, x0, p) else Rounds(keys, x0, p)
      {
        if decrypt {
          RRoundIs(t, KeyBlock(rk[..], p + 1), x);
          var y := RRound(t, KeyBlock(rk[..], p + 1), x);
          RRoundIs(t, KeyBlock(rk[..], p + 2), y);
          x := RRound(t, KeyBlock(rk[..], p + 2), y);
        } else {
          FRoundIs(t, KeyBlock(rk[..], p + 1), x);
          var y := FRound(t, KeyBlock(rk[..], p + 1), x);
          FRoundIs(t, KeyBlock(rk[..], p + 2), y);
          x := FRound(t, KeyBlock(rk[..], p + 2), y);
        }
        i, p := i - 1, p + 2;
      }
      var k, l := KeyBlock(rk[..], p + 1), KeyBlock(rk[..], p + 2);
      if decrypt {
        RRoundIs(t, k, x);
        LastIs(t, l, RRound(t, k, x));
        x := RLast(t, l, RRound(t, k, x));
      } else {
        FRoundIs(t, k, x);
        LastIs(t, l, FRound(t, k, x));
        x := FLast(t, l, FRound(t, k, x));
      }
      output := StoreBlock(x);
      StoreLoad(x);
    }
  }

  function LoadBlock(s: seq<bv8>): Block
    requires |s| == 16
  {
    Block(LoadWord(s, 0), LoadWord(s, 4), LoadWord(s, 8), LoadWord(s, 12))
  }

  function StoreWord(w: Word): seq<bv8> { [w.b0, w.b1, w.b2, w.b3] }

  function StoreBlock(b: Block): (s: seq<bv8>)
    ensures |s| == 16
  {
    StoreWord(b.c0) + StoreWord(b.c1) + StoreWord(b.c2) + StoreWord(b.c3)
  }

  lemma StoreLoad(b: Block)
    ensures LoadBlock(StoreBlock(b)) == b
  {
  }

  lemma LoadStore(s: seq<bv8>)
    requires |s| == 16
    ensures StoreBlock(LoadBlock(s)) == s
  {
  }

  lemma DecBlocks(key: seq<bv8>, sk: seq<Word>, rk: seq<Word>)
    requires |key| in {16, 24, 32} && |sk| == |rk| == 68 && KeyBlocks(sk, RoundsOf(key) + 1) == EncKeys(key)
    requires var r := RoundsOf(key);
             KeyBlock(rk, 0) == KeyBlock(sk, r) && KeyBlock(rk, r) == KeyBlock(sk, 0) &&
             forall m :: 1 <= m < r ==> KeyBlock(rk, m) == InvMixColumns(KeyBlock(sk, r - m))
    ensures KeyBlocks(rk, RoundsOf(key) + 1) == DecKeys(EncKeys(key))
  {
    hide InvMixColumns, KeyWord, KeyBlock;
    var (r, ks) := (RoundsOf(key), EncKeys(key));
    var (a, b) := (KeyBlocks(rk, r + 1), DecKeys(ks));
    forall i | 0 <= i <= r
      ensures a[i] == b[i]
    {
      assert KeyBlocks(sk, r + 1)[r - i] == KeyBlock(sk, r - i) == ks[r - i];
      assert a[i] == KeyBlock(rk, i);
    }
  }
}
