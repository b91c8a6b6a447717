/** The tables of `nfq2/crypto/aes.c`, filled by `aes_init_keygen_tables`. A 32-bit word is modelled by its four
    bytes, the lowest first. */
module AesTables {
  import opened AesField

  datatype Word = Word(b0: bv8, b1: bv8, b2: bv8, b3: bv8) {
    function Xor(w: Word): Word {
      Word(Add(b0, w.b0), Add(b1, w.b1), Add(b2, w.b2), Add(b3, w.b3))
    }

    /** `ROTL8`. */
    function RotL8(): Word { Word(b3, b0, b1, b2) }
  }

  /** `FT0` at a value of the substitution box. */
  function ForwardWord(s: bv8): Word { Word(Xt(s), s, s, Add(Xt(s), s)) }

  /** `RT0` at the place of a value of the inverse box. */
  function ReverseWord(r: bv8): Word { Word(M14(r), M9(r), M13(r), M11(r)) }

  ghost function Rcon(i: nat): bv8 { if i == 0 then 1 else Xt(Rcon(i - 1)) }

  /** The tables once they are filled; they do not change afterwards. */
  datatype Tables = Tables(fsb: seq<bv8>, rsb: seq<bv8>, ft0: seq<Word>, ft1: seq<Word>, ft2: seq<Word>, ft3: seq<Word>,
                           rt0: seq<Word>, rt1: seq<Word>, rt2: seq<Word>, rt3: seq<Word>, rcon: seq<bv8>)
  {
    ghost predicate Sizes() {
      |fsb| == |rsb| == |ft0| == |ft1| == |ft2| == |ft3| == |rt0| == |rt1| == |rt2| == |rt3| == 256 && |rcon| == 10
    }

    /** The forward tables hold the substitution box and its products, the reverse tables undo it. */
    ghost predicate Valid() {
      Sizes() && (forall i :: 0 <= i < 10 ==> rcon[i] == Rcon(i)) && forall x: bv8 :: At(x)
    }

    ghost predicate At(x: bv8)
      requires Sizes()
    {
      Index(x);
      var (s, i) := (Sub(x), x as int);
      Index(s);
      fsb[i] == s && rsb[s as int] == x &&
      ft0[i] == ForwardWord(s) && ft1[i] == ft0[i].RotL8() && ft2[i] == ft1[i].RotL8() && ft3[i] == ft2[i].RotL8() &&
      rt0[s as int] == ReverseWord(x) && rt1[s as int] == rt0[s as int].RotL8() && rt2[s as int] == rt1[s as int].RotL8() &&
      rt3[s as int] == rt2[s as int].RotL8()
    }
  }

  lemma Index(x: bv8)
    ensures 0 <= x as int < 256
  {
  }

  lemma Successor(x: bv8)
    requires x != 255
    ensures (x + 1) as int == x as int + 1
  {
  }

  lemma {:induction false} ByteOf(i: int)
    requires 0 <= i < 256
    ensures (i as bv8) as int == i
  {
    if i > 0 {
      ByteOf(i - 1);
      var b := (i - 1) as bv8;
      Successor(b);
      AsInt(b + 1, b + 1);
      assert i as bv8 == b + 1;
    }
  }

  /** A byte and its number. */
  lemma SameIndex(x: bv8, y: bv8)
    ensures 0 <= x as int < 256 && 0 <= y as int < 256 && (x as int == y as int <==> x == y)
  {
    AsInt(x, y);
  }

  /** The loop that fills `pow` and `log`; the entry for 1 is written twice and ends as 255. */
  method FillPowers(pow: array<bv8>, log: array<nat>)
    requires pow.Length == 256 && log.Length == 256 && (log as object) != pow
    modifies pow, log
    ensures forall i :: 0 <= i < 256 ==> pow[i] == Pow3(i)
    ensures forall x: bv8 :: x != 0 ==> 0 <= x as int < 256 && log[x as int] == Log(x)
  {
    hide Pow3, Log, Xt;
    var i := 0;
    var x: bv8 := 1;
    PowerOne();
    while i < 256
      invariant i <= 256 && x == Pow3(i) && forall j :: 0 <= j < i ==> pow[j] == Pow3(j)
      invariant forall j :: 0 < j < i ==> 0 <= Pow3(j) as int < 256 && log[Pow3(j) as int] == j
    {
      Index(x);
      forall j | 0 < j < i
        ensures Pow3(j) as int != x as int
      {
        PowersDiffer(j, i);
        SameIndex(Pow3(j), x);
      }
      forall j | 0 < j <= i
        ensures 0 <= Pow3(j) as int < 256
      {
        Index(Pow3(j));
      }
      pow[i] := x;
      log[x as int] := i;
      PowerStep(i);
      x := Add(x, Xt(x));
      i := i + 1;
    }
    forall y: bv8 | y != 0
      ensures 0 <= y as int < 256 && log[y as int] == Log(y)
    {
      LogFacts(y);
      Index(y);
    }
  }

  lemma PowerStep(i: nat)
    ensures Pow3(i + 1) == Add(Pow3(i), Xt(Pow3(i)))
  {
    hide Xt;
    Comm(Xt(Pow3(i)), Pow3(i));
  }

  lemma LogFacts(y: bv8)
    requires y != 0
    ensures 0 < Log(y) <= 255 && Pow3(Log(y)) == y
  {
  }

  /** The round constants. */
  method FillRcon(rcon: array<bv8>)
    requires rcon.Length == 10
    modifies rcon
    ensures forall i :: 0 <= i < 10 ==> rcon[i] == Rcon(i)
  {
    hide Xt;
    var i := 0;
    var x: bv8 := 1;
    while i < 10
      invariant i <= 10 && x == Rcon(i) && forall j :: 0 <= j < i ==> rcon[j] == Rcon(j)
    {
      rcon[i] := x;
      x := Xt(x);
      i := i + 1;
    }
  }

  /** `MIX` four times, and the constant. */
  method MixFour(p: bv8) returns (r: bv8)
    ensures r == Affine(p)
  {
    hide Rotate;
    var x, y := p, p;
    y := Rotate(y);
    x := x ^ y;
    y := Rotate(y);
    x := x ^ y;
    y := Rotate(y);
    x := x ^ y;
    y := Rotate(y);
    x := x ^ y;
    r := x ^ 0x63;
  }

  ghost predicate BoxAt(fsb: seq<bv8>, rsb: seq<bv8>, x: bv8)
    requires |fsb| == |rsb| == 256
  {
    Index(x);
    Index(Sub(x));
    fsb[x as int] == Sub(x) && rsb[Sub(x) as int] == x
  }

  /** The substitution boxes; since no two bytes have the same image, no entry of the inverse is lost. */
  method FillBoxes(pow: array<bv8>, log: array<nat>, fsb: array<bv8>, rsb: array<bv8>)
    requires pow.Length == 256 && log.Length == 256 && fsb.Length == 256 && rsb.Length == 256 && fsb != rsb && fsb != pow && rsb != pow
    requires (log as object) != fsb && (log as object) != rsb
    requires forall i :: 0 <= i < 256 ==> pow[i] == Pow3(i)
    requires forall x: bv8 :: x != 0 ==> 0 <= x as int < 256 && log[x as int] == Log(x)
    modifies fsb, rsb
    ensures forall x: bv8 :: BoxAt(fsb[..], rsb[..], x)
  {
    hide Pow3, Affine, Inv, Sub;
    SubZero();
    fsb[0], rsb[0x63] := 0x63, 0;
    var i := 1;
    Small(0);
    while i < 256
      invariant 1 <= i <= 256
      invariant forall x: bv8 :: 0 <= x as int < i ==> BoxAt(fsb[..], rsb[..], x)
    {
      var b := i as bv8;
      ByteOf(i);
      Small(b);
      SubOf(b);
      assert log[b as int] == Log(b);
      var v := pow[255 - log[i]];
      var x := MixFour(v);
      Index(x);
      assert b as int == i && x == Sub(b);
      ghost var f, r := fsb[..], rsb[..];
      fsb[i] := x;
      rsb[x as int] := b;
      forall y: bv8 | 0 <= y as int < i + 1
        ensures BoxAt(fsb[..], rsb[..], y)
      {
        SameIndex(b, y);
        Kept(f, r, b, y);
      }
      i := i + 1;
    }
    forall x: bv8
      ensures BoxAt(fsb[..], rsb[..], x)
    {
      Index(x);
    }
  }

  lemma SubZero()
    ensures Sub(0) == 0x63 && (0 as bv8) as int == 0 && (0x63 as bv8) as int == 0x63
  {
    assert Rotate(0) == 0;
  }

  lemma Small(x: bv8)
    ensures x as int == 0 <==> x == 0
  {
    AsInt(x, 0);
  }

  lemma SubOf(x: bv8)
    requires x != 0
    ensures Log(x) <= 255 && Sub(x) == Affine(Pow3(255 - Log(x)))
  {
    hide Pow3, Affine;
  }

  /** Writing the entries of `b` keeps those of another byte. */
  lemma Kept(f: seq<bv8>, r: seq<bv8>, b: bv8, y: bv8)
    requires |f| == |r| == 256 && (y != b ==> BoxAt(f, r, y))
    ensures 0 <= b as int < 256 && 0 <= Sub(b) as int < 256
    ensures BoxAt(f[b as int := Sub(b)], r[Sub(b) as int := b], y)
  {
    hide Sub;
    SameIndex(b, y);
    SameIndex(Sub(b), Sub(y));
    if y != b && Sub(y) == Sub(b) {
      SubInjective(y, b);
    }
  }

  ghost predicate ForwardFilled(fsb: seq<bv8>, t0: seq<Word>) {
    |fsb| == |t0| == 256 && forall i :: 0 <= i < 256 ==> t0[i] == ForwardWord(fsb[i])
  }

  ghost predicate ReverseFilled(rsb: seq<bv8>, t0: seq<Word>) {
    |rsb| == |t0| == 256 && forall i :: 0 <= i < 256 ==> t0[i] == ReverseWord(rsb[i])
  }

  /** Each table is the one before with its words rotated by a byte. */
  ghost predicate Rotated(t0: seq<Word>, t1: seq<Word>, t2: seq<Word>, t3: seq<Word>) {
    |t0| == |t1| == |t2| == |t3| == 256 &&
    forall i :: 0 <= i < 256 ==> t1[i] == t0[i].RotL8() && t2[i] == t1[i].RotL8() && t3[i] == t2[i].RotL8()
  }

  /** The forward tables. */
  method FillForward(fsb: array<bv8>, ft0: array<Word>, ft1: array<Word>, ft2: array<Word>, ft3: array<Word>)
    requires fsb.Length == ft0.Length == ft1.Length == ft2.Length == ft3.Length == 256
    requires ft0 != ft1 && ft0 != ft2 && ft0 != ft3 && ft1 != ft2 && ft1 != ft3 && ft2 != ft3
    requires (fsb as object) !in {ft0 as object, ft1, ft2, ft3}
    modifies ft0, ft1, ft2, ft3
    ensures ForwardFilled(fsb[..], ft0[..]) && Rotated(ft0[..], ft1[..], ft2[..], ft3[..])
  {
    hide Xt, Add;
    var i := 0;
    while i < 256
      invariant i <= 256 && forall j :: 0 <= j < i ==> ft0[j] == ForwardWord(fsb[j])
      invariant forall j :: 0 <= j < i ==> ft1[j] == ft0[j].RotL8() && ft2[j] == ft1[j].RotL8() && ft3[j] == ft2[j].RotL8()
    {
      var x := fsb[i];
      var y := Xt(x);
      var z := Add(y, x);
      ft0[i] := Word(y, x, x, z);
      ft1[i] := ft0[i].RotL8();
      ft2[i] := ft1[i].RotL8();
      ft3[i] := ft2[i].RotL8();
      i := i + 1;
    }
  }

  /** `MUL`. */
  method TableMul(pow: array<bv8>, log: array<nat>, x: bv8, y: bv8) returns (r: bv8)
    requires pow.Length == 256 && log.Length == 256 && forall i :: 0 <= i < 256 ==> pow[i] == Pow3(i)
    requires forall x: bv8 :: x != 0 ==> 0 <= x as int < 256 && log[x as int] == Log(x)
    ensures r == Mul(x, y)
  {
    hide Pow3, Log;
    if x == 0 || y == 0 {
      return 0;
    }
    Index(x);
    Index(y);
    r := pow[(log[x as int] + log[y as int]) % 255];
  }

  /** The reverse tables. */
  method FillReverse(pow: array<bv8>, log: array<nat>, rsb: array<bv8>, rt0: array<Word>, rt1: array<Word>, rt2: array<Word>, rt3: array<Word>)
    requires pow.Length == log.Length == rsb.Length == rt0.Length == rt1.Length == rt2.Length == rt3.Length == 256
    requires rt0 != rt1 && rt0 != rt2 && rt0 != rt3 && rt1 != rt2 && rt1 != rt3 && rt2 != rt3
    requires (pow as object) !in {rt0 as object, rt1, rt2, rt3} && (log as object) !in {rt0 as object, rt1, rt2, rt3}
    requires (rsb as object) !in {rt0 as object, rt1, rt2, rt3}
    requires forall i :: 0 <= i < 256 ==> pow[i] == Pow3(i)
    requires forall x: bv8 :: x != 0 ==> 0 <= x as int < 256 && log[x as int] == Log(x)
    modifies rt0, rt1, rt2, rt3
    ensures ReverseFilled(rsb[..], rt0[..]) && Rotated(rt0[..], rt1[..], rt2[..], rt3[..])
  {
    hide Mul, Pow3, Log, M9, M11, M13, M14;
    var i := 0;
    while i < 256
      invariant i <= 256 && forall j :: 0 <= j < i ==> rt0[j] == ReverseWord(rsb[j])
      invariant forall j :: 0 <= j < i ==> rt1[j] == rt0[j].RotL8() && rt2[j] == rt1[j].RotL8() && rt3[j] == rt2[j].RotL8()
    {
      var x := rsb[i];
      var e := TableMul(pow, log, 0x0E, x);
      var n := TableMul(pow, log, 0x09, x);
      var d := TableMul(pow, log, 0x0D, x);
      var b := TableMul(pow, log, 0x0B, x);
      Product4(x);
      rt0[i] := Word(e, n, d, b);
      rt1[i] := rt0[i].RotL8();
      rt2[i] := rt1[i].RotL8();
      rt3[i] := rt2[i].RotL8();
      i := i + 1;
    }
  }

  lemma Product4(x: bv8)
    ensures Mul(14, x) == M14(x) && Mul(9, x) == M9(x) && Mul(13, x) == M13(x) && Mul(11, x) == M11(x)
  {
    hide Mul, M9, M11, M13, M14;
    MulTimes(14, x);
    MulTimes(9, x);
    MulTimes(13, x);
    MulTimes(11, x);
  }

  /** `aes_init_keygen_tables`. */
  method InitKeygenTables() returns (t: Tables)
    ensures t.Valid()
  {
    hide Pow3, Log, Rcon, BoxAt, Tables.At, Tables.Valid, ForwardFilled, ReverseFilled, Rotated;
    var pow, fsb, rsb, rcon := new bv8[256], new bv8[256], new bv8[256], new bv8[10];
    var log := new nat[256];
    FillPowers(pow, log);
    FillRcon(rcon);
    FillBoxes(pow, log, fsb, rsb);
    var f0, f1, f2, f3 := MakeForward(fsb);
    var r0, r1, r2, r3 := MakeReverse(pow, log, rsb);
    t := Tables(fsb[..], rsb[..], f0, f1, f2, f3, r0, r1, r2, r3, rcon[..]);
    AllEntries(t);
  }

  method MakeForward(fsb: array<bv8>) returns (t0: seq<Word>, t1: seq<Word>, t2: seq<Word>, t3: seq<Word>)
    requires fsb.Length == 256
    ensures ForwardFilled(fsb[..], t0) && Rotated(t0, t1, t2, t3) && |t0| == |t1| == |t2| == |t3| == 256
  {
    hide ForwardFilled, Rotated;
    var ft0, ft1, ft2, ft3 := new Word[256], new Word[256], new Word[256], new Word[256];
    FillForward(fsb, ft0, ft1, ft2, ft3);
    t0, t1, t2, t3 := ft0[..], ft1[..], ft2[..], ft3[..];
  }

  method MakeReverse(pow: array<bv8>, log: array<nat>, rsb: array<bv8>) returns (t0: seq<Word>, t1: seq<Word>, t2: seq<Word>, t3: seq<Word>)
    requires pow.Length == log.Length == rsb.Length == 256
    requires forall i :: 0 <= i < 256 ==> pow[i] == Pow3(i)
    requires forall x: bv8 :: x != 0 ==> 0 <= x as int < 256 && log[x as int] == Log(x)
    ensures ReverseFilled(rsb[..], t0) && Rotated(t0, t1, t2, t3) && |t0| == |t1| == |t2| == |t3| == 256
  {
    hide ReverseFilled, Rotated, Pow3, Log;
    var rt0, rt1, rt2, rt3 := new Word[256], new Word[256], new Word[256], new Word[256];
    FillReverse(pow, log, rsb, rt0, rt1, rt2, rt3);
    t0, t1, t2, t3 := rt0[..], rt1[..], rt2[..], rt3[..];
  }

  lemma AllEntries(t: Tables)
    requires t.Sizes() && (forall x: bv8 :: BoxAt(t.fsb, t.rsb, x)) && forall i :: 0 <= i < 10 ==> t.rcon[i] == Rcon(i)
    requires ForwardFilled(t.fsb, t.ft0) && Rotated(t.ft0, t.ft1, t.ft2, t.ft3)
    requires ReverseFilled(t.rsb, t.rt0) && Rotated(t.rt0, t.rt1, t.rt2, t.rt3)
    ensures t.Valid()
  {
    hide ForwardFilled, ReverseFilled, Rotated, BoxAt, Rcon, Tables.At;
    forall x: bv8
      ensures t.At(x)
    {
      Entries(t, x);
    }
  }

  lemma Entries(t: Tables, x: bv8)
    requires t.Sizes() && BoxAt(t.fsb, t.rsb, x)
    requires ForwardFilled(t.fsb, t.ft0) && Rotated(t.ft0, t.ft1, t.ft2, t.ft3)
    requires ReverseFilled(t.rsb, t.rt0) && Rotated(t.rt0, t.rt1, t.rt2, t.rt3)
    ensures t.At(x)
  {
    hide ForwardWord, ReverseWord, Sub, Word.RotL8;
    Index(x);
    Index(Sub(x));
  }
}
