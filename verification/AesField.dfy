/** Arithmetic of the AES tables of `nfq2/crypto/aes.c`: the field with 256 elements (section 4 of FIPS 197), its
    powers of 3, the substitution box and the matrices of MixColumns and its inverse. */
module AesField {
  /** Addition in the field. */
  function Add(x: bv8, y: bv8): bv8 { x ^ y }

  function Double(x: bv8): bv8 { x << 1 }
  function Reduce(x: bv8): bv8 { if x & 0x80 != 0 then 0x1B else 0 }

  /** `XTIME(x) & 0xFF`. */
  function Xt(x: bv8): bv8 { Add(Double(x), Reduce(x)) }

  /** Products with the numbers of the two matrices. */
  function M3(x: bv8): bv8 { Add(Xt(x), x) }
  function M9(x: bv8): bv8 { Add(Xt(Xt(Xt(x))), x) }
  function M11(x: bv8): bv8 { Add(Xt(Xt(Xt(x))), M3(x)) }
  function M13(x: bv8): bv8 { Add(Xt(Xt(Xt(x))), Add(Xt(Xt(x)), x)) }
  function M14(x: bv8): bv8 { Add(Xt(Xt(Xt(x))), Add(Xt(Xt(x)), Xt(x))) }

  lemma Comm(a: bv8, b: bv8)
    ensures Add(a, b) == Add(b, a)
  {
  }

  lemma Assoc(a: bv8, b: bv8, c: bv8)
    ensures Add(Add(a, b), c) == Add(a, Add(b, c))
  {
  }

  lemma Self(a: bv8)
    ensures Add(a, a) == 0
  {
  }

  lemma Zero(a: bv8)
    ensures Add(a, 0) == a
  {
  }

  lemma Regroup(a: bv8, b: bv8, c: bv8, d: bv8)
    ensures Add(Add(a, b), Add(c, d)) == Add(Add(a, c), Add(b, d))
  {
    hide Add;
    Assoc(a, b, Add(c, d));
    Assoc(b, c, d);
    Comm(b, c);
    Assoc(c, b, d);
    Assoc(a, c, Add(b, d));
  }

  /** What is added twice cancels out. */
  lemma Twice(a: bv8, b: bv8)
    ensures Add(Add(a, b), b) == a && Add(b, Add(b, a)) == a
  {
    hide Add;
    Assoc(a, b, b);
    Assoc(b, b, a);
    Self(b);
    Zero(a);
    Comm(0, a);
  }

  lemma DoubleLinear(x: bv8, y: bv8)
    ensures Double(Add(x, y)) == Add(Double(x), Double(y))
  {
  }

  lemma TopLinear(x: bv8, y: bv8)
    ensures (x ^ y) & 0x80 == (x & 0x80) ^ (y & 0x80) && x & 0x80 in {0, 0x80} && y & 0x80 in {0, 0x80}
  {
  }

  lemma ReduceLinear(x: bv8, y: bv8)
    ensures Reduce(Add(x, y)) == Add(Reduce(x), Reduce(y))
  {
    TopLinear(x, y);
    var s, t := x & 0x80, y & 0x80;
    assert s ^ t == if s == t then 0 else 0x80;
  }

  lemma XtLinear(x: bv8, y: bv8)
    ensures Xt(Add(x, y)) == Add(Xt(x), Xt(y))
  {
    hide Double, Reduce, Add;
    DoubleLinear(x, y);
    ReduceLinear(x, y);
    Regroup(Double(x), Double(y), Reduce(x), Reduce(y));
  }

  /** The products are linear. */
  lemma Linear(x: bv8, y: bv8)
    ensures M3(Add(x, y)) == Add(M3(x), M3(y)) && M9(Add(x, y)) == Add(M9(x), M9(y)) && M11(Add(x, y)) == Add(M11(x), M11(y))
    ensures M13(Add(x, y)) == Add(M13(x), M13(y)) && M14(Add(x, y)) == Add(M14(x), M14(y))
  {
    hide Xt, Add;
    XtLinear(x, y);
    XtLinear(Xt(x), Xt(y));
    XtLinear(Xt(Xt(x)), Xt(Xt(y)));
    var (a, b, c, d, e, f) := (Xt(x), Xt(y), Xt(Xt(x)), Xt(Xt(y)), Xt(Xt(Xt(x))), Xt(Xt(Xt(y))));
    Regroup(a, b, x, y);
    Regroup(e, f, x, y);
    Regroup(e, f, Add(a, x), Add(b, y));
    Regroup(c, d, x, y);
    Regroup(e, f, Add(c, x), Add(d, y));
    Regroup(c, d, a, b);
    Regroup(e, f, Add(c, a), Add(d, b));
  }

  // ----- The matrices -----

  function Sum4(p: bv8, q: bv8, r: bv8, s: bv8): bv8 { Add(Add(p, q), Add(r, s)) }

  /** First rows of the matrices of MixColumns and of its inverse (sections 5.1.3 and 5.3.3 of FIPS 197). */
  function Row(a: bv8, b: bv8, c: bv8, d: bv8): bv8 { Sum4(Xt(a), M3(b), c, d) }
  function InvRow(a: bv8, b: bv8, c: bv8, d: bv8): bv8 { Sum4(M14(a), M11(b), M13(c), M9(d)) }

  lemma Transpose(a: (bv8, bv8, bv8, bv8), b: (bv8, bv8, bv8, bv8), c: (bv8, bv8, bv8, bv8), d: (bv8, bv8, bv8, bv8))
    ensures Sum4(Sum4(a.0, a.1, a.2, a.3), Sum4(b.0, b.1, b.2, b.3), Sum4(c.0, c.1, c.2, c.3), Sum4(d.0, d.1, d.2, d.3)) ==
            Sum4(Sum4(a.0, b.0, c.0, d.0), Sum4(a.1, b.1, c.1, d.1), Sum4(a.2, b.2, c.2, d.2), Sum4(a.3, b.3, c.3, d.3))
  {
    hide Sum4;
    Sum4Add(a.0, a.1, a.2, a.3, b.0, b.1, b.2, b.3);
    Sum4Add(c.0, c.1, c.2, c.3, d.0, d.1, d.2, d.3);
    Sum4Add(Add(a.0, b.0), Add(a.1, b.1), Add(a.2, b.2), Add(a.3, b.3), Add(c.0, d.0), Add(c.1, d.1), Add(c.2, d.2), Add(c.3, d.3));
    Sum4Parts(Sum4(a.0, a.1, a.2, a.3), Sum4(b.0, b.1, b.2, b.3), Sum4(c.0, c.1, c.2, c.3), Sum4(d.0, d.1, d.2, d.3));
    Sum4Parts(a.0, b.0, c.0, d.0);
    Sum4Parts(a.1, b.1, c.1, d.1);
    Sum4Parts(a.2, b.2, c.2, d.2);
    Sum4Parts(a.3, b.3, c.3, d.3);
  }

  lemma Sum4Parts(a: bv8, b: bv8, c: bv8, d: bv8)
    ensures Sum4(a, b, c, d) == Add(Add(a, b), Add(c, d))
  {
  }

  lemma Sum4Add(a: bv8, b: bv8, c: bv8, d: bv8, e: bv8, f: bv8, g: bv8, h: bv8)
    ensures Add(Sum4(a, b, c, d), Sum4(e, f, g, h)) == Sum4(Add(a, e), Add(b, f), Add(c, g), Add(d, h))
  {
    hide Add;
    Regroup(Add(a, b), Add(c, d), Add(e, f), Add(g, h));
    Regroup(a, b, e, f);
    Regroup(c, d, g, h);
  }

  /** The products of a sum of four. */
  lemma Linear4(a: bv8, b: bv8, c: bv8, d: bv8)
    ensures M9(Sum4(a, b, c, d)) == Sum4(M9(a), M9(b), M9(c), M9(d)) && M11(Sum4(a, b, c, d)) == Sum4(M11(a), M11(b), M11(c), M11(d))
    ensures M13(Sum4(a, b, c, d)) == Sum4(M13(a), M13(b), M13(c), M13(d)) && M14(Sum4(a, b, c, d)) == Sum4(M14(a), M14(b), M14(c), M14(d))
  {
    hide Add, M9, M11, M13, M14;
    Linear(Add(a, b), Add(c, d));
    Linear(a, b);
    Linear(c, d);
  }

  /** Doublings of three times a byte. */
  lemma Triple(x: bv8)
    ensures var (p, q, r, s) := (Xt(x), Xt(Xt(x)), Xt(Xt(Xt(x))), Xt(Xt(Xt(Xt(x)))));
            Xt(M3(x)) == Add(q, p) && Xt(Xt(M3(x))) == Add(r, q) && Xt(Xt(Xt(M3(x)))) == Add(s, r)
  {
    hide Xt, Add;
    XtLinear(Xt(x), x);
    XtLinear(Xt(Xt(x)), Xt(x));
    XtLinear(Xt(Xt(Xt(x))), Xt(Xt(x)));
  }

  lemma Sums0(x: bv8, p: bv8, q: bv8, r: bv8, s: bv8)
    ensures Sum4(Add(s, Add(r, q)), Add(r, Add(p, x)), Add(r, Add(q, x)), Add(Add(s, r), Add(p, x))) == x
  {
  }

  lemma Sums1(x: bv8, p: bv8, q: bv8, r: bv8, s: bv8)
    ensures Sum4(Add(Add(s, r), Add(Add(r, q), Add(q, p))), Add(s, Add(q, p)), Add(r, Add(q, x)), Add(r, x)) == 0
  {
  }

  lemma Sums2(x: bv8, p: bv8, q: bv8, r: bv8, s: bv8)
    ensures Sum4(Add(r, Add(q, p)), Add(Add(s, r), Add(Add(q, p), Add(p, x))), Add(s, Add(r, p)), Add(r, x)) == 0
  {
    hide Add, Sum4;
    Assoc(q, p, Add(p, x));
    Twice(x, p);
    Sums2Short(x, p, q, r, s);
  }

  lemma Sums2Short(x: bv8, p: bv8, q: bv8, r: bv8, s: bv8)
    ensures Sum4(Add(r, Add(q, p)), Add(Add(s, r), Add(q, x)), Add(s, Add(r, p)), Add(r, x)) == 0
  {
  }

  lemma Sums3(x: bv8, p: bv8, q: bv8, r: bv8, s: bv8)
    ensures Sum4(Add(r, Add(q, p)), Add(r, Add(p, x)), Add(Add(s, r), Add(Add(r, q), Add(p, x))), Add(s, p)) == 0
  {
  }

  /** One byte through both matrices comes back in its place and nowhere else. */
  lemma Products(x: bv8)
    ensures Sum4(M14(Xt(x)), M11(x), M13(x), M9(M3(x))) == x
    ensures Sum4(M14(M3(x)), M11(Xt(x)), M13(x), M9(x)) == 0
    ensures Sum4(M14(x), M11(M3(x)), M13(Xt(x)), M9(x)) == 0
    ensures Sum4(M14(x), M11(x), M13(M3(x)), M9(Xt(x))) == 0
  {
    hide Xt, Add, Sum4;
    var (p, q, r, s) := (Xt(x), Xt(Xt(x)), Xt(Xt(Xt(x))), Xt(Xt(Xt(Xt(x)))));
    Triple(x);
    Sums0(x, p, q, r, s);
    Sums1(x, p, q, r, s);
    Sums2(x, p, q, r, s);
    Sums3(x, p, q, r, s);
  }

  /** The second matrix undoes the first. */
  lemma RowInverse(a: bv8, b: bv8, c: bv8, d: bv8)
    ensures InvRow(Row(a, b, c, d), Row(b, c, d, a), Row(c, d, a, b), Row(d, a, b, c)) == a
  {
    hide Xt, Add, Sum4, M3, M9, M11, M13, M14;
    Linear4(Xt(a), M3(b), c, d);
    Linear4(a, Xt(b), M3(c), d);
    Linear4(a, b, Xt(c), M3(d));
    Linear4(M3(a), b, c, Xt(d));
    RowOrder(a, b, c, d);
    Transpose((M14(Xt(a)), M14(M3(b)), M14(c), M14(d)), (M11(a), M11(Xt(b)), M11(M3(c)), M11(d)),
              (M13(a), M13(b), M13(Xt(c)), M13(M3(d))), (M9(M3(a)), M9(b), M9(c), M9(Xt(d))));
    Products(a);
    Products(b);
    Products(c);
    Products(d);
    Zeros(a);
  }

  lemma Zeros(a: bv8)
    ensures Sum4(a, 0, 0, 0) == a
  {
  }

  /** The rows of the first matrix with the terms in the order of the columns. */
  lemma RowOrder(a: bv8, b: bv8, c: bv8, d: bv8)
    ensures Row(b, c, d, a) == Sum4(a, Xt(b), M3(c), d) && Row(c, d, a, b) == Sum4(a, b, Xt(c), M3(d)) && Row(d, a, b, c) == Sum4(M3(a), b, c, Xt(d))
  {
    hide Xt, M3, Sum4;
    Turn(Xt(b), M3(c), d, a);
    Turn(Xt(c), M3(d), a, b);
    Turn(b, Xt(c), M3(d), a);
    Turn(M3(a), b, c, Xt(d));
  }

  lemma Turn(a: bv8, b: bv8, c: bv8, d: bv8)
    ensures Sum4(a, b, c, d) == Sum4(d, a, b, c)
  {
    hide Add;
    Comm(c, d);
    Regroup(a, b, d, c);
    Comm(a, d);
  }

  // ----- Powers of 3 -----

  function Pow3(n: nat): bv8 { if n == 0 then 1 else M3(Pow3(n - 1)) }

  function Bit(x: bv8, mask: bv8, v: bv8): bv8 { if x & mask != 0 then v else 0 }

  /** The square in the field, which is linear: the squares of the bits. */
  function Square(x: bv8): bv8 {
    Bit(x, 1, 1) ^ Bit(x, 2, 4) ^ Bit(x, 4, 16) ^ Bit(x, 8, 64) ^ Bit(x, 16, 27) ^ Bit(x, 32, 108) ^ Bit(x, 64, 171) ^ Bit(x, 128, 154)
  }

  lemma SquareTriple(x: bv8)
    ensures Square(M3(x)) == M3(M3(Square(x)))
  {
  }

  lemma {:induction false} SquarePower(n: nat)
    ensures Pow3(2 * n) == Square(Pow3(n))
  {
    hide Square, M3;
    SquareOne();
    if n > 0 {
      SquarePower(n - 1);
      SquareTriple(Pow3(n - 1));
      assert Pow3(2 * n) == M3(M3(Pow3(2 * n - 2)));
    }
  }

  lemma SquareOne()
    ensures Square(1) == 1
  {
  }

  lemma M3Injective(x: bv8, y: bv8)
    requires M3(x) == M3(y)
    ensures x == y
  {
  }

  lemma PowerAt(n: nat, v: bv8)
    requires Pow3(n) == v
    ensures Pow3(2 * n) == Square(v) && Pow3(2 * n + 1) == M3(Square(v))
  {
    hide Square, M3;
    SquarePower(n);
  }

  /** The exponents that decide the order of 3. */
  lemma KeyPowers()
    ensures Pow3(255) == 1 && Pow3(15) != 1 && Pow3(51) != 1 && Pow3(85) != 1
  {
    hide Pow3;
    PowerOne();
    PowerAt(1, 3);
    PowerAt(3, 15);
    PowerAt(7, 255);
    PowerAt(15, 53);
    PowerAt(31, 170);
    PowerAt(63, 205);
    PowerAt(127, 160);
    PowerAt(6, 85);
    PowerAt(12, 161);
    PowerAt(25, 2);
    PowerAt(2, 5);
    PowerAt(5, 51);
    PowerAt(10, 114);
    PowerAt(21, 115);
    PowerAt(42, 217);
  }

  lemma PowerOne()
    ensures Pow3(0) == 1 && Pow3(1) == 3
  {
    assert Pow3(1) == M3(Pow3(0));
  }

  /** Equal powers differ by a period. */
  lemma {:induction false} Period(i: nat, n: nat)
    requires Pow3(i + n) == Pow3(i)
    ensures Pow3(n) == 1
  {
    hide M3;
    if i > 0 {
      M3Injective(Pow3(i + n - 1), Pow3(i - 1));
      Period(i - 1, n);
    }
  }

  lemma {:induction false} Multiple(n: nat, q: nat)
    requires Pow3(n) == 1
    ensures Pow3(q * n) == 1
  {
    hide M3;
    if q > 0 {
      Multiple(n, q - 1);
      Shift(n, (q - 1) * n);
      assert q * n == n + (q - 1) * n;
    }
  }

  /** A period can be left out of an exponent. */
  lemma {:induction false} Shift(n: nat, i: nat)
    requires Pow3(n) == 1
    ensures Pow3(n + i) == Pow3(i)
  {
    hide M3;
    if i > 0 {
      Shift(n, i - 1);
    }
  }

  lemma Divisors(n: nat)
    requires 0 < n < 255 && 255 % n == 0
    ensures 15 % n == 0 || 51 % n == 0 || 85 % n == 0
  {
    var q := 255 / n;
    assert q * n == 255;
    if n > 15 {
      assert q <= 15;
      assert q == 1 || q == 2 || q == 3 || q == 4 || q == 5 || q == 6 || q == 7 || q == 8 || q == 9 || q == 10 || q == 11 || q == 12 ||
             q == 13 || q == 14 || q == 15;
    }
  }

  /** 255 is the least period. */
  lemma {:induction false} NoShorterPeriod(n: nat)
    requires 0 < n < 255
    ensures Pow3(n) != 1
  {
    hide Pow3;
    KeyPowers();
    if Pow3(n) == 1 {
      var q, r := 255 / n, 255 % n;
      assert 255 == q * n + r;
      Multiple(n, q);
      Shift(q * n, r);
      if r > 0 {
        NoShorterPeriod(r);
      } else {
        Divisors(n);
        var m := if 15 % n == 0 then 15 else if 51 % n == 0 then 51 else 85;
        assert m == m / n * n;
        Multiple(n, m / n);
      }
    }
  }

  /** The powers from 1 to 255 are different. */
  lemma PowersDiffer(i: nat, j: nat)
    requires 0 < i < j <= 255
    ensures Pow3(i) != Pow3(j)
  {
    hide Pow3;
    if Pow3(i) == Pow3(j) {
      Period(i, j - i);
      NoShorterPeriod(j - i);
    }
  }

  // ----- Logarithms, inverses and the substitution box -----

  lemma {:induction false} PowerNotZero(n: nat)
    ensures Pow3(n) != 0
  {
    if n > 0 {
      PowerNotZero(n - 1);
      if Pow3(n) == 0 {
        M3Injective(Pow3(n - 1), 0);
      }
    }
  }

  ghost function PowerSet(k: nat): set<int> { set i | 0 < i <= k :: Pow3(i) as int }

  lemma {:induction false} PowerSetSize(k: nat)
    requires k <= 255
    ensures |PowerSet(k)| == k && forall v :: v in PowerSet(k) ==> 0 < v <= 255
  {
    hide Pow3;
    if k > 0 {
      PowerSetSize(k - 1);
      forall i | 0 < i <= k
        ensures 0 < Pow3(i) as int <= 255
      {
        PowerNotZero(i);
      }
      forall i | 0 < i < k
        ensures Pow3(i) as int != Pow3(k) as int
      {
        PowersDiffer(i, k);
        AsInt(Pow3(i), Pow3(k));
      }
      assert PowerSet(k) == PowerSet(k - 1) + {Pow3(k) as int};
    }
  }

  lemma AsInt(x: bv8, y: bv8)
    ensures 0 <= x as int <= 255 && (x as int == y as int <==> x == y)
  {
    assert (x as int) as bv8 == x && (y as int) as bv8 == y;
  }

  /** The numbers from 1 to `k`. */
  ghost function Range(k: nat): (s: set<int>)
    ensures |s| == k && forall v :: v in s <==> 0 < v <= k
  {
    if k == 0 then {} else Range(k - 1) + {k}
  }

  lemma SameSet(a: set<int>, b: set<int>)
    requires a <= b && |a| == |b|
    ensures a == b
  {
    assert b == a + (b - a);
    assert |b| == |a| + |b - a|;
  }

  /** 3 generates: every other byte is one of its powers. */
  lemma Generates(x: bv8)
    requires x != 0
    ensures exists i :: 0 < i <= 255 && Pow3(i) == x
  {
    hide Pow3;
    PowerSetSize(255);
    AsInt(x, 0);
    SameSet(PowerSet(255), Range(255));
    assert x as int in PowerSet(255);
    var i :| 0 < i <= 255 && Pow3(i) as int == x as int;
    AsInt(Pow3(i), x);
  }

  /** The logarithm, from 1 to 255. */
  ghost function Log(x: bv8): (i: nat)
    requires x != 0
    ensures 0 < i <= 255 && Pow3(i) == x
  {
    Generates(x);
    var i :| 0 < i <= 255 && Pow3(i) == x;
    i
  }

  lemma LogUnique(i: nat)
    requires 0 < i <= 255
    ensures Pow3(i) != 0 && Log(Pow3(i)) == i
  {
    hide Pow3;
    PowerNotZero(i);
    var j := Log(Pow3(i));
    if i < j {
      PowersDiffer(i, j);
    } else if j < i {
      PowersDiffer(j, i);
    }
  }

  /** The inverse in the field, and 0 for 0. */
  ghost function Inv(x: bv8): bv8 { if x == 0 then 0 else Pow3(255 - Log(x)) }

  function Rotate(y: bv8): bv8 { (y << 1) | (y >> 7) }

  /** The affine map of section 5.1.1 of FIPS 197: `MIX` four times, and the constant. */
  function Affine(b: bv8): bv8 {
    var (r1, r2, r3, r4) := (Rotate(b), Rotate(Rotate(b)), Rotate(Rotate(Rotate(b))), Rotate(Rotate(Rotate(Rotate(b)))));
    b ^ r1 ^ r2 ^ r3 ^ r4 ^ 0x63
  }

  /** The substitution box. */
  ghost function Sub(x: bv8): bv8 { Affine(Inv(x)) }

  // ----- Products by logarithms -----

  /** `MUL(x, y)`. */
  ghost function Mul(x: bv8, y: bv8): bv8 {
    if x == 0 || y == 0 then 0 else Pow3((Log(x) + Log(y)) % 255)
  }

  function Times(k: bv8, x: bv8): bv8
    requires k in {9, 11, 13, 14}
  {
    if k == 9 then M9(x) else if k == 11 then M11(x) else if k == 13 then M13(x) else M14(x)
  }

  lemma TimesOne(k: bv8)
    requires k in {9, 11, 13, 14}
    ensures Times(k, 1) == k && Times(k, 0) == 0
  {
    assert Xt(0) == 0;
    assert Xt(1) == 2 && Xt(2) == 4 && Xt(4) == 8;
  }

  lemma TimesXt(k: bv8, x: bv8)
    requires k in {9, 11, 13, 14}
    ensures Times(k, Xt(x)) == Xt(Times(k, x))
  {
    hide Xt, Add;
    var (p, q, r) := (Xt(x), Xt(Xt(x)), Xt(Xt(Xt(x))));
    XtLinear(r, x);
    XtLinear(r, Add(p, x));
    XtLinear(p, x);
    XtLinear(r, Add(q, x));
    XtLinear(q, x);
    XtLinear(r, Add(q, p));
    XtLinear(q, p);
  }

  lemma {:induction false} TimesPower(k: bv8, j: nat)
    requires k in {9, 11, 13, 14}
    ensures Times(k, Pow3(j)) == Pow3(j + Log(k))
  {
    hide Xt, M9, M11, M13, M14, Add;
    if j == 0 {
      TimesOne(k);
    } else {
      var v := Pow3(j - 1);
      TimesPower(k, j - 1);
      TimesXt(k, v);
      Linear(Xt(v), v);
      assert Times(k, M3(v)) == Add(Times(k, Xt(v)), Times(k, v));
    }
  }

  lemma {:induction false} ReduceExponent(n: nat)
    ensures Pow3(n % 255) == Pow3(n)
  {
    hide Pow3;
    KeyPowers();
    if n >= 255 {
      ReduceExponent(n - 255);
      Shift(255, n - 255);
      assert n % 255 == (n - 255) % 255;
    }
  }

  /** The products of the tables are those of the matrix. */
  lemma MulTimes(k: bv8, x: bv8)
    requires k in {9, 11, 13, 14}
    ensures Mul(k, x) == Times(k, x)
  {
    hide Pow3, Times;
    TimesOne(k);
    if x != 0 {
      TimesPower(k, Log(x));
      ReduceExponent(Log(k) + Log(x));
      assert Log(k) + Log(x) == Log(x) + Log(k);
    }
  }

  // ----- The product of the field -----

  /** The product of section 4.2 of FIPS 197: for each bit of `y`, `x` doubled as often as the bit says. */
  function FieldProduct(x: bv8, y: bv8): bv8 {
    var (p, q, r) := (Xt(x), Xt(Xt(x)), Xt(Xt(Xt(x))));
    Add(Sum4(Bit(y, 1, x), Bit(y, 2, p), Bit(y, 4, q), Bit(y, 8, r)),
        Sum4(Bit(y, 16, Xt(r)), Bit(y, 32, Xt(Xt(r))), Bit(y, 64, Xt(Xt(Xt(r)))), Bit(y, 128, Xt(Xt(Xt(Xt(r)))))))
  }

  /** `y` tripled `n` times. */
  ghost function Triples(n: nat, y: bv8): bv8 { if n == 0 then y else M3(Triples(n - 1, y)) }

  lemma {:induction false} TriplesPower(n: nat, j: nat)
    ensures Triples(n, Pow3(j)) == Pow3(n + j) && Triples(n, 0) == 0
  {
    hide M3;
    TripleZero();
    if n > 0 {
      TriplesPower(n - 1, j);
    } else {
    }
  }

  lemma TripleZero()
    ensures M3(0) == 0
  {
  }

  lemma {:induction false} TriplesLinear(n: nat, y: bv8, z: bv8)
    ensures Triples(n, Add(y, z)) == Add(Triples(n, y), Triples(n, z))
    ensures Triples(n, Xt(y)) == Xt(Triples(n, y))
  {
    hide Add, Xt, M3;
    if n > 0 {
      TriplesLinear(n - 1, y, z);
      Linear(Triples(n - 1, y), Triples(n - 1, z));
      TripleXt(Triples(n - 1, y));
    } else {
    }
  }

  lemma TripleXt(v: bv8)
    ensures M3(Xt(v)) == Xt(M3(v))
  {
    hide Xt, Add;
    XtLinear(Xt(v), v);
  }

  lemma MulTriples(x: bv8, y: bv8)
    requires x != 0
    ensures Mul(x, y) == Triples(Log(x), y)
  {
    hide Pow3;
    TriplesPower(Log(x), if y == 0 then 0 else Log(y));
    if y != 0 {
      ReduceExponent(Log(x) + Log(y));
    }
  }

  /** Products by logarithms distribute over sums and doublings. */
  lemma MulLinear(x: bv8, y: bv8, z: bv8)
    ensures Mul(x, Add(y, z)) == Add(Mul(x, y), Mul(x, z)) && Mul(x, Xt(y)) == Xt(Mul(x, y))
    ensures Mul(x, 1) == x && Mul(x, 0) == 0
  {
    hide Add, Xt, Pow3;
    XtZero();
    Self(0);
    if x != 0 {
      MulTriples(x, Add(y, z));
      MulTriples(x, y);
      MulTriples(x, z);
      MulTriples(x, Xt(y));
      MulTriples(x, 1);
      TriplesLinear(Log(x), y, z);
      PowerOne();
      TriplesPower(Log(x), 0);
    }
  }

  lemma XtZero()
    ensures Xt(0) == 0 && Xt(1) == 2 && Xt(2) == 4 && Xt(4) == 8 && Xt(8) == 16 && Xt(16) == 32 && Xt(32) == 64 && Xt(64) == 128
  {
  }

  lemma MulSum4(x: bv8, a: bv8, b: bv8, c: bv8, d: bv8)
    ensures Mul(x, Sum4(a, b, c, d)) == Sum4(Mul(x, a), Mul(x, b), Mul(x, c), Mul(x, d))
  {
    hide Add, Xt, Mul;
    MulLinear(x, Add(a, b), Add(c, d));
    MulLinear(x, a, b);
    MulLinear(x, c, d);
  }

  lemma Bits(y: bv8)
    ensures y == Add(Sum4(Bit(y, 1, 1), Bit(y, 2, 2), Bit(y, 4, 4), Bit(y, 8, 8)),
                     Sum4(Bit(y, 16, 16), Bit(y, 32, 32), Bit(y, 64, 64), Bit(y, 128, 128)))
  {
  }

  lemma MulBit(x: bv8, y: bv8, m: bv8)
    ensures Mul(x, Bit(y, m, m)) == Bit(y, m, Mul(x, m))
  {
    hide Log, Pow3;
  }

  lemma MulPowers(x: bv8)
    ensures var (p, q, r) := (Xt(x), Xt(Xt(x)), Xt(Xt(Xt(x))));
            Mul(x, 1) == x && Mul(x, 2) == p && Mul(x, 4) == q && Mul(x, 8) == r && Mul(x, 16) == Xt(r) && Mul(x, 32) == Xt(Xt(r)) &&
            Mul(x, 64) == Xt(Xt(Xt(r))) && Mul(x, 128) == Xt(Xt(Xt(Xt(r))))
  {
    hide Add, Xt, Mul;
    XtZero();
    MulLinear(x, 1, 0);
    MulLinear(x, 2, 0);
    MulLinear(x, 4, 0);
    MulLinear(x, 8, 0);
    MulLinear(x, 16, 0);
    MulLinear(x, 32, 0);
    MulLinear(x, 64, 0);
  }

  /** The products by logarithms are those of the field. */
  lemma MulProduct(x: bv8, y: bv8)
    ensures Mul(x, y) == FieldProduct(x, y)
  {
    hide Add, Xt, Mul, Bit, Sum4;
    Bits(y);
    MulLinear(x, Sum4(Bit(y, 1, 1), Bit(y, 2, 2), Bit(y, 4, 4), Bit(y, 8, 8)),
              Sum4(Bit(y, 16, 16), Bit(y, 32, 32), Bit(y, 64, 64), Bit(y, 128, 128)));
    MulSum4(x, Bit(y, 1, 1), Bit(y, 2, 2), Bit(y, 4, 4), Bit(y, 8, 8));
    MulSum4(x, Bit(y, 16, 16), Bit(y, 32, 32), Bit(y, 64, 64), Bit(y, 128, 128));
    MulBit(x, y, 1);
    MulBit(x, y, 2);
    MulBit(x, y, 4);
    MulBit(x, y, 8);
    MulBit(x, y, 16);
    MulBit(x, y, 32);
    MulBit(x, y, 64);
    MulBit(x, y, 128);
    MulPowers(x);
  }

  /** The inverse is one. */
  lemma InverseProduct(x: bv8)
    requires x != 0
    ensures Mul(x, Inv(x)) == 1
  {
    hide Pow3;
    KeyPowers();
    PowerOne();
    var j := 255 - Log(x);
    PowerNotZero(j);
    if j == 0 {
      assert Inv(x) == 1;
      LogUnique(255);
    } else {
      LogUnique(j);
    }
  }

  /** The inverse is the one factor that makes the product 1. */
  lemma InverseExact(x: bv8, z: bv8)
    requires x != 0
    ensures Mul(x, z) == 1 <==> z == Inv(x)
  {
    hide Pow3;
    InverseProduct(x);
    if Mul(x, z) == 1 {
      PowerOne();
      KeyPowers();
      var n := (Log(x) + Log(z)) % 255;
      if n != 0 {
        NoShorterPeriod(n);
      }
      if Log(x) == 255 {
        assert Log(z) == 255;
      } else {
        assert Log(z) == 255 - Log(x);
      }
    }
  }

  // ----- The inverse box -----

  /** The inverse of the affine map. */
  function InvAffine(y: bv8): bv8 { Rotate(y) ^ Rotate(Rotate(Rotate(y))) ^ Rotate(Rotate(Rotate(Rotate(Rotate(Rotate(y)))))) ^ 0x05 }

  lemma AffineInverse(x: bv8)
    ensures InvAffine(Affine(x)) == x && Affine(InvAffine(x)) == x
  {
  }

  lemma InvTwice(x: bv8)
    ensures Inv(Inv(x)) == x
  {
    hide Pow3;
    if x != 0 {
      KeyPowers();
      PowerOne();
      var j := 255 - Log(x);
      PowerNotZero(j);
      LogUnique(if j == 0 then 255 else j);
    }
  }

  ghost function InvSub(y: bv8): (x: bv8)
    ensures Sub(x) == y
  {
    InvTwice(InvAffine(y));
    AffineInverse(y);
    Inv(InvAffine(y))
  }

  lemma InvSubSub(x: bv8)
    ensures InvSub(Sub(x)) == x
  {
    hide Affine, InvAffine, Inv;
    AffineInverse(Inv(x));
    InvTwice(x);
  }

  /** No two bytes have the same image. */
  lemma SubInjective(x: bv8, y: bv8)
    requires Sub(x) == Sub(y)
    ensures x == y
  {
    hide Sub, InvSub;
    InvSubSub(x);
    InvSubSub(y);
  }

  /** The box of section 5.1.1 of FIPS 197: the affine map of the factor that makes the product in the field 1, and
      of 0 for 0. */
  lemma SubMeaning(x: bv8, z: bv8)
    requires if x == 0 then z == 0 else FieldProduct(x, z) == 1
    ensures Sub(x) == Affine(z)
  {
    hide FieldProduct, Affine;
    if x != 0 {
      MulProduct(x, z);
      InverseExact(x, z);
    }
  }
}
