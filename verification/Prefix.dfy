/** Bit prefixes and their comparator, `kavl_bit_cmp` of `nfq2/pools.c`. A prefix is the interval of the
    addresses it covers; the comparator orders disjoint intervals and calls nested ones equal. */
module Prefix {
  import opened Bytes

  const MaxBits: nat := 128

  datatype PrefixData = PrefixData(bitlen: nat, data: seq<byte>)

  /** `struct kavl_bit_elem`: `bitlen` bits in at least as many bytes; bits beyond `bitlen` mean nothing. */
  type Prefix = p: PrefixData | p.bitlen <= MaxBits && p.bitlen <= 8 * |p.data| witness PrefixData(0, [])

  /** The sign of `memcmp` on two byte strings of the same length. */
  function MemCmp(a: seq<byte>, b: seq<byte>): int
    requires |a| == |b|
  {
    if a == [] then 0
    else if a[0] != b[0] then if a[0] < b[0] then -1 else 1
    else MemCmp(a[1..], b[1..])
  }

  /** 2 to the power of 8 - df. */
  function Shift(df: nat): int
    requires df <= 8
  {
    [256, 128, 64, 32, 16, 8, 4, 2, 1][df]
  }

  /** `kavl_bit_cmp`. */
  function BitCmp(p: Prefix, q: Prefix): int {
    var bitlen := if q.bitlen < p.bitlen then q.bitlen else p.bitlen;
    var df, bytes := bitlen % 8, bitlen / 8;
    var cmp := MemCmp(p.data[..bytes], q.data[..bytes]);
    if cmp != 0 || df == 0 then cmp
    else
      var c1, c2 := p.data[bytes] / Shift(df), q.data[bytes] / Shift(df);
      if c1 < c2 then -1 else if c1 == c2 then 0 else 1
  }

  // ----- What the bits of a prefix are -----

  /** Bit `i`, the most significant one first. */
  ghost function Bit(p: PrefixData, i: nat): int
    requires i < 8 * |p.data|
  {
    p.data[i / 8] / Shift(i % 8 + 1) % 2
  }

  /** `p` covers `q`: `q` starts with the bits of `p`. */
  ghost predicate Covers(p: Prefix, q: Prefix) {
    p.bitlen <= q.bitlen && forall i :: 0 <= i < p.bitlen ==> Bit(p, i) == Bit(q, i)
  }

  ghost predicate Nested(p: Prefix, q: Prefix) {
    Covers(p, q) || Covers(q, p)
  }

  /** The first `n` bits as a number. */
  ghost function Val(p: PrefixData, n: nat): nat
    requires n <= 8 * |p.data|
  {
    if n == 0 then 0 else 2 * Val(p, n - 1) + Bit(p, n - 1)
  }

  /** The least and the greatest address a prefix covers, as 128-bit numbers. */
  ghost function Lo(p: Prefix): nat { Val(p, p.bitlen) * Pow2(MaxBits - p.bitlen) }
  ghost function Hi(p: Prefix): int { (Val(p, p.bitlen) + 1) * Pow2(MaxBits - p.bitlen) - 1 }

  // ----- Bytes and bits -----

  lemma ShiftHalf(c: byte, j: nat)
    requires j < 8
    ensures c / Shift(j + 1) == 2 * (c / Shift(j)) + c / Shift(j + 1) % 2
  {
    assert j == 0 || j == 1 || j == 2 || j == 3 || j == 4 || j == 5 || j == 6 || j == 7;
  }

  lemma NoBits(c: byte)
    ensures c / Shift(0) == 0
  {
  }

  /** The bits of a part of one byte, after `8 * k` bits. */
  lemma {:induction false} ByteVal(p: PrefixData, k: nat, df: nat)
    requires k < |p.data| && df <= 8
    ensures Val(p, 8 * k + df) == Val(p, 8 * k) * Pow2(df) + p.data[k] / Shift(df)
  {
    hide Shift;
    NoBits(p.data[k]);
    if df > 0 {
      var v, i := Val(p, 8 * k), 8 * k + df - 1;
      ByteVal(p, k, df - 1);
      ShiftHalf(p.data[k], df - 1);
      assert i / 8 == k && i % 8 == df - 1;
      TwoFold(v, Pow2(df - 1));
    } else {
    }
  }

  lemma TwoFold(v: int, p: int)
    ensures 2 * (v * p) == v * (2 * p)
  {
  }

  lemma WholeByte(p: PrefixData, k: nat)
    requires k < |p.data|
    ensures Val(p, 8 * k + 8) == 256 * Val(p, 8 * k) + p.data[k]
  {
    hide Val;
    ByteVal(p, k, 8);
    Pow256();
    assert Shift(8) == 1;
  }

  lemma Pow256()
    ensures Pow2(8) == 256
  {
    assert Pow2(3) == 8;
    assert Pow2(6) == 64;
  }

  /** `memcmp` compares numbers. */
  lemma {:induction false} MemCmpVal(p: PrefixData, q: PrefixData, i: nat, k: nat)
    requires i <= k <= |p.data| && k <= |q.data| && Val(p, 8 * i) == Val(q, 8 * i)
    ensures var c := MemCmp(p.data[i..k], q.data[i..k]);
            -1 <= c <= 1 && (c < 0 <==> Val(p, 8 * k) < Val(q, 8 * k)) && (c > 0 <==> Val(p, 8 * k) > Val(q, 8 * k))
    decreases k - i
  {
    hide Val, Shift, Pow2;
    if i < k {
      WholeByte(p, i);
      WholeByte(q, i);
      var a, b := p.data[i..k], q.data[i..k];
      assert a[0] == p.data[i] && b[0] == q.data[i] && a[1..] == p.data[i + 1..k] && b[1..] == q.data[i + 1..k];
      if p.data[i] == q.data[i] {
        MemCmpVal(p, q, i + 1, k);
      } else if p.data[i] < q.data[i] {
        ValGrows(p, q, 8 * i + 8, 8 * k);
      } else {
        ValGrows(q, p, 8 * i + 8, 8 * k);
      }
    }
  }

  /** A difference in the first bits decides. */
  lemma {:induction false} ValGrows(p: PrefixData, q: PrefixData, m: nat, n: nat)
    requires m <= n <= 8 * |p.data| && n <= 8 * |q.data| && Val(p, m) < Val(q, m)
    ensures Val(p, n) < Val(q, n)
  {
    if m < n {
      ValGrows(p, q, m, n - 1);
    }
  }

  lemma ValNone(p: PrefixData, q: PrefixData)
    ensures Val(p, 0) == 0 == Val(q, 0)
  {
  }

  /** The comparator compares the common number of leading bits. */
  lemma CmpVal(p: Prefix, q: Prefix)
    ensures var m := if q.bitlen < p.bitlen then q.bitlen else p.bitlen;
            (BitCmp(p, q) < 0 <==> Val(p, m) < Val(q, m)) && (BitCmp(p, q) > 0 <==> Val(p, m) > Val(q, m))
  {
    hide Val, MemCmp, Shift;
    var m := if q.bitlen < p.bitlen then q.bitlen else p.bitlen;
    var k, df := m / 8, m % 8;
    assert m == 8 * k + df;
    ValNone(p, q);
    MemCmpVal(p, q, 0, k);
    assert p.data[0..k] == p.data[..k] && q.data[0..k] == q.data[..k];
    if df != 0 {
      PartCmp(p, q, k, df);
    }
  }

  /** Comparing the leading bits of one byte after equal bytes, or after bytes that differ. */
  lemma PartCmp(p: PrefixData, q: PrefixData, k: nat, df: nat)
    requires k < |p.data| && k < |q.data| && 0 < df < 8
    ensures var (m, u, v) := (8 * k + df, Val(p, 8 * k), Val(q, 8 * k));
            if u == v
            then Val(p, m) - Val(q, m) == p.data[k] / Shift(df) - q.data[k] / Shift(df)
            else (u < v <==> Val(p, m) < Val(q, m)) && (u > v <==> Val(p, m) > Val(q, m))
  {
    hide Val, Shift, Pow2;
    ByteVal(p, k, df);
    ByteVal(q, k, df);
    if Val(p, 8 * k) < Val(q, 8 * k) {
      ValGrows(p, q, 8 * k, 8 * k + df);
    } else if Val(p, 8 * k) > Val(q, 8 * k) {
      ValGrows(q, p, 8 * k, 8 * k + df);
    }
  }

  // ----- Prefixes as intervals -----

  /** Shorter beginnings of a prefix stand for larger intervals. */
  lemma {:induction false} ValBlock(p: PrefixData, m: nat, n: nat)
    requires m <= n <= MaxBits && n <= 8 * |p.data|
    ensures Val(p, m) * Pow2(MaxBits - m) <= Val(p, n) * Pow2(MaxBits - n)
    ensures (Val(p, n) + 1) * Pow2(MaxBits - n) <= (Val(p, m) + 1) * Pow2(MaxBits - m)
  {
    hide Bit;
    if m < n {
      ValBlock(p, m, n - 1);
      BitRange(p, n - 1);
      BlockHalf(Val(p, n - 1), Bit(p, n - 1), Pow2(MaxBits - n));
    }
  }

  lemma BitRange(p: PrefixData, i: nat)
    requires i < 8 * |p.data|
    ensures 0 <= Bit(p, i) <= 1
  {
  }

  lemma BlockHalf(v: int, b: int, e: nat)
    requires 0 <= b <= 1
    ensures v * (2 * e) <= (2 * v + b) * e && (2 * v + b + 1) * e <= (v + 1) * (2 * e)
  {
    assert v * (2 * e) == (2 * v) * e;
    assert (2 * v + b) * e == (2 * v) * e + b * e;
    assert (v + 1) * (2 * e) == (2 * v + 2) * e;
    assert (2 * v + 2) * e == (2 * v + b + 1) * e + (1 - b) * e;
  }

  /** Equal leading numbers mean equal leading bits. */
  lemma {:induction false} ValBits(p: PrefixData, q: PrefixData, m: nat)
    requires m <= 8 * |p.data| && m <= 8 * |q.data|
    ensures Val(p, m) == Val(q, m) <==> forall i :: 0 <= i < m ==> Bit(p, i) == Bit(q, i)
  {
    if m > 0 {
      ValBits(p, q, m - 1);
      BitRange(p, m - 1);
      BitRange(q, m - 1);
    }
  }

  /** The comparator on intervals: less if entirely before, greater if entirely after, equal if one prefix
      covers the other. */
  lemma CmpInterval(p: Prefix, q: Prefix)
    ensures Lo(p) <= Hi(p)
    ensures BitCmp(p, q) < 0 <==> Hi(p) < Lo(q)
    ensures BitCmp(p, q) > 0 <==> Hi(q) < Lo(p)
    ensures BitCmp(p, q) == 0 <==> Nested(p, q)
  {
    hide BitCmp, Bit, Val, Pow2;
    var m := if q.bitlen < p.bitlen then q.bitlen else p.bitlen;
    CmpVal(p, q);
    ValBits(p, q, m);
    ValBlock(p, m, p.bitlen);
    ValBlock(q, m, q.bitlen);
    Blocks(Val(p, m), Val(q, m), Pow2(MaxBits - m));
    Blocks(Val(q, m), Val(p, m), Pow2(MaxBits - m));
    Proper(Val(p, p.bitlen), Pow2(MaxBits - p.bitlen));
    Proper(Val(q, q.bitlen), Pow2(MaxBits - q.bitlen));
  }

  lemma Blocks(a: int, b: int, e: nat)
    requires e > 0
    ensures a < b ==> (a + 1) * e <= b * e
  {
    if a < b {
      assert b * e == (a + 1) * e + (b - a - 1) * e;
    }
  }

  lemma Proper(a: int, e: nat)
    ensures (a + 1) * e == a * e + e
  {
  }

  lemma CoversInside(p: Prefix, q: Prefix)
    requires Covers(p, q)
    ensures Lo(p) <= Lo(q) && Hi(q) <= Hi(p)
  {
    hide Bit, Val, Pow2;
    ValBits(p, q, p.bitlen);
    ValBlock(q, p.bitlen, q.bitlen);
  }

  /** The interval of a prefix has as many addresses as there are ways to go on. */
  lemma IntervalSize(p: Prefix)
    ensures Hi(p) - Lo(p) + 1 == Pow2(MaxBits - p.bitlen)
  {
    Proper(Val(p, p.bitlen), Pow2(MaxBits - p.bitlen));
  }

  lemma {:induction false} PowInjective(a: nat, b: nat)
    requires a < b
    ensures Pow2(a) < Pow2(b)
  {
    PowMonotone(a, b - 1);
  }

  /** Covering is inclusion of intervals. */
  lemma CoversInterval(p: Prefix, q: Prefix)
    ensures Covers(p, q) <==> Lo(p) <= Lo(q) && Hi(q) <= Hi(p)
  {
    hide Covers, Lo, Hi, Pow2, BitCmp;
    if Covers(p, q) {
      CoversInside(p, q);
    } else if Lo(p) <= Lo(q) && Hi(q) <= Hi(p) {
      CmpInterval(p, q);
      CmpInterval(q, p);
      CoversInside(q, p);
      IntervalSize(p);
      IntervalSize(q);
      EqualLength(p, q);
    }
  }

  lemma EqualLength(p: Prefix, q: Prefix)
    requires Covers(q, p) && Pow2(MaxBits - p.bitlen) == Pow2(MaxBits - q.bitlen)
    ensures Covers(p, q)
  {
    if q.bitlen < p.bitlen {
      PowInjective(MaxBits - p.bitlen, MaxBits - q.bitlen);
    }
  }
  // ----- Prefixes as addresses in network order -----

  /** The number that the first `n` bits of an address make in network order. */
  ghost function Leading(a: seq<byte>, n: nat): int
    requires n <= 8 * |a|
  {
    FromBE(a) / Pow2(8 * |a| - n)
  }

  lemma {:induction false} ValFromBE(p: PrefixData, k: nat)
    requires k <= |p.data|
    ensures Val(p, 8 * k) == FromBE(p.data[..k])
  {
    hide Val, FromBE;
    ValNone(p, p);
    BESnoc([], 0);
    assert p.data[..0] == [];
    if k > 0 {
      ValFromBE(p, k - 1);
      WholeByte(p, k - 1);
      BESnoc(p.data[..k - 1], p.data[k - 1]);
      assert p.data[..k] == p.data[..k - 1] + [p.data[k - 1]];
    }
  }

  /** Fewer bits are a quotient. */
  lemma {:induction false} ValQuotient(p: PrefixData, m: nat, n: nat)
    requires m <= n <= 8 * |p.data|
    ensures Val(p, m) == Val(p, n) / Pow2(n - m)
  {
    hide Bit;
    if m < n {
      ValQuotient(p, m, n - 1);
      BitRange(p, n - 1);
      var (q, v, e) := (Val(p, m), Val(p, n - 1), Pow2(n - 1 - m));
      DivMod(v, e);
      HalfQuotient(q, v, v % e, Bit(p, n - 1), e);
    } else {
      assert Val(p, n) / 1 == Val(p, n);
    }
  }

  lemma HalfQuotient(q: nat, v: nat, r: nat, b: int, e: nat)
    requires v == q * e + r && r < e && 0 <= b <= 1
    ensures (2 * v + b) / (2 * e) == q
  {
    assert 2 * v + b == q * (2 * e) + (2 * r + b);
    DivUnique(2 * v + b, 2 * e, q, 2 * r + b);
  }

  lemma {:induction false} ValSame(p: PrefixData, q: PrefixData, k: nat, m: nat)
    requires k <= |q.data| && p.data == q.data[..k] && m <= 8 * k
    ensures Val(p, m) == Val(q, m)
  {
    if m > 0 {
      ValSame(p, q, k, m - 1);
    }
  }

  /** The bits of a prefix that holds the first bytes of an address are the first bits of the address. */
  lemma ValLeading(p: PrefixData, a: seq<byte>, k: nat, m: nat)
    requires k <= |a| && p.data == a[..k] && m <= 8 * k
    ensures Val(p, m) == Leading(a, m)
  {
    hide Val, FromBE, Pow2;
    var q := PrefixData(0, a);
    ValSame(p, q, k, m);
    ValFromBE(q, |a|);
    assert a[..|a|] == a;
    ValQuotient(q, m, 8 * |a|);
  }

  /** Two prefixes are nested exactly if the first bits that both have make the same number. */
  lemma NestedVal(p: Prefix, q: Prefix)
    ensures Nested(p, q) <==> var m := if p.bitlen <= q.bitlen then p.bitlen else q.bitlen; Val(p, m) == Val(q, m)
  {
    hide Val, Bit;
    var m := if p.bitlen <= q.bitlen then p.bitlen else q.bitlen;
    ValBits(p, q, m);
  }
}
