/** The 128-bit addresses of `ip2net/ip2net.c`: comparison and masks by words and bytes, against the numbers that
    the grouping works on. */
module Addr6 {
  import opened Bytes
  import opened Ip2net

  type Addr = s: seq<byte> | |s| == 16 witness seq(16, _ => 0)

  /** The number of some bytes on a little-endian machine; `FromBE` is that in network order. */
  function Le(s: seq<byte>): (x: nat) {
    if s == [] then 0 else s[0] + 256 * Le(s[1..])
  }

  lemma {:induction false} BeBound(s: seq<byte>)
    ensures FromBE(s) < Pow2(8 * |s|)
  {
    if s != [] {
      BeBound(s[..|s| - 1]);
      PowSum(8 * (|s| - 1), 8);
      assert Pow2(8) == 256;
    }
  }

  lemma {:induction false} BeSplit(s: seq<byte>, t: seq<byte>)
    ensures FromBE(s + t) == FromBE(s) * Pow2(8 * |t|) + FromBE(t)
  {
    if t == [] {
      assert s + t == s;
    } else {
      var u, b := t[..|t| - 1], t[|t| - 1];
      BeSplit(s, u);
      assert (s + t)[..|s + t| - 1] == s + u;
      PowSum(8 * |u|, 8);
      assert Pow2(8) == 256;
      assert FromBE(s) * (Pow2(8 * |u|) * 256) == FromBE(s) * Pow2(8 * |u|) * 256;
    }
  }

  // ----- cmp6 -----

  /** `cmp6` by 64-bit words, whose bytes are swapped into network order. */
  function Cmp6(a: Addr, b: Addr): int {
    var (aa, bb) := (FromBE(a[..8]), FromBE(b[..8]));
    if aa < bb then -1
    else if aa > bb then 1
    else
      var (aa, bb) := (FromBE(a[8..]), FromBE(b[8..]));
      if aa < bb then -1 else if aa > bb then 1 else 0
  }

  lemma HigherFirst(h: nat, l: nat, g: nat, k: nat, n: nat)
    requires l < n && k < n && h < g
    ensures h * n + l < g * n + k
  {
    MulMono(h + 1, g, n);
  }

  /** The first different byte decides. */
  lemma FirstDifferent(a: seq<byte>, b: seq<byte>, i: nat)
    requires |a| == |b| && i < |a| && a[..i] == b[..i] && a[i] < b[i]
    ensures FromBE(a) < FromBE(b)
  {
    assert a == a[..i + 1] + a[i + 1..] && b == b[..i + 1] + b[i + 1..];
    BeSplit(a[..i + 1], a[i + 1..]);
    BeSplit(b[..i + 1], b[i + 1..]);
    BeBound(a[i + 1..]);
    BeBound(b[i + 1..]);
    assert a[..i + 1][..i] == a[..i] && b[..i + 1][..i] == b[..i];
    HigherFirst(FromBE(a[..i + 1]), FromBE(a[i + 1..]), FromBE(b[..i + 1]), FromBE(b[i + 1..]), Pow2(8 * (|a| - i - 1)));
  }

  lemma Cmp6Below(a: Addr, b: Addr)
    requires Cmp6(a, b) < 0
    ensures FromBE(a) < FromBE(b) && Cmp6(b, a) > 0
  {
    hide FromBE;
    assert a == a[..8] + a[8..] && b == b[..8] + b[8..];
    BeSplit(a[..8], a[8..]);
    BeSplit(b[..8], b[8..]);
    BeBound(a[8..]);
    BeBound(b[8..]);
    if FromBE(a[..8]) < FromBE(b[..8]) {
      HigherFirst(FromBE(a[..8]), FromBE(a[8..]), FromBE(b[..8]), FromBE(b[8..]), Pow2(64));
    }
  }

  /** The comparison by words is that of the numbers. */
  lemma Cmp6Order(a: Addr, b: Addr)
    ensures (Cmp6(a, b) < 0 <==> FromBE(a) < FromBE(b)) && (Cmp6(a, b) > 0 <==> FromBE(a) > FromBE(b))
  {
    hide FromBE;
    if Cmp6(a, b) < 0 {
      Cmp6Below(a, b);
    } else if Cmp6(a, b) > 0 {
      Cmp6Below(b, a);
    } else {
      assert a == a[..8] + a[8..] && b == b[..8] + b[8..];
      BeSplit(a[..8], a[8..]);
      BeSplit(b[..8], b[8..]);
    }
  }

  /** The loop over bytes that other machines use gives the same. */
  method Cmp6Bytes(a: Addr, b: Addr) returns (r: int)
    ensures r == Cmp6(a, b)
  {
    Cmp6Order(a, b);
    var i := 0;
    while i < 16
      invariant i <= 16 && a[..i] == b[..i]
    {
      if a[i] < b[i] {
        FirstDifferent(a, b, i);
        return -1;
      } else if a[i] > b[i] {
        FirstDifferent(b, a, i);
        return 1;
      }
      i := i + 1;
    }
    assert a == a[..16] == b[..16] == b;
    r := 0;
  }

  // ----- Masks -----

  function AndBytes(a: seq<byte>, m: seq<byte>): (r: seq<byte>)
    requires |a| == |m|
    ensures |r| == |a|
  {
    seq(|a|, i requires 0 <= i < |a| => AndByte(a[i], m[i]))
  }

  function AndByte(x: byte, m: byte): byte {
    AndBound(x, m);
    And(x, m)
  }

  lemma {:induction false} AndBound(x: nat, m: nat)
    ensures And(x, m) <= m
    decreases m
  {
    if m > 0 {
      AndBound(x / 2, m / 2);
    }
  }

  /** The lowest bits of two numbers can be taken on their own. */
  lemma {:induction false} AndLow(a: nat, b: nat, x: nat, y: nat, k: nat)
    requires a < Pow2(k) && b < Pow2(k)
    ensures And(a + Pow2(k) * x, b + Pow2(k) * y) == And(a, b) + Pow2(k) * And(x, y)
  {
    hide And;
    if k == 0 {
      AndBound(0, 0);
    } else {
      var n := Pow2(k - 1);
      AndLow(a / 2, b / 2, x, y, k - 1);
      Doubled(n, x);
      Doubled(n, y);
      Doubled(n, And(x, y));
      LowestBit(a, b, n * x, n * y, n * And(x, y));
    }
  }

  lemma LowestBit(a: nat, b: nat, x: nat, y: nat, z: nat)
    requires And(a / 2 + x, b / 2 + y) == And(a / 2, b / 2) + z
    ensures And(a + 2 * x, b + 2 * y) == And(a, b) + 2 * z
  {
    hide And;
    HalfLow(a, x);
    HalfLow(b, y);
    AndStep(a + 2 * x, b + 2 * y);
    AndStep(a, b);
  }

  lemma Doubled(n: nat, x: nat)
    ensures 2 * n * x == 2 * (n * x)
  {
  }

  lemma HalfLow(a: nat, y: nat)
    ensures (a + 2 * y) / 2 == a / 2 + y && (a + 2 * y) % 2 == a % 2
  {
    DivMod(a, 2);
    DivUnique(a + 2 * y, 2, a / 2 + y, a % 2);
  }

  lemma AndStep(x: nat, m: nat)
    ensures And(x, m) == 2 * And(x / 2, m / 2) + if x % 2 == 1 && m % 2 == 1 then 1 else 0
  {
  }

  lemma {:induction false} LeAnd(a: seq<byte>, m: seq<byte>)
    requires |a| == |m|
    ensures Le(AndBytes(a, m)) == And(Le(a), Le(m))
  {
    if a != [] {
      LeAnd(a[1..], m[1..]);
      assert AndBytes(a, m)[1..] == AndBytes(a[1..], m[1..]);
      assert Pow2(8) == 256;
      AndLow(a[0], m[0], Le(a[1..]), Le(m[1..]), 8);
    }
  }

  /** `ip6_and` with two 64-bit words, or with one 128-bit word, is the same for every byte. */
  lemma Ip6And(a: Addr, m: Addr, r: Addr)
    requires r == AndBytes(a, m)
    ensures Le(r[..8]) == And(Le(a[..8]), Le(m[..8])) && Le(r[8..]) == And(Le(a[8..]), Le(m[8..])) && Le(r) == And(Le(a), Le(m))
  {
    LeAnd(a[..8], m[..8]);
    LeAnd(a[8..], m[8..]);
    LeAnd(a, m);
    assert r[..8] == AndBytes(a[..8], m[..8]) && r[8..] == AndBytes(a[8..], m[8..]);
  }

  /** The bytes of the mask for `zct` zero bits. */
  ghost function MaskByte(zct: nat, i: nat): int {
    if zct >= 128 then 0
    else
      var n := (127 - zct) / 8;
      if i < n then 255 else if i == n then 256 - Pow2(zct % 8) else 0
  }

  /** `mask_from_bitcount6_make`. */
  method MaskMake(zct: nat, a: array<byte>)
    requires zct <= 128 && a.Length == 16
    modifies a
    ensures forall i :: 0 <= i < 16 ==> a[i] == MaskByte(zct, i)
  {
    if zct >= 128 {
      forall i | 0 <= i < 16 {
        a[i] := 0;
      }
    } else {
      var n := (127 - zct) / 8;
      forall i | 0 <= i < 16 {
        a[i] := if i < n then 255 else 0;
      }
      OneByte(zct % 8);
      a[n] := 255 - (Pow2(zct % 8) - 1);
    }
  }

  lemma OneByte(k: nat)
    requires k < 8
    ensures Pow2(k) <= 128
  {
    PowMonotone(k, 7);
    assert Pow2(7) == 128;
  }

  lemma {:induction false} AndHigh(x: nat, k: nat, j: nat, m: nat)
    requires x < Pow2(k + j) && m == Pow2(k + j) - Pow2(k)
    ensures And(x, m) == x - x % Pow2(k)
    decreases k
  {
    if k == 0 {
      MaskIsRemainder(x, j);
      SmallRemainder(x, Pow2(j));
      assert x % 1 == 0;
    } else {
      hide And;
      assert Pow2(k + j) == 2 * Pow2(k - 1 + j) && Pow2(k) == 2 * Pow2(k - 1) && m / 2 == m - m / 2;
      AndHigh(x / 2, k - 1, j, m / 2);
      AndStep(x, m);
      DoubleRemainder(x, Pow2(k - 1));
      DivMod(x, 2);
    }
  }

  lemma SmallRemainder(x: nat, n: nat)
    requires x < n
    ensures x % n == x
  {
    DivUnique(x, n, 0, x);
  }

  lemma AndMaskByte(x: byte, zct: nat, i: nat, m: byte)
    requires zct < 128 && m == MaskByte(zct, i)
    ensures var n := (127 - zct) / 8;
            AndByte(x, m) == if i < n then x else if i == n then x - x % Pow2(zct % 8) else 0
  {
    var n, k := (127 - zct) / 8, zct % 8;
    assert Pow2(8) == 256;
    if i < n {
      MaskIsRemainder(x, 8);
      SmallRemainder(x, 256);
    } else if i == n {
      AndHigh(x, k, 8 - k, m);
    } else {
    }
  }

  lemma {:induction false} BeZeros(s: seq<byte>)
    requires forall i :: 0 <= i < |s| ==> s[i] == 0
    ensures FromBE(s) == 0
  {
    if s != [] {
      BeZeros(s[..|s| - 1]);
    }
  }

  /** The address under the mask is the start of its network. */
  lemma MaskedStart(a: Addr, m: Addr, zct: nat)
    requires zct <= 128 && forall i :: 0 <= i < 16 ==> m[i] == MaskByte(zct, i)
    ensures FromBE(AndBytes(a, m)) == Start(FromBE(a), zct)
  {
    hide AndByte, MaskByte, Start, Pow2, FromBE;
    var r := AndBytes(a, m);
    if zct == 128 {
      AllMasked(a, m);
    } else {
      var n, k := (127 - zct) / 8, zct % 8;
      MaskPlaces(zct);
      forall i | 0 <= i < 16
        ensures r[i] == if i < n then a[i] else if i == n then a[i] - a[i] % Pow2(k) else 0
      {
        AndMaskByte(a[i], zct, i, m[i]);
      }
      Cut3(a, n);
      Cut3(r, n);
      assert r[..n] == a[..n];
      BeZeros(r[n + 1..]);
      BeBound(a[n + 1..]);
      Rounded(FromBE(a[..n]), a[n], FromBE(a[n + 1..]), k, 15 - n);
      StartIs(FromBE(a), zct);
    }
  }

  lemma MaskPlaces(zct: nat)
    requires zct < 128
    ensures var n := (127 - zct) / 8; n < 16 && zct == 8 * (15 - n) + zct % 8
  {
    DivMod(127 - zct, 8);
    DivMod(zct, 8);
  }

  lemma StartIs(x: nat, z: nat)
    ensures Start(x, z) == x - x % Pow2(z)
  {
  }

  lemma AllMasked(a: Addr, m: Addr)
    requires forall i :: 0 <= i < 16 ==> m[i] == MaskByte(128, i)
    ensures FromBE(AndBytes(a, m)) == Start(FromBE(a), 128)
  {
    BeZeros(AndBytes(a, m));
    BeBound(a);
    SmallRemainder(FromBE(a), Pow2(128));
  }

  lemma Cut3(a: Addr, n: nat)
    requires n < 16
    ensures FromBE(a) == (FromBE(a[..n]) * 256 + a[n]) * Pow2(8 * (15 - n)) + FromBE(a[n + 1..])
  {
    hide FromBE, Pow2;
    var u, v := a[..n + 1], a[n + 1..];
    assert a == u + v && u[..|u| - 1] == a[..n];
    BeSplit(u, v);
    BeLast(u);
  }

  lemma BeLast(s: seq<byte>)
    requires s != []
    ensures FromBE(s) == FromBE(s[..|s| - 1]) * 256 + s[|s| - 1]
  {
  }

  lemma Rounded(hi: nat, x: byte, lo: nat, k: nat, j: nat)
    requires k < 8 && lo < Pow2(8 * j)
    ensures var (u, p) := ((hi * 256 + x) * Pow2(8 * j) + lo, Pow2(8 * j + k));
            u - u % p == (hi * 256 + (x - x % Pow2(k))) * Pow2(8 * j)
  {
    var w, c, d := Pow2(8 * j), Pow2(k), Pow2(8 - k);
    PowSum(8 * j, k);
    PowSum(k, 8 - k);
    assert Pow2(8) == 256;
    DivMod(x, c);
    RoundedParts(hi, x / c, x % c, lo, w, c, d);
    DivUnique((hi * 256 + x) * w + lo, w * c, hi * d + x / c, x % c * w + lo);
  }

  lemma RoundedParts(hi: nat, q: nat, r: nat, lo: nat, w: nat, c: nat, d: nat)
    requires c * d == 256 && r < c && lo < w
    ensures (hi * 256 + q * c) * w == (hi * d + q) * (w * c) && 0 <= r * w + lo < w * c
    ensures (hi * 256 + (q * c + r)) * w + lo == (hi * d + q) * (w * c) + (r * w + lo)
  {
    HigherFirst(r, lo, c, 0, w);
    Regroup(hi, d, q, w, c);
    Spread(hi * 256 + q * c, r, w);
  }

  lemma Spread(a: nat, r: nat, w: nat)
    ensures (a + r) * w == a * w + r * w && r * w >= 0
  {
  }

  lemma Regroup(h: nat, d: nat, q: nat, w: nat, c: nat)
    ensures (h * (c * d) + q * c) * w == (h * d + q) * (w * c)
  {
    var a := h * d;
    assert h * (c * d) == a * c;
    assert a * c + q * c == (a + q) * c;
    assert ((a + q) * c) * w == (a + q) * (w * c);
  }
}
