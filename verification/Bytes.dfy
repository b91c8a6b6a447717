/** Bytes and powers of two. */
module Bytes {
  type byte = x: int | 0 <= x < 256

  function Pow2(n: nat): (r: nat)
    ensures r > 0
  {
    if n == 0 then 1 else 2 * Pow2(n - 1)
  }

  /** The number of some bytes in network order. */
  function FromBE(s: seq<byte>): nat {
    if s == [] then 0 else 256 * FromBE(s[..|s| - 1]) + s[|s| - 1]
  }

  lemma FromBE2(a: byte, b: byte)
    ensures FromBE([a]) == a && FromBE([a, b]) == 256 * (a as int) + b
  {
    hide FromBE;
    BESnoc([], a);
    BESnoc([a], b);
    assert [a] + [b] == [a, b];
  }

  lemma FromBE4(a: byte, b: byte, c: byte, d: byte)
    ensures FromBE([a, b, c]) == 0x1_0000 * (a as int) + 256 * (b as int) + c
    ensures FromBE([a, b, c, d]) == 0x100_0000 * (a as int) + 0x1_0000 * (b as int) + 256 * (c as int) + d
  {
    hide FromBE;
    FromBE2(a, b);
    BESnoc([a, b], c);
    BESnoc([a, b, c], d);
    assert [a, b] + [c] == [a, b, c] && [a, b, c] + [d] == [a, b, c, d];
  }

  lemma BESnoc(s: seq<byte>, b: byte)
    ensures FromBE(s + [b]) == 256 * FromBE(s) + b && FromBE([]) == 0 && [] + [b] == [b]
  {
    assert (s + [b])[..|s|] == s;
  }

  lemma {:induction false} PowSum(a: nat, b: nat)
    ensures Pow2(a + b) == Pow2(a) * Pow2(b)
  {
    if b > 0 {
      PowSum(a, b - 1);
    }
  }

  lemma {:induction false} PowMonotone(a: nat, b: nat)
    requires a <= b
    ensures Pow2(a) <= Pow2(b)
  {
    if a < b {
      PowMonotone(a, b - 1);
    }
  }

  lemma MulMono(a: int, b: int, n: nat)
    requires a <= b
    ensures a * n <= b * n
  {
    assert b * n == a * n + (b - a) * n;
  }

  lemma DivMod(x: int, n: nat)
    requires n > 0
    ensures x == x / n * n + x % n && 0 <= x % n < n
  {
  }

  /** Quotient and remainder are determined by the bounds of the remainder. */
  lemma DivUnique(y: int, n: nat, q: int, r: int)
    requires 0 <= r < n && y == q * n + r
    ensures y / n == q && y % n == r
  {
    var d := y / n;
    DivMod(y, n);
    if q < d {
      MulMono(q + 1, d, n);
    } else if d < q {
      MulMono(d + 1, q, n);
    }
  }

  /** All of an aligned block of `n` numbers has the same start. */
  lemma SameBlock(x: int, y: int, n: nat)
    requires n > 0 && x - x % n <= y < x - x % n + n
    ensures y - y % n == x - x % n
  {
    DivMod(x, n);
    DivUnique(y, n, x / n, y - (x - x % n));
  }

  lemma DoubleRemainder(x: int, n: nat)
    requires n > 0
    ensures x % (2 * n) == 2 * (x / 2 % n) + x % 2
  {
    var h := x / 2;
    DivMod(x, 2);
    DivMod(h, n);
    assert h / n * (2 * n) == 2 * (h / n * n);
    DivUnique(x, 2 * n, h / n, 2 * (h % n) + x % 2);
  }

  /** A block of `n` numbers is one half of a block of `2 * n`. */
  lemma HalfBlock(x: int, n: nat)
    requires n > 0
    ensures x % (2 * n) == x % n || x % (2 * n) == x % n + n
  {
    var q, r := x / (2 * n), x % (2 * n);
    DivMod(x, 2 * n);
    assert q * (2 * n) == 2 * q * n;
    if r < n {
      DivUnique(x, n, 2 * q, r);
    } else {
      assert (2 * q + 1) * n == 2 * q * n + n;
      DivUnique(x, n, 2 * q + 1, r - n);
    }
  }

  /** `&` on natural numbers. */
  function And(x: nat, m: nat): nat
    decreases m
  {
    if m == 0 then 0 else 2 * And(x / 2, m / 2) + if x % 2 == 1 && m % 2 == 1 then 1 else 0
  }

  /** Under a mask of low bits the remainder stays. */
  lemma {:induction false} MaskIsRemainder(x: nat, k: nat)
    ensures And(x, Pow2(k) - 1) == x % Pow2(k)
  {
    if k == 0 {
      assert x % 1 == 0;
    } else {
      var n := Pow2(k - 1);
      MaskIsRemainder(x / 2, k - 1);
      assert (2 * n - 1) / 2 == n - 1 && (2 * n - 1) % 2 == 1;
      DoubleRemainder(x, n);
    }
  }
}
