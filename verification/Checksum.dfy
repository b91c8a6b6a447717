/** The Internet checksum of `nfq2/checksum.c` on a little-endian machine, against the plain sum of 16-bit words
    of section 2 of RFC 1071. */
module Checksum {
  import opened Bytes

  /** Sum of the 16-bit words, the first byte of each in the lower half, a last single byte on its own. */
  ghost function WordSum(s: seq<byte>): nat {
    if s == [] then 0 else if |s| == 1 then s[0] else s[0] + 256 * s[1] + WordSum(s[2..])
  }

  /** Addition with end-around carry: the representative of `x` modulo `m` from 1 to `m`, or 0 for 0. */
  ghost function Fold(m: nat, x: nat): nat
    requires m > 0
  {
    if x == 0 then 0 else (x - 1) % m + 1
  }

  lemma FoldUnique(m: nat, x: nat, r: nat, q: int)
    requires m > 0 && r <= m && r + q * m == x && (r == 0 <==> x == 0)
    ensures Fold(m, x) == r
  {
    if x > 0 {
      DivUnique(x - 1, m, q, r - 1);
    }
  }

  lemma FoldFacts(m: nat, x: nat) returns (q: int)
    requires m > 0
    ensures Fold(m, x) + q * m == x && Fold(m, x) <= m && (Fold(m, x) == 0 <==> x == 0)
  {
    if x == 0 {
      q := 0;
    } else {
      q := (x - 1) / m;
      assert x - 1 == q * m + (x - 1) % m;
    }
  }

  // ----- from64to16 -----

  /** The sum of the four halfwords. */
  function Halves(x: nat): nat {
    x % 0x1_0000 + x / 0x1_0000 % 0x1_0000 + x / 0x1_0000_0000 % 0x1_0000 + x / 0x1_0000_0000_0000 % 0x1_0000
  }

  /** `from64to16`. */
  function From64to16(x: nat): nat {
    var u := Halves(x) % 0x1_0000_0000;
    (u % 0x1_0000 + u / 0x1_0000 % 0x1_0000) % 0x1_0000
  }

  /** The second addition has a carry of its own, which is dropped. */
  predicate Drops(x: nat) { Halves(x) in {0x1FFFF, 0x2FFFE, 0x2FFFF} }

  lemma HalvesCongruent(x: nat) returns (q: int)
    requires x < 0x1_0000_0000_0000_0000
    ensures Halves(x) + q * 65535 == x && Halves(x) <= 0x3FFFC && (Halves(x) == 0 <==> x == 0)
  {
    var a, b := x % 0x1_0000, x / 0x1_0000;
    var c, d := b % 0x1_0000, b / 0x1_0000;
    var e, f := d % 0x1_0000, d / 0x1_0000;
    assert x == a + 0x1_0000 * c + 0x1_0000_0000 * e + 0x1_0000_0000_0000 * f;
    q := c + 0x1_0001 * e + 0x1_0001_0001 * f;
  }

  /** `from64to16` is right for all 64-bit numbers except where its second addition drops a carry. */
  lemma From64Exact(x: nat)
    requires x < 0x1_0000_0000_0000_0000
    ensures From64to16(x) == Fold(65535, x) <==> !Drops(x)
    ensures From64to16(x) < 0x1_0000 && Fold(65535, x) < 0x1_0000
  {
    hide Halves, Fold;
    var q := HalvesCongruent(x);
    var u := Halves(x);
    var lo, hi := u % 0x1_0000, u / 0x1_0000;
    assert u == lo + hi + 65535 * hi && hi <= 3;
    if lo + hi < 0x1_0000 {
      FoldUnique(65535, x, lo + hi, q + hi);
    } else {
      FoldUnique(65535, x, lo + hi - 65535, q + hi + 1);
    }
  }

  // ----- Words in memory -----

  function W16(s: seq<byte>, p: nat): nat
    requires p + 2 <= |s|
  {
    s[p] as int + 256 * (s[p + 1] as int)
  }

  function W32(s: seq<byte>, p: nat): nat
    requires p + 4 <= |s|
  {
    W16(s, p) + 0x1_0000 * W16(s, p + 2)
  }

  function W64(s: seq<byte>, p: nat): nat
    requires p + 8 <= |s|
  {
    W32(s, p) + 0x1_0000_0000 * W32(s, p + 4)
  }

  /** The words of `s` from `p` on. */
  ghost function From(s: seq<byte>, p: nat): nat
    requires p <= |s|
  {
    WordSum(s[p..])
  }

  lemma Take16(s: seq<byte>, p: nat)
    requires p + 2 <= |s|
    ensures From(s, p) == W16(s, p) + From(s, p + 2) && W16(s, p) < 0x1_0000
  {
    assert s[p..][2..] == s[p + 2..];
  }

  lemma Take32(s: seq<byte>, p: nat) returns (q: int)
    requires p + 4 <= |s|
    ensures From(s, p) == W32(s, p) - q * 65535 + From(s, p + 4) && q >= 0 && W32(s, p) < 0x1_0000_0000
    ensures From(s, p) == 0 <==> W32(s, p) == 0 && From(s, p + 4) == 0
  {
    Take16(s, p);
    Take16(s, p + 2);
    q := W16(s, p + 2);
  }

  lemma Take64(s: seq<byte>, p: nat) returns (q: int)
    requires p + 8 <= |s|
    ensures From(s, p) == W64(s, p) - q * 65535 + From(s, p + 8) && q >= 0 && W64(s, p) < 0x1_0000_0000_0000_0000
    ensures From(s, p) == 0 <==> W64(s, p) == 0 && From(s, p + 8) == 0
  {
    var a := Take32(s, p);
    var b := Take32(s, p + 4);
    q := a + b + 0x1_0001 * W32(s, p + 4);
  }

  // ----- The accumulator -----

  const Max64: nat := 0xFFFF_FFFF_FFFF_FFFF

  ghost function Dwords(s: seq<byte>, p: nat, n: nat): nat
    requires p + 8 * n <= |s|
  {
    if n == 0 then 0 else Dwords(s, p, n - 1) + W64(s, p + 8 * (n - 1))
  }

  /** Where the bytes begin that can be read as 16-bit, 32-bit and 64-bit words at their natural alignment. */
  function P1(addr: nat, len: nat): (p: nat)
    ensures p <= len
  {
    if addr % 2 == 1 && len > 0 then 1 else 0
  }

  function P2(addr: nat, len: nat): (p: nat)
    ensures p <= len
  {
    P1(addr, len) + if len >= P1(addr, len) + 2 && (addr + P1(addr, len)) / 2 % 2 == 1 then 2 else 0
  }

  function P3(addr: nat, len: nat): (p: nat)
    ensures p <= len
  {
    P2(addr, len) + if len >= P2(addr, len) + 4 && (addr + P2(addr, len)) / 4 % 2 == 1 then 4 else 0
  }

  ghost function Head16(s: seq<byte>, addr: nat): nat {
    var (p1, p2) := (P1(addr, |s|), P2(addr, |s|));
    (if p1 > 0 then 256 * s[0] else 0) + if p2 > p1 then W16(s, p1) else 0
  }

  ghost function Head(s: seq<byte>, addr: nat): nat {
    var (p2, p3) := (P2(addr, |s|), P3(addr, |s|));
    Head16(s, addr) + if p3 > p2 then W32(s, p2) else 0
  }

  /** The words left over behind the 64-bit words. */
  ghost function Tail(s: seq<byte>, t: nat): nat
    requires t <= |s| < t + 8
  {
    var r := |s| - t;
    var t2 := if r >= 4 then t + 4 else t;
    (if r >= 4 then W32(s, t) else 0) + (if |s| - t2 >= 2 then W16(s, t2) else 0) + if r % 2 == 1 then s[|s| - 1] else 0
  }

  ghost function Split32(x: nat): nat { x % 0x1_0000_0000 + x / 0x1_0000_0000 }

  /** Head and 64-bit words together, folded to 33 bits if there are any of the latter. */
  ghost function Body(s: seq<byte>, addr: nat): nat {
    var p := P3(addr, |s|);
    var n := (|s| - p) / 8;
    if n > 0 then Split32(Fold(Max64, Head(s, addr) + Dwords(s, p, n))) else Head(s, addr)
  }

  /** Where the bytes behind the 64-bit words begin. */
  function P4(addr: nat, len: nat): (p: nat)
    ensures p <= len < p + 8
  {
    var n := len - P3(addr, len);
    DivMod(n, 8);
    P3(addr, len) + n / 8 * 8
  }

  /** What is in `result` before it is folded to 16 bits. */
  ghost function Acc(s: seq<byte>, addr: nat): nat {
    Body(s, addr) + Tail(s, P4(addr, |s|))
  }

  function Swap(u: nat): nat { u / 256 % 256 + 256 * (u % 256) }

  ghost function Csum(s: seq<byte>, addr: nat): nat {
    if s == [] then 0 else if addr % 2 == 1 then Swap(From64to16(Acc(s, addr))) else From64to16(Acc(s, addr))
  }

  /** The loop over the 64-bit words with its deferred carry. */
  method SumDwords(buff: seq<byte>, addr: nat, pos: nat, count: nat, start: nat) returns (result: nat)
    requires count > 0 && pos + 8 * count <= |buff| && start < 0x2_0000_0000 && (addr + pos) % 8 == 0
    ensures result == Fold(Max64, start + Dwords(buff, pos, count))
  {
    hide W64, Fold;
    var i, carry := 0, 0;
    ghost var q := 0;
    result := start;
    while i < count
      invariant i <= count && carry <= 1 && result + carry <= Max64
      invariant result + carry + q * Max64 == start + Dwords(buff, pos, i)
      invariant result + carry == 0 <==> start + Dwords(buff, pos, i) == 0
    {
      assert (addr + pos + 8 * i) % 8 == 0;
      Bounds64(buff, pos + 8 * i);
      var w := W64(buff, pos + 8 * i);
      i := i + 1;
      result := (result + carry) % 0x1_0000_0000_0000_0000;
      result := (result + w) % 0x1_0000_0000_0000_0000;
      carry := if w > result then 1 else 0;
      q := q + carry;
    }
    result := result + carry;
    FoldUnique(Max64, start + Dwords(buff, pos, count), result, q);
  }

  lemma Bounds64(s: seq<byte>, p: nat)
    requires p + 8 <= |s|
    ensures W64(s, p) <= Max64
  {
  }

  /** The part of `do_csum` for at least one 32-bit word at `p`, of `count` such words in `len` bytes. */
  method SumWords(buff: seq<byte>, addr: nat, p0: nat, len0: nat, count32: nat, start: nat) returns (result: nat, p: nat)
    requires p0 == P2(addr, |buff|) && len0 == |buff| - p0 && count32 == len0 / 4 && count32 > 0
    requires start == Head16(buff, addr)
    ensures var t := P4(addr, |buff|);
            result == Body(buff, addr) + (if |buff| - t >= 4 then W32(buff, t) else 0) && p == if |buff| - t >= 4 then t + 4 else t
    ensures p + len0 % 4 == |buff|
  {
    hide W16, W32, W64, Dwords, Fold, Head16, Head, P1, P2, P3, P4, Body;
    ghost var n := |buff|;
    var len, count := len0, count32;
    result, p := start, p0;
    HeadBound(buff, addr);
    ThirdPlace(buff, addr);
    Eighths(len);
    if (addr + p) / 4 % 2 == 1 {
      assert (addr + p) % 4 == 0;
      result := result + W32(buff, p);
      count, len, p := count - 1, len - 4, p + 4;
    }
    assert p == P3(addr, n) && len == n - p && count == len / 4 && result == Head(buff, addr);
    Eighths(len);
    BodyFrom(buff, addr, count / 2);
    count := count / 2;
    if count > 0 {
      result := SumDwords(buff, addr, p, count, result);
      StillAligned(addr + p, count);
      p := p + 8 * count;
      result := result % 0x1_0000_0000 + result / 0x1_0000_0000;
    }
    if len / 4 % 2 == 1 {
      assert (addr + p) % 4 == 0;
      result := result + W32(buff, p);
      p := p + 4;
    }
  }

  lemma Eighths(n: nat)
    ensures n == n / 8 * 8 + n / 4 % 2 * 4 + n % 4 && n / 4 / 2 == n / 8 && n % 4 < 4
    ensures n >= 4 ==> (n - 4) % 4 == n % 4 && (n - 4) / 4 == n / 4 - 1
  {
    var h := n / 4;
    DivMod(n, 4);
    DivMod(h, 2);
    DivUnique(n, 8, h / 2, h % 2 * 4 + n % 4);
    if n >= 4 {
      DivUnique(n - 4, 4, h - 1, n % 4);
    }
  }

  lemma ThirdPlace(s: seq<byte>, addr: nat)
    requires |s| >= P2(addr, |s|) + 4
    ensures var (p2, p3) := (P2(addr, |s|), P3(addr, |s|));
            (addr + p2) % 4 == 0 && (|s| >= p3 + 8 ==> (addr + p3) % 8 == 0) && (addr + p3) % 4 == 0 &&
            (if (addr + p2) / 4 % 2 == 1 then p3 == p2 + 4 && Head(s, addr) == Head16(s, addr) + W32(s, p2)
             else p3 == p2 && Head(s, addr) == Head16(s, addr))
  {
    Aligned(addr, |s|);
    hide P1, P2, Head16, W32;
  }

  lemma StillAligned(x: nat, count: nat)
    requires x % 4 == 0
    ensures (x + 8 * count) % 4 == 0
  {
    DivMod(x, 4);
    DivUnique(x + 8 * count, 4, x / 4 + 2 * count, 0);
  }

  lemma BodyFrom(s: seq<byte>, addr: nat, count: nat)
    requires count == (|s| - P3(addr, |s|)) / 8
    ensures P4(addr, |s|) == P3(addr, |s|) + 8 * count
    ensures var p := P3(addr, |s|);
            Body(s, addr) == if count > 0 then Split32(Fold(Max64, Head(s, addr) + Dwords(s, p, count))) else Head(s, addr)
  {
    hide P3, Head, Dwords, Split32, Fold;
  }

  lemma Align2(x: nat)
    requires x % 2 == 0
    ensures if x / 2 % 2 == 1 then (x + 2) % 4 == 0 else x % 4 == 0
  {
  }

  lemma Align4(x: nat)
    requires x % 4 == 0
    ensures if x / 4 % 2 == 1 then (x + 4) % 8 == 0 else x % 8 == 0
  {
  }

  lemma Aligned(addr: nat, len: nat)
    ensures len >= P1(addr, len) + 2 ==> (addr + P1(addr, len)) % 2 == 0
    ensures len >= P2(addr, len) + 4 ==> (addr + P2(addr, len)) % 4 == 0 && (len >= P3(addr, len) + 4 ==> (addr + P3(addr, len)) % 8 == 0)
  {
    var x := addr + P1(addr, len);
    if len >= P1(addr, len) + 2 {
      assert x % 2 == 0;
      Align2(x);
      if len >= P2(addr, len) + 4 {
        Align4(addr + P2(addr, len));
      }
    }
  }

  /** The words behind the last 32-bit word. */
  ghost function Rest(s: seq<byte>, p: nat): nat
    requires p <= |s| < p + 4
  {
    (if |s| >= p + 2 then W16(s, p) else 0) + if (|s| - p) % 2 == 1 then s[|s| - 1] else 0
  }

  /** The sum if no 32-bit word fits at 32-bit alignment. */
  lemma AccShort(s: seq<byte>, addr: nat)
    requires |s| < P2(addr, |s|) + 4
    ensures Acc(s, addr) == Head16(s, addr) + Rest(s, P2(addr, |s|))
  {
    var n, p := |s|, P2(addr, |s|);
    hide Head16, W16, P2;
    assert P3(addr, n) == p;
    assert (n - p) / 8 == 0;
    assert P4(addr, n) == p;
    assert Body(s, addr) == Head16(s, addr);
  }

  lemma AccLong(s: seq<byte>, addr: nat)
    ensures var t := P4(addr, |s|);
            Acc(s, addr) == Body(s, addr) +
              if |s| - t >= 4 then W32(s, t) + Rest(s, t + 4) else Rest(s, t)
  {
    hide Body, W16, W32, P3;
  }

  lemma Quarters(n: nat)
    ensures n % 4 == n / 2 % 2 * 2 + n % 2 && n / 2 / 2 == n / 4 && (n >= 2 ==> (n / 2 - 1) / 2 == (n - 2) / 4)
  {
    var h := n / 2;
    DivUnique(n, 4, h / 2, h % 2 * 2 + n % 2);
  }

  lemma AlignedEnd(a: nat, b: nat, len: nat)
    requires a % 4 == 0 && b + len % 4 == a + len
    ensures b % 2 == 0
  {
    DivMod(a, 4);
    DivMod(len, 4);
    DivUnique(b, 2, 2 * (a / 4 + len / 4), 0);
  }

  /** The end of `do_csum`. */
  method SumRest(buff: seq<byte>, addr: nat, p0: nat, len: nat, start: nat) returns (result: nat)
    requires p0 + len % 4 == |buff| && (len >= 2 ==> (addr + p0) % 2 == 0)
    ensures result == start + Rest(buff, p0)
  {
    hide W16;
    Quarters(len);
    var p := p0;
    result := start;
    if len / 2 % 2 == 1 {
      result := result + W16(buff, p);
      p := p + 2;
    }
    if len % 2 == 1 {
      result := result + buff[p];
    }
  }

  /** `do_csum`, with `buff` at address `addr`; all words are read at their natural alignment. */
  method DoCsum(buff: seq<byte>, addr: nat) returns (u16: nat)
    ensures u16 == Csum(buff, addr)
  {
    hide W16, W32, W64, From64to16, Acc, Body, P3, P4, Swap, Rest;
    var n := |buff|;
    if n == 0 {
      return 0;
    }
    var len, p, result := n, 0, 0;
    var odd := addr % 2 == 1;
    if odd {
      result, len, p := 256 * (buff[0] as int), len - 1, 1;
    }
    Aligned(addr, n);
    AccLong(buff, addr);
    if n < P2(addr, n) + 4 {
      AccShort(buff, addr);
    }
    var count := len / 2;
    if count > 0 {
      if (addr + p) / 2 % 2 == 1 {
        assert (addr + p) % 2 == 0;
        result := result + W16(buff, p);
        count, len, p := count - 1, len - 2, p + 2;
      }
      count := count / 2;
      if count > 0 {
        ghost var a := addr + p;
        result, p := SumWords(buff, addr, p, len, count, result);
        AlignedEnd(a, addr + p, len);
      }
    }
    result := SumRest(buff, addr, p, len, result);
    u16 := From64to16(result);
    if odd {
      u16 := Swap(u16);
    }
  }

  lemma HeadBound(s: seq<byte>, addr: nat)
    ensures Head16(s, addr) < 0x2_0000 && Head(s, addr) < 0x2_0000_0000
  {
  }

  // ----- What the sum is -----

  lemma {:induction false} TakeDwords(s: seq<byte>, p: nat, n: nat) returns (q: int)
    requires p + 8 * n <= |s|
    ensures From(s, p) == Dwords(s, p, n) - q * 65535 + From(s, p + 8 * n) && q >= 0
    ensures From(s, p) == 0 <==> Dwords(s, p, n) == 0 && From(s, p + 8 * n) == 0
  {
    hide From, W64;
    if n == 0 {
      q := 0;
    } else {
      q := TakeDwords(s, p, n - 1);
      var r := Take64(s, p + 8 * (n - 1));
      q := q + r;
    }
  }

  /** The 16-bit words that are summed: those of `s`, or if it starts at an odd address the first byte as an
      upper half and the words of the rest. */
  ghost function Total(s: seq<byte>, addr: nat): nat {
    var p := P1(addr, |s|);
    (if p > 0 then 256 * s[0] else 0) + From(s, p)
  }

  lemma HeadSum(s: seq<byte>, addr: nat) returns (q: int)
    ensures Total(s, addr) == Head(s, addr) + From(s, P3(addr, |s|)) - q * 65535 && q >= 0
    ensures Total(s, addr) == 0 <==> Head(s, addr) == 0 && From(s, P3(addr, |s|)) == 0
  {
    hide From, W16, W32;
    q := 0;
    var (p1, p2, p3) := (P1(addr, |s|), P2(addr, |s|), P3(addr, |s|));
    if p2 > p1 {
      Take16(s, p1);
    }
    if p3 > p2 {
      q := Take32(s, p2);
    }
  }

  lemma TailSum(s: seq<byte>, t: nat) returns (q: int)
    requires t <= |s| < t + 8
    ensures From(s, t) == Tail(s, t) - q * 65535 && Tail(s, t) < 0x1_0001_0100 && (From(s, t) == 0 <==> Tail(s, t) == 0) && q >= 0
  {
    hide W16, W32;
    q := 0;
    var u := t;
    if |s| - t >= 4 {
      q := Take32(s, t);
      u := t + 4;
    }
    if |s| - u >= 2 {
      Take16(s, u);
      u := u + 2;
    }
    assert From(s, u) == if (|s| - t) % 2 == 1 then s[|s| - 1] else 0;
  }

  lemma BodySum(s: seq<byte>, addr: nat) returns (q: int)
    ensures P4(addr, |s|) <= |s| < P4(addr, |s|) + 8
    ensures Total(s, addr) == Body(s, addr) + From(s, P4(addr, |s|)) - q * 65535 && Body(s, addr) <= 0x1_FFFF_FFFF
    ensures Total(s, addr) == 0 <==> Body(s, addr) == 0 && From(s, P4(addr, |s|)) == 0
  {
    hide Head, From, Total, Dwords, W32, Fold;
    HeadBound(s, addr);
    var p := P3(addr, |s|);
    var n := (|s| - p) / 8;
    q := HeadSum(s, addr);
    if n > 0 {
      var a := TakeDwords(s, p, n);
      var x := Head(s, addr) + Dwords(s, p, n);
      var b := FoldFacts(Max64, x);
      var f := Fold(Max64, x);
      SplitFold(f);
      q := q + a - b * 0x1_0001_0001_0001 - f / 0x1_0000_0000 * 0x1_0001;
    }
  }

  lemma SplitFold(f: nat)
    requires f <= Max64
    ensures Split32(f) == f - f / 0x1_0000_0000 * 0xFFFF_FFFF && Split32(f) <= 0x1_FFFF_FFFE && (Split32(f) == 0 <==> f == 0)
  {
  }

  /** What is folded at the end is a sum of the words up to multiples of 65535, and needs less than 35 bits. */
  lemma AccSum(s: seq<byte>, addr: nat) returns (q: int)
    ensures Total(s, addr) == Acc(s, addr) - q * 65535 && (Total(s, addr) == 0 <==> Acc(s, addr) == 0)
    ensures Acc(s, addr) <= 0x3_0001_00FE
  {
    q := BodySum(s, addr);
    var r := TailSum(s, P4(addr, |s|));
    q := q + r;
  }

  /** Shifted by one byte, a sum of words is 256 times as large. */
  lemma {:induction false} ShiftedSum(s: seq<byte>) returns (q: int)
    requires s != []
    ensures WordSum(s) + q * 65535 == s[0] + 256 * WordSum(s[1..]) && q >= 0
    ensures WordSum(s) == 0 <==> s[0] == 0 && WordSum(s[1..]) == 0
  {
    if |s| <= 2 {
      assert |s| == 2 ==> s[2..] == [] && |s[1..]| == 1;
      assert |s| == 1 ==> s[1..] == [];
      q := 0;
    } else {
      var t := s[2..];
      var r := ShiftedSum(t);
      assert s[1..][2..] == t[1..] && s[1..][0] == s[1] && s[1..][1] == t[0];
      q := r + t[0];
    }
  }

  lemma SwapFacts(u: nat, v: nat)
    requires u < 0x1_0000 && v < 0x1_0000
    ensures Swap(u) + 65535 * (u / 256) == 256 * u && Swap(u) <= 0xFFFF && (Swap(u) == 0 <==> u == 0)
    ensures Swap(u) == Swap(v) <==> u == v
  {
    assert u == 256 * (u / 256) + u % 256 && v == 256 * (v / 256) + v % 256;
  }

  /** The sum of the words is what is folded at the end, with its bytes swapped for an odd start. */
  lemma FoldedSum(s: seq<byte>, addr: nat)
    ensures var f := Fold(65535, Acc(s, addr));
            f <= 65535 && Fold(65535, WordSum(s)) == if s != [] && addr % 2 == 1 then Swap(f) else f
  {
    hide Fold, Acc, Swap;
    var q := AccSum(s, addr);
    var a := Acc(s, addr);
    var r := FoldFacts(65535, a);
    var f := Fold(65535, a);
    if s != [] && addr % 2 == 1 {
      var k := ShiftedSum(s);
      SwapFacts(f, f);
      assert s[1..] == s[P1(addr, |s|)..];
      assert 256 * Total(s, addr) == 65536 * s[0] + 256 * WordSum(s[1..]);
      FoldUnique(65535, WordSum(s), Swap(f), 256 * (r - q) - s[0] - k + f / 256);
    } else {
      assert s[0..] == s;
      FoldUnique(65535, WordSum(s), f, r - q);
    }
  }

  /** For every length and every alignment `do_csum` is the one's complement sum of the 16-bit words, except
      exactly when the last addition of `from64to16` drops a carry. */
  lemma CsumExact(s: seq<byte>, addr: nat)
    ensures Csum(s, addr) == Fold(65535, WordSum(s)) <==> !Drops(Acc(s, addr))
  {
    hide Fold, From64to16, Halves, Acc, Drops, Swap, WordSum;
    var q := AccSum(s, addr);
    FoldedSum(s, addr);
    From64Exact(Acc(s, addr));
    SwapFacts(Fold(65535, Acc(s, addr)), From64to16(Acc(s, addr)));
    EmptyFold();
    EmptyAcc(s, addr);
  }

  lemma EmptyAcc(s: seq<byte>, addr: nat)
    ensures s == [] ==> Acc(s, addr) == 0
  {
  }

  lemma EmptyFold()
    ensures Fold(65535, 0) == 0 && !Drops(0) && Fold(65535, WordSum([])) == 0
  {
  }

  /** A drop is off by one, in the lower or in the upper half. */
  lemma CsumOff(s: seq<byte>, addr: nat) returns (d: nat)
    ensures Csum(s, addr) + d == Fold(65535, WordSum(s)) && Csum(s, addr) <= 0xFFFF && d in {0, 1, 256}
    ensures d == 0 <==> !Drops(Acc(s, addr))
  {
    hide Fold, From64to16, Halves, Acc, Drops, Swap, WordSum;
    var q := AccSum(s, addr);
    var a := Acc(s, addr);
    CsumExact(s, addr);
    FoldedSum(s, addr);
    From64Exact(a);
    EmptyFold();
    EmptyAcc(s, addr);
    SwapFacts(From64to16(a), Fold(65535, a));
    if Drops(a) {
      DropValue(a);
      SmallSwap(From64to16(a));
    }
    d := Fold(65535, WordSum(s)) - Csum(s, addr);
  }

  lemma SmallSwap(u: nat)
    requires u <= 1
    ensures Swap(u + 1) == Swap(u) + 256
  {
  }

  lemma DropValue(x: nat)
    requires x < 0x1_0000_0000_0000_0000 && Drops(x)
    ensures From64to16(x) <= 1 && Fold(65535, x) == From64to16(x) + 1
  {
    hide Halves, Fold;
    var q := HalvesCongruent(x);
    if Halves(x) == 0x1FFFF {
      FoldUnique(65535, x, 1, q + 2);
    } else if Halves(x) == 0x2FFFE {
      FoldUnique(65535, x, 1, q + 3);
    } else {
      FoldUnique(65535, x, 2, q + 3);
    }
  }

  ghost const Twelve: seq<byte> := [1, 0, 0, 0, 255, 255, 255, 255, 255, 255, 255, 255]

  lemma TwelveWords()
    ensures |Twelve| == 12 && W64(Twelve, 0) == 0xFFFF_FFFF_0000_0001 && W32(Twelve, 8) == 0xFFFF_FFFF
    ensures From(Twelve, 12) == 0 && From(Twelve, 0) == WordSum(Twelve)
  {
    assert Twelve[0..] == Twelve && Twelve[12..] == [];
  }

  lemma TwelveAcc()
    ensures Acc(Twelve, 0) == 0x1_FFFF_FFFF
  {
    TwelveWords();
    hide W16, W32, W64, Fold;
    assert P3(0, 12) == 0;
    assert P4(0, 12) == 8;
    assert Head(Twelve, 0) == 0;
    assert Dwords(Twelve, 0, 1) == Dwords(Twelve, 0, 0) + W64(Twelve, 0);
    FoldUnique(Max64, W64(Twelve, 0), W64(Twelve, 0), 0);
  }

  /** It does happen: twelve bytes at an aligned address whose sum is 1, and the result is 0. */
  lemma DropExample()
    ensures Csum(Twelve, 0) == 0 && Fold(65535, WordSum(Twelve)) == 1
  {
    TwelveWords();
    TwelveAcc();
    hide W16, W32, W64, Fold, Acc, WordSum, Csum, From;
    var d := CsumOff(Twelve, 0);
    assert Drops(0x1_FFFF_FFFF);
    var q := Take64(Twelve, 0);
    var r := Take32(Twelve, 8);
    FoldUnique(65535, WordSum(Twelve), 1, (WordSum(Twelve) - 1) / 65535);
  }

  // ----- Checksums of headers -----

  /** With the checksum in place the words sum up to all ones: what a receiver of IPv4, TCP and ICMPv6 checks. */
  ghost predicate Verifies(s: seq<byte>) { Fold(65535, WordSum(s)) == 65535 }

  lemma {:induction false} SumAppend(a: seq<byte>, b: seq<byte>)
    requires |a| % 2 == 0
    ensures WordSum(a + b) == WordSum(a) + WordSum(b)
  {
    if a == [] {
      assert a + b == b;
    } else {
      assert (a + b)[2..] == a[2..] + b;
      SumAppend(a[2..], b);
    }
  }

  /** `s` with the 16-bit number `c` stored at `off`. */
  ghost function Stored(s: seq<byte>, off: nat, c: nat): seq<byte>
    requires off + 2 <= |s| && c < 0x1_0000
  {
    s[off := c % 256][off + 1 := c / 256]
  }

  lemma StoredSum(s: seq<byte>, off: nat, c: nat)
    requires off + 2 <= |s| && c < 0x1_0000 && off % 2 == 0
    ensures WordSum(Stored(s, off, c)) == WordSum(Stored(s, off, 0)) + c
  {
    var x, y := Stored(s, off, c), Stored(s, off, 0);
    assert x == s[..off] + x[off..] && y == s[..off] + y[off..];
    SumAppend(s[..off], x[off..]);
    SumAppend(s[..off], y[off..]);
    assert x[off..][2..] == y[off..][2..];
  }

  /** A checksum `c` that is `d` too small makes the sum off by `d`. */
  lemma ComplementSum(w: nat, c: nat, d: nat)
    requires c + d <= 65535 + d && d <= 1024 && (exists q: int :: w + q * 65535 == c + d) && (w == 0 <==> c + d == 0)
    ensures Fold(65535, w + 65535 - c) == 65535 <==> d == 0
  {
    var q: int :| w + q * 65535 == c + d;
    if d == 0 {
      FoldUnique(65535, w + 65535 - c, 65535, -q);
    } else {
      FoldUnique(65535, w + 65535 - c, d, 1 - q);
    }
  }

  method StoreWord(a: array<byte>, off: nat, c: nat)
    requires off + 2 <= a.Length && c < 0x1_0000
    modifies a
    ensures a[..] == Stored(old(a[..]), off, c)
  {
    a[off], a[off + 1] := c % 256, c / 256;
  }

  /** `ip4_fix_checksum`: the header then verifies, exactly if no carry is dropped. */
  method Ip4FixChecksum(ip: array<byte>, addr: nat)
    requires ip.Length >= 12
    modifies ip
    ensures var u := Csum(Stored(old(ip[..]), 10, 0), addr); u < 0x1_0000 && ip[..] == Stored(old(ip[..]), 10, 65535 - u)
    ensures Verifies(ip[..]) <==> !Drops(Acc(Stored(old(ip[..]), 10, 0), addr))
  {
    hide Fold, Csum, Acc, Drops, WordSum;
    StoreWord(ip, 10, 0);
    ghost var s := ip[..];
    var u := DoCsum(ip[..], addr);
    ghost var d := CsumOff(s, addr);
    StoreWord(ip, 10, 65535 - u);
    StoredAgain(old(ip[..]), 10, 65535 - u);
    StoredSum(s, 10, 65535 - u);
    ghost var q := FoldFacts(65535, WordSum(s));
    assert WordSum(s) + (-q) * 65535 == u + d;
    ComplementSum(WordSum(s), u, d);
    assert Stored(s, 10, 0) == s;
  }

  /** A header of 20 bytes, from 123.238.255.227 to 255.255.255.255. */
  ghost const Header: seq<byte> := [0x45, 0, 0, 28, 0, 0, 0, 0, 64, 17, 0, 0, 123, 238, 255, 227, 255, 255, 255, 255]

  lemma HeaderWords()
    ensures |Header| == 20 && Stored(Header, 10, 0) == Header
    ensures W64(Header, 0) == 0x1C00_0045 && W64(Header, 8) == 0xE3FF_EE7B_0000_1140 && W32(Header, 16) == 0xFFFF_FFFF
  {
  }

  /** An ordinary header for which `ip4_fix_checksum` drops a carry, so that what it stores does not verify. */
  lemma HeaderDrops()
    ensures Drops(Acc(Stored(Header, 10, 0), 0))
  {
    HeaderWords();
    hide W16, W32, W64, Fold;
    assert P3(0, 20) == 0;
    assert P4(0, 20) == 16;
    assert Head(Header, 0) == 0;
    assert Dwords(Header, 0, 2) == Dwords(Header, 0, 1) + W64(Header, 8) == Dwords(Header, 0, 0) + W64(Header, 0) + W64(Header, 8);
    FoldUnique(Max64, 0xE3FF_EE7B_1C00_1185, 0xE3FF_EE7B_1C00_1185, 0);
    assert Body(Header, 0) == 0x1_0000_0000;
    assert Acc(Header, 0) == 0x1_FFFF_FFFF;
    assert Drops(0x1_FFFF_FFFF);
  }

  lemma StoredAgain(s: seq<byte>, off: nat, c: nat)
    requires off + 2 <= |s| && c < 0x1_0000
    ensures Stored(Stored(s, off, 0), off, c) == Stored(s, off, c)
  {
  }

  // ----- The pseudo headers -----

  /** `htonl` as a number. */
  function Htonl(v: nat): nat {
    v % 256 * 0x100_0000 + v / 256 % 256 * 0x1_0000 + v / 0x1_0000 % 256 * 256 + v / 0x100_0000 % 256
  }

  /** The sum of the 32-bit words of an address. */
  function AddrSum(a: seq<byte>): nat {
    if |a| < 4 then 0 else W32(a, 0) + AddrSum(a[4..])
  }

  /** The sum that `csum_tcpudp_magic` and `csum_ipv6_magic` fold. */
  function MagicSum(src: seq<byte>, dst: seq<byte>, len: nat, proto: byte, sum: nat): nat {
    sum + Htonl(len + proto) + AddrSum(src) + AddrSum(dst)
  }

  /** The pseudo header of section 3.1 of RFC 9293 for IPv4 and of section 8.1 of RFC 8200 for IPv6. */
  ghost function Pseudo(src: seq<byte>, dst: seq<byte>, len: nat, proto: byte): seq<byte> {
    src + dst + if |src| == 4 then [0, proto, len / 256 % 256, len % 256]
                else [len / 0x100_0000 % 256, len / 0x1_0000 % 256, len / 256 % 256, len % 256, 0, 0, 0, proto]
  }

  lemma {:induction false} AddrSumWords(a: seq<byte>) returns (q: int)
    requires |a| % 4 == 0
    ensures WordSum(a) + q * 65535 == AddrSum(a) && (WordSum(a) == 0 <==> AddrSum(a) == 0) && AddrSum(a) <= |a| / 4 * 0xFFFF_FFFF
  {
    if a == [] {
      q := 0;
    } else {
      var r := AddrSumWords(a[4..]);
      var k := Take32(a, 0);
      assert a[0..] == a;
      q := r + k;
    }
  }

  lemma Bytes4(len: nat) returns (a: byte, b: byte, c: byte, d: byte)
    requires len < 0x1_0000_0000
    ensures a == len % 256 && b == len / 256 % 256 && c == len / 0x1_0000 % 256 && d == len / 0x100_0000 == d % 256
    ensures len == a + 256 * b + 0x1_0000 * c + 0x100_0000 * d
  {
    var x := len / 256;
    var y := x / 256;
    DivMod(len, 256);
    DivMod(x, 256);
    DivMod(y, 256);
    DivUnique(len, 0x1_0000, y, len % 256 + 256 * (x % 256));
    DivUnique(len, 0x100_0000, y / 256, len % 256 + 256 * (x % 256) + 0x1_0000 * (y % 256));
    a, b, c, d := len % 256, x % 256, y % 256, y / 256;
  }

  lemma HtonlShift(v: nat) returns (q: int)
    requires v < 0x1_0000_0000
    ensures Htonl(v) + q * 65535 == 256 * v && (Htonl(v) == 0 <==> v == 0) && Htonl(v) < 0x1_0000_0000
  {
    var a, b, c, d := Bytes4(v);
    assert Htonl(v) == a as int * 0x100_0000 + b as int * 0x1_0000 + c as int * 256 + d as int;
    q := 65537 * d as int + 256 * c as int - 256 * a as int;
  }

  lemma LengthWords(len: nat, proto: byte, v4: bool) returns (q: int)
    requires if v4 then len < 0x1_0000 else len < 0xFFFF_0000
    ensures var t: seq<byte> := if v4 then [0, proto, len / 256 % 256, len % 256]
                    else [len / 0x100_0000 % 256, len / 0x1_0000 % 256, len / 256 % 256, len % 256, 0, 0, 0, proto];
            WordSum(t) + q * 65535 == Htonl(len + proto) && (WordSum(t) == 0 <==> Htonl(len + proto) == 0)
  {
    var h := HtonlShift(len + proto);
    var a, b, c, d := Bytes4(len);
    hide Htonl, WordSum;
    if v4 {
      Words4(0, proto, b, a);
      q := b - h;
    } else {
      Words4(d, c, b, a);
      Words4(0, 0, 0, proto);
      SumAppend([d, c, b, a], [0, 0, 0, proto]);
      assert [d, c, b, a] + [0, 0, 0, proto] == [d, c, b, a, 0, 0, 0, proto];
      q := 65537 * d + 256 * c + b - h;
    }
  }

  lemma Words4(a: byte, b: byte, c: byte, d: byte)
    ensures WordSum([a, b, c, d]) == a + 256 * b + c + 256 * d
  {
    assert [a, b, c, d][2..] == [c, d] && [c, d][2..] == [];
    assert WordSum([c, d]) == c + 256 * d + WordSum([]);
  }

  lemma PseudoWords(src: seq<byte>, dst: seq<byte>, len: nat, proto: byte) returns (q: int)
    requires |src| == |dst| && |src| in {4, 16} && if |src| == 4 then len < 0x1_0000 else len < 0xFFFF_0000
    ensures var x := MagicSum(src, dst, len, proto, 0);
            WordSum(Pseudo(src, dst, len, proto)) + q * 65535 == x && (WordSum(Pseudo(src, dst, len, proto)) == 0 <==> x == 0) && x < 0x10_0000_0000
  {
    hide WordSum, AddrSum, Htonl;
    var a := AddrSumWords(src);
    var b := AddrSumWords(dst);
    var c := LengthWords(len, proto, |src| == 4);
    var h := HtonlShift(len + proto);
    var t := Pseudo(src, dst, len, proto)[|src + dst|..];
    SumAppend(src, dst);
    SumAppend(src + dst, t);
    assert src + dst + t == Pseudo(src, dst, len, proto);
    q := a + b + c;
  }

  /** The checksum that is stored in a segment. */
  ghost function SegmentChecksum(s: seq<byte>, addr: nat, src: seq<byte>, dst: seq<byte>, proto: byte): int {
    65535 - From64to16(MagicSum(src, dst, |s|, proto, Csum(s, addr)))
  }

  /** `tcp4_fix_checksum`, `udp4_fix_checksum` and their counterparts for IPv6, with the checksum at `off`: the
      segment with its pseudo header then sums up to all ones, exactly if none of the two sums drops a carry. A
      receiver of TCP or ICMPv6 checks just this; for UDP see `UdpStoredZero`. */
  method FixChecksum(seg: array<byte>, addr: nat, off: nat, src: seq<byte>, dst: seq<byte>, proto: byte)
    requires off % 2 == 0 && off + 2 <= seg.Length
    requires |src| == |dst| && |src| in {4, 16} && if |src| == 4 then seg.Length < 0x1_0000 else seg.Length < 0xFFFF_0000
    modifies seg
    ensures var s := Stored(old(seg[..]), off, 0);
            var c := SegmentChecksum(s, addr, src, dst, proto);
            0 <= c < 0x1_0000 && seg[..] == Stored(old(seg[..]), off, c)
    ensures var s := Stored(old(seg[..]), off, 0);
            Verifies(Pseudo(src, dst, seg.Length, proto) + seg[..]) <==>
              !Drops(Acc(s, addr)) && !Drops(MagicSum(src, dst, seg.Length, proto, Csum(s, addr)))
  {
    hide Fold, Csum, Acc, Drops, WordSum, AddrSum, Pseudo, Htonl, From64to16;
    StoreWord(seg, off, 0);
    ghost var s := seg[..];
    var u := DoCsum(seg[..], addr);
    ghost var d := CsumOff(s, addr);
    ghost var q := PseudoWords(src, dst, seg.Length, proto);
    var x := MagicSum(src, dst, seg.Length, proto, u);
    From64Exact(x);
    var c := From64to16(x);
    StoreWord(seg, off, 65535 - c);
    StoredAgain(old(seg[..]), off, 65535 - c);
    assert Stored(s, off, 0) == s;
    StoredSum(s, off, 65535 - c);
    ghost var p := Pseudo(src, dst, seg.Length, proto);
    PseudoLength(src, dst, seg.Length, proto);
    SumAppend(p, seg[..]);
    MagicComplement(WordSum(p), MagicSum(src, dst, seg.Length, proto, 0), q, WordSum(s), u, d);
  }

  /** The word stored for UDP is 0 exactly if no carry of the second sum is dropped and it sums up to all ones; if no
      carry is dropped in the segment either, exactly if the words of segment and pseudo header do. But 0 means that
      there is no checksum (RFC 768), and over IPv6 the datagram is then discarded (section 8.1 of RFC 8200); 0xFFFF
      would have to be stored. */
  lemma UdpStoredZero(s: seq<byte>, addr: nat, src: seq<byte>, dst: seq<byte>)
    requires |src| == |dst| && |src| in {4, 16} && if |src| == 4 then |s| < 0x1_0000 else |s| < 0xFFFF_0000
    ensures var x := MagicSum(src, dst, |s|, 17, Csum(s, addr));
            (SegmentChecksum(s, addr, src, dst, 17) == 0 <==> !Drops(x) && Fold(65535, x) == 65535) &&
            (!Drops(Acc(s, addr)) && !Drops(x) ==>
               (SegmentChecksum(s, addr, src, dst, 17) == 0 <==> Verifies(Pseudo(src, dst, |s|, 17) + s)))
  {
    hide Fold, Csum, Acc, Drops, WordSum, AddrSum, Pseudo, Htonl, From64to16;
    var p, x := Pseudo(src, dst, |s|, 17), MagicSum(src, dst, |s|, 17, Csum(s, addr));
    var d := CsumOff(s, addr);
    var q := PseudoWords(src, dst, |s|, 17);
    PseudoLength(src, dst, |s|, 17);
    SumAppend(p, s);
    From64Exact(x);
    var k := FoldFacts(65535, WordSum(s));
    var r := FoldFacts(65535, x);
    if Drops(x) {
      DropValue(x);
    } else if !Drops(Acc(s, addr)) {
      FoldUnique(65535, WordSum(p + s), Fold(65535, x), r - q + k);
    }
  }

  ghost const Datagram: seq<byte> := [0, 0, 0, 0, 0, 10, 0, 0, 255, 218]

  lemma DatagramWords()
    ensures |Datagram| == 10 && W64(Datagram, 0) == 0x0A00_0000_0000 && W16(Datagram, 8) == 0xDAFF
  {
  }

  lemma DatagramSum()
    ensures |Datagram| == 10 && Csum(Datagram, 0) == 0xE4FF
  {
    hide W16, W32, W64, Fold, From64to16;
    DatagramWords();
    assert P3(0, 10) == 0;
    assert P4(0, 10) == 8;
    assert Head(Datagram, 0) == 0;
    assert Dwords(Datagram, 0, 1) == Dwords(Datagram, 0, 0) + W64(Datagram, 0);
    FoldUnique(Max64, 0x0A00_0000_0000, 0x0A00_0000_0000, 0);
    assert Body(Datagram, 0) == 0x0A00;
    assert Acc(Datagram, 0) == 0xE4FF;
    SmallSum(0xE4FF);
  }

  lemma SmallSum(x: nat)
    requires x < 0x1_0000
    ensures From64to16(x) == x
  {
  }

  /** It does happen: two bytes, sent from and to the address 0. */
  lemma UdpZeroExample()
    ensures SegmentChecksum(Datagram, 0, [0, 0, 0, 0], [0, 0, 0, 0], 17) == 0
  {
    DatagramSum();
    hide Csum;
    var a: seq<byte> := [0, 0, 0, 0];
    assert a[4..] == [];
    assert AddrSum(a) == 0;
    assert Htonl(27) == 0x1B00_0000;
    assert MagicSum(a, a, 10, 17, 0xE4FF) == 0x1B00_E4FF;
    assert Halves(0x1B00_E4FF) == 0xFFFF;
  }

  /** The same bytes from 1.27.255.228 to 255.255.255.255: the sum of pseudo header and segment drops a carry, so that
      what `udp4_fix_checksum` stores does not verify. */
  lemma DatagramDrops()
    ensures Stored(Datagram, 6, 0) == Datagram && Drops(MagicSum([1, 27, 255, 228], [255, 255, 255, 255], 10, 17, Csum(Datagram, 0)))
  {
    DatagramSum();
    hide Csum, Drops;
    var a: seq<byte>, b: seq<byte> := [1, 27, 255, 228], [255, 255, 255, 255];
    assert a[4..] == [] && b[4..] == [];
    assert AddrSum(a) == 0xE4FF_1B01 && AddrSum(b) == 0xFFFF_FFFF;
    assert Htonl(27) == 0x1B00_0000;
    assert MagicSum(a, b, 10, 17, 0xE4FF) == 0x1_FFFF_FFFF;
    DropsSmall();
  }

  lemma DropsSmall()
    ensures Drops(0x1_FFFF_FFFF)
  {
  }

  lemma PseudoLength(src: seq<byte>, dst: seq<byte>, len: nat, proto: byte)
    requires |src| == |dst| && |src| in {4, 16}
    ensures |Pseudo(src, dst, len, proto)| % 2 == 0
  {
  }

  /** Sums of pseudo header and segment, with the errors of both folds. */
  lemma MagicComplement(p: nat, m: nat, q: int, w: nat, u: nat, d: nat)
    requires p + q * 65535 == m && (p == 0 <==> m == 0) && m < 0x10_0000_0000
    requires u + d == Fold(65535, w) && d in {0, 1, 256}
    ensures From64to16(m + u) <= 65535
    ensures Fold(65535, p + (w + (65535 - From64to16(m + u)))) == 65535 <==> d == 0 && !Drops(m + u)
  {
    var x := m + u;
    From64Exact(x);
    var k := FoldFacts(65535, w);
    var r := FoldFacts(65535, x);
    var e := Fold(65535, x) - From64to16(x);
    if Drops(x) {
      DropValue(x);
    }
    hide From64to16, Drops, Fold;
    var c := From64to16(x);
    assert (p + w) + (q - k - r) * 65535 == c + (e + d);
    if p + w == 0 {
      assert Fold(65535, 0) == 0;
    }
    ComplementSum(p + w, c, e + d);
    assert p + (w + (65535 - c)) == (p + w) + 65535 - c;
  }
}
