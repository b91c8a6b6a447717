/** The subnet grouping of `ip2net/ip2net.c`: sort, drop duplicates, and cover the addresses by networks that
    are well filled. */
module Ip2net {
  import opened Bytes
  import opened QuickSort

  /** The parameters of the two searches: a minimum fill of mult/div for v4, a minimum count for v6. */
  datatype Config = V4(mult: nat, div: nat, zctMin: nat, zctMax: nat) | V6(threshold: nat, zctMin: nat, zctMax: nat) {
    const bits: nat := if V4? then 32 else 128

    /** What `parse_params` accepts. */
    ghost predicate Valid() {
      1 <= zctMin <= zctMax < bits &&
      (V4? ==> 1 <= mult < div < 0x1_0000_0000) && (V6? ==> 1 <= threshold)
    }
  }

  function U32(x: nat): nat { x % 0x1_0000_0000 }

  /** `ip & mask_from_bitcount(zct)`. */
  function Start(x: nat, z: nat): nat {
    ModAtMost(x, Pow2(z));
    x - x % Pow2(z)
  }

  lemma ModAtMost(x: nat, n: nat)
    requires n > 0
    ensures x % n <= x
  {
    if x < n {
    } else {
      assert x % n < n;
    }
  }

  /** The last address of the network of `x`. */
  function Last(x: nat, z: nat): nat { Start(x, z) + Pow2(z) - 1 }

  /** `part / whole` of `n` addresses, in 32-bit arithmetic. */
  function Share(n: nat, part: nat, whole: nat): nat
    requires whole > 0
  {
    U32(n * part) / whole
  }

  /** The v4 shortcut: the address lies too high in its network for enough others to follow. */
  predicate TooHigh(c: Config, x: nat, z: nat)
    requires c.V4? ==> c.mult < c.div
  {
    c.V4? && x > U32(Start(x, z) + Share(Pow2(z), c.div - c.mult, c.div))
  }

  /** The least number of addresses for a network, in 32-bit arithmetic for v4. */
  function Wanted(c: Config, z: nat): nat
    requires c.V4? ==> c.mult < c.div
  {
    if c.V4? then Share(Pow2(z), c.mult, c.div) else c.threshold
  }

  ghost predicate Increasing(s: seq<nat>) {
    forall i, j :: 0 <= i < j < |s| ==> s[i] < s[j]
  }

  /** One past the last of the addresses from `pos` on that lie in the network of the one at `pos`. */
  ghost function End(s: seq<nat>, pos: nat, p: nat, z: nat): (e: nat)
    requires pos < p <= |s|
    ensures p <= e <= |s|
    decreases |s| - p
  {
    if p < |s| && s[p] <= Last(s[pos], z) then End(s, pos, p + 1, z) else p
  }

  ghost function Reach(s: seq<nat>, pos: nat, z: nat): nat
    requires pos < |s|
  {
    End(s, pos, pos + 1, z)
  }

  /** The network of `zct` zero bits at `pos` is one the search may choose. */
  ghost predicate Acceptable(c: Config, s: seq<nat>, pos: nat, z: nat)
    requires c.Valid() && pos < |s|
  {
    c.zctMin <= z <= c.zctMax && !TooHigh(c, s[pos], z) &&
    Reach(s, pos, z) - pos >= 2 && Reach(s, pos, z) - pos >= Wanted(c, z)
  }

  /** The choice at `pos`: of the acceptable networks those that take in the most addresses, and of these the
      smallest; `z` is 0 if there is none. */
  ghost predicate Chosen(c: Config, s: seq<nat>, pos: nat, z: nat, end: nat)
    requires c.Valid() && pos < |s|
  {
    if z == 0 then end == pos + 1 && forall y: nat :: !Acceptable(c, s, pos, y)
    else
      Acceptable(c, s, pos, z) && end == Reach(s, pos, z) &&
      forall y: nat :: Acceptable(c, s, pos, y) ==> Reach(s, pos, y) <= end && (Reach(s, pos, y) == end ==> z <= y)
  }

  // ----- Networks -----

  /** Addresses in one network have it in common. */
  lemma SameStart(x: nat, y: nat, z: nat)
    ensures Start(x, z) <= x <= Last(x, z)
    ensures Start(x, z) <= y <= Last(x, z) ==> Start(y, z) == Start(x, z) && Last(y, z) == Last(x, z)
  {
    if Start(x, z) <= y <= Last(x, z) {
      SameBlock(x, y, Pow2(z));
    }
  }

  /** A smaller network of an address lies inside a larger one. */
  lemma {:induction false} NestedNets(x: nat, y: nat, z: nat)
    requires y <= z
    ensures Start(x, z) <= Start(x, y) && Last(x, y) <= Last(x, z)
    decreases z - y
  {
    if y < z {
      NestedNets(x, y, z - 1);
      HalfBlock(x, Pow2(z - 1));
    }
  }

  lemma {:induction false} EndFacts(s: seq<nat>, pos: nat, p: nat, z: nat)
    requires pos < p <= |s| && Increasing(s) && (forall k :: pos <= k < p ==> s[k] <= Last(s[pos], z))
    ensures forall k :: pos <= k < |s| ==> (s[k] <= Last(s[pos], z) <==> k < End(s, pos, p, z))
    decreases |s| - p
  {
    if p < |s| && s[p] <= Last(s[pos], z) {
      EndFacts(s, pos, p + 1, z);
    }
  }

  /** Smaller networks take in fewer addresses. */
  lemma EndNested(s: seq<nat>, pos: nat, y: nat, z: nat)
    requires pos < |s| && Increasing(s) && y <= z
    ensures pos < Reach(s, pos, y) <= Reach(s, pos, z)
  {
    SameStart(s[pos], s[pos], y);
    NestedNets(s[pos], y, z);
    EndFacts(s, pos, pos + 1, y);
    EndFacts(s, pos, pos + 1, z);
    var e := Reach(s, pos, y) - 1;
    assert s[e] <= Last(s[pos], z);
  }

  lemma NothingBelow(c: Config, s: seq<nat>, pos: nat, z: nat)
    requires c.Valid() && pos < |s| && Increasing(s) && Reach(s, pos, z) == pos + 1
    ensures forall y: nat :: y <= z ==> !Acceptable(c, s, pos, y)
  {
    forall y: nat | y <= z
      ensures !Acceptable(c, s, pos, y)
    {
      EndNested(s, pos, y, z);
    }
  }

  // ----- The search -----

  /** The counting loop of the search. */
  method Count(c: Config, iplist: array<nat>, ipct: nat, pos: nat, zct: nat) returns (p: nat)
    requires pos < ipct <= iplist.Length && Increasing(iplist[..ipct])
    ensures p == Reach(iplist[..ipct], pos, zct)
  {
    ghost var s := iplist[..ipct];
    var ipStart, ipEnd := Start(iplist[pos], zct), Last(iplist[pos], zct);
    SameStart(s[pos], s[pos], zct);
    p := pos + 1;
    while p < ipct && (if c.V6? then Start(iplist[p], zct) == ipStart else iplist[p] <= ipEnd)
      invariant pos < p <= ipct && Reach(s, pos, zct) == End(s, pos, p, zct)
    {
      SameStart(s[p], s[p], zct);
      assert s[pos] < s[p];
      p := p + 1;
    }
    if p < ipct {
      assert s[pos] < s[p];
      SameStart(s[pos], s[p], zct);
    }
  }

  /** How far the search has come: all levels above `zct` have been looked at. */
  ghost predicate Searching(c: Config, s: seq<nat>, pos: nat, zct: int, best: nat, end: nat)
    requires c.Valid() && pos < |s|
  {
    if best == 0 then forall y: nat :: y > zct ==> !Acceptable(c, s, pos, y)
    else
      zct < best && Acceptable(c, s, pos, best) && end == Reach(s, pos, best) &&
      forall y: nat :: y > zct && Acceptable(c, s, pos, y) ==>
        Reach(s, pos, y) <= end && (Reach(s, pos, y) == end ==> best <= y)
  }

  /** The loop over the prefix lengths at one position. */
  method Search(c: Config, iplist: array<nat>, ipct: nat, pos: nat) returns (zctBest: nat, posEnd: nat)
    requires c.Valid() && pos < ipct <= iplist.Length && Increasing(iplist[..ipct])
    ensures Chosen(c, iplist[..ipct], pos, zctBest, posEnd)
  {
    ghost var s := iplist[..ipct];
    var ipCtBest, zct: int := 0, c.zctMax;
    zctBest, posEnd := 0, pos + 1;
    while zct >= c.zctMin
      invariant c.zctMin - 1 <= zct <= c.zctMax && Searching(c, s, pos, zct, zctBest, posEnd)
      invariant (zctBest == 0 <==> ipCtBest == 0) && (zctBest != 0 ==> ipCtBest == posEnd - pos)
      invariant zctBest == 0 ==> posEnd == pos + 1
    {
      if TooHigh(c, iplist[pos], zct) {
        zct := zct - 1;
        continue;
      }
      var p := Count(c, iplist, ipct, pos, zct);
      var ipCt := p - pos;
      if ipCt == 1 {
        NothingBelow(c, s, pos, zct);
        assert Searching(c, s, pos, -1, zctBest, posEnd);
        zct := -1;
        break;
      }
      if ipCt >= Wanted(c, zct) {
        assert Acceptable(c, s, pos, zct);
        if zctBest != 0 {
          EndNested(s, pos, zct, zctBest);
        }
        if ipCtBest == 0 || ipCt == ipCtBest {
          ipCtBest, zctBest, posEnd := ipCt, zct, p;
        } else {
          NoneBetter(c, s, pos, zct, posEnd);
          zct := -1;
          break;
        }
      }
      zct := zct - 1;
    }
    SearchDone(c, s, pos, zct, zctBest, posEnd);
  }

  lemma NoneBetter(c: Config, s: seq<nat>, pos: nat, z: nat, end: nat)
    requires c.Valid() && pos < |s| && Increasing(s) && Reach(s, pos, z) < end
    ensures forall y: nat :: y <= z ==> Reach(s, pos, y) < end
  {
    forall y: nat | y <= z
      ensures Reach(s, pos, y) < end
    {
      EndNested(s, pos, y, z);
    }
  }

  lemma AcceptableRange(c: Config, s: seq<nat>, pos: nat, z: nat)
    requires c.Valid() && pos < |s| && Acceptable(c, s, pos, z)
    ensures c.zctMin <= z <= c.zctMax && Reach(s, pos, z) >= pos + 2
  {
  }

  lemma SearchDone(c: Config, s: seq<nat>, pos: nat, zct: int, best: nat, end: nat)
    requires c.Valid() && pos < |s| && zct < c.zctMin && Searching(c, s, pos, zct, best, end) && (best == 0 ==> end == pos + 1)
    ensures Chosen(c, s, pos, best, end)
  {
    forall y: nat | Acceptable(c, s, pos, y)
      ensures y > zct
    {
      AcceptableRange(c, s, pos, y);
    }
    hide Acceptable, Reach;
  }

  // ----- The grouping -----

  /** One printed line: a network of `zct` zero bits, or with 0 a single address. */
  datatype Item = Item(start: nat, zct: nat) {
    ghost function Hi(): nat { start + Pow2(zct) - 1 }

    ghost predicate Has(x: nat) { start <= x <= Hi() }

    /** Some of the addresses lie in the network. */
    ghost predicate Meets(s: seq<nat>) {
      exists k :: 0 <= k < |s| && Has(s[k])
    }
  }

  /** Some line holds the address. */
  ghost predicate InOutput(out: seq<Item>, v: nat) {
    exists i :: 0 <= i < |out| && out[i].Has(v)
  }

  /** The lines printed for the first `cuts[|out|]` addresses; line `i` starts at address `cuts[i]`. */
  ghost predicate Grouped(c: Config, s: seq<nat>, out: seq<Item>, cuts: seq<nat>)
    requires c.Valid()
  {
    |cuts| == |out| + 1 && cuts[0] == 0 && (forall i :: 0 <= i < |cuts| ==> cuts[i] <= |s|) &&
    (forall i, j :: 0 <= i < j < |cuts| ==> cuts[i] < cuts[j]) &&
    forall i :: 0 <= i < |out| ==>
      Chosen(c, s, cuts[i], out[i].zct, cuts[i + 1]) && out[i].start == Start(s[cuts[i]], out[i].zct)
  }

  lemma ChosenEnd(c: Config, s: seq<nat>, pos: nat, z: nat, end: nat)
    requires c.Valid() && pos < |s| && Increasing(s) && Chosen(c, s, pos, z, end)
    ensures pos < end <= |s| && forall k :: pos <= k < |s| ==> (s[k] <= Last(s[pos], z) <==> k < end)
  {
    SameStart(s[pos], s[pos], z);
    if z == 0 {
      assert Pow2(0) == 1;
      assert s[pos] % 1 == 0;
    } else {
      EndFacts(s, pos, pos + 1, z);
    }
  }

  /** A network acceptable at one address was already acceptable at any earlier address inside it. */
  lemma AcceptableEarlier(c: Config, s: seq<nat>, p: nat, q: nat, z: nat)
    requires c.Valid() && Increasing(s) && p < q < |s| && Acceptable(c, s, q, z) && Start(s[q], z) <= s[p]
    ensures Acceptable(c, s, p, z) && Reach(s, p, z) > q
  {
    SameStart(s[q], s[q], z);
    SameStart(s[q], s[p], z);
    EndFacts(s, p, p + 1, z);
    EndFacts(s, q, q + 1, z);
    var e := Reach(s, q, z) - 1;
    assert s[e] <= Last(s[p], z);
  }

  /** The network chosen at a later address holds no address of an earlier line. */
  lemma NoneBefore(c: Config, s: seq<nat>, out: seq<Item>, cuts: seq<nat>, j: nat, i: nat, k: nat)
    requires c.Valid() && Increasing(s) && Grouped(c, s, out, cuts) && j < i < |out| && cuts[j] <= k < cuts[j + 1]
    ensures s[k] < out[i].start
  {
    hide Pow2, Start, End, Reach, Acceptable, Wanted, TooHigh, Increasing;
    var (p, q, zj, zi) := (cuts[j], cuts[i], out[j].zct, out[i].zct);
    assert cuts[j + 1] <= q < cuts[i + 1];
    ChosenEnd(c, s, p, zj, cuts[j + 1]);
    SameStart(s[q], s[k], zi);
    SameStart(s[p], s[k], zj);
    if Start(s[q], zi) <= s[k] {
      if zi <= zj {
        NestedNets(s[k], zi, zj);
      } else {
        NestedNets(s[k], zj, zi);
        AcceptableEarlier(c, s, p, q, zi);
      }
    }
  }

  /** The lines are disjoint networks in increasing order, and each holds exactly its own slice of the
      addresses. */
  lemma DisjointCover(c: Config, s: seq<nat>, out: seq<Item>, cuts: seq<nat>)
    requires c.Valid() && Increasing(s) && Grouped(c, s, out, cuts)
    ensures forall i, j :: 0 <= i < j < |out| ==> out[i].Hi() < out[j].start
    ensures forall i, k :: 0 <= i < |out| && 0 <= k < |s| ==> (out[i].Has(s[k]) <==> cuts[i] <= k < cuts[i + 1])
  {
    forall i, k | 0 <= i < |out| && 0 <= k < |s|
      ensures out[i].Has(s[k]) <==> cuts[i] <= k < cuts[i + 1]
    {
      ChosenEnd(c, s, cuts[i], out[i].zct, cuts[i + 1]);
      SameStart(s[cuts[i]], s[cuts[i]], out[i].zct);
      if k < cuts[i] {
        var j := LineOf(cuts, i, k);
        NoneBefore(c, s, out, cuts, j, i, k);
      }
    }
    forall i, j | 0 <= i < j < |out|
      ensures out[i].Hi() < out[j].start
    {
      Apart(c, s, out, cuts, i, j);
    }
  }

  /** The line whose slice holds index `k`. */
  lemma {:induction false} LineOf(cuts: seq<nat>, i: nat, k: nat) returns (j: nat)
    requires i < |cuts| && cuts[0] == 0 && k < cuts[i] && forall a, b :: 0 <= a < b < |cuts| ==> cuts[a] < cuts[b]
    ensures j < i && cuts[j] <= k < cuts[j + 1]
  {
    if cuts[i - 1] <= k {
      j := i - 1;
    } else {
      j := LineOf(cuts, i - 1, k);
    }
  }

  lemma Apart(c: Config, s: seq<nat>, out: seq<Item>, cuts: seq<nat>, i: nat, j: nat)
    requires c.Valid() && Increasing(s) && Grouped(c, s, out, cuts) && i < j < |out|
    ensures out[i].Hi() < out[j].start
  {
    hide Pow2, Start, Chosen, Increasing;
    assert cuts[i + 1] <= cuts[j] < cuts[j + 1];
    var (x, y, zi, zj) := (s[cuts[i]], s[cuts[j]], out[i].zct, out[j].zct);
    NoneBefore(c, s, out, cuts, i, j, cuts[i]);
    ChosenEnd(c, s, cuts[i], zi, cuts[i + 1]);
    SameStart(x, x, zi);
    SameStart(y, y, zj);
    if out[i].Hi() >= out[j].start {
      var a := out[j].start;
      SameStart(x, a, zi);
      SameStart(y, a, zj);
      if zi <= zj {
        NestedNets(a, zi, zj);
      } else {
        NestedNets(a, zj, zi);
      }
    }
  }

  /** The grouping loops of `main`. */
  method Group(c: Config, iplist: array<nat>, ipct: nat) returns (out: seq<Item>, ghost cuts: seq<nat>)
    requires c.Valid() && ipct <= iplist.Length && Increasing(iplist[..ipct])
    ensures Grouped(c, iplist[..ipct], out, cuts) && cuts[|out|] == ipct
  {
    hide Chosen, Increasing;
    var pos := 0;
    out, cuts := [], [0];
    while pos < ipct
      invariant pos <= ipct && Grouped(c, iplist[..ipct], out, cuts) && cuts[|out|] == pos
    {
      ghost var s := iplist[..ipct];
      var zctBest, posEnd := Search(c, iplist, ipct, pos);
      ChosenEnd(c, s, pos, zctBest, posEnd);
      var item := Item(Start(iplist[pos], zctBest), zctBest);
      GroupedSnoc(c, s, out, cuts, item, posEnd);
      out, cuts := out + [item], cuts + [posEnd];
      pos := posEnd;
    }
  }

  lemma GroupedSnoc(c: Config, s: seq<nat>, out: seq<Item>, cuts: seq<nat>, item: Item, end: nat)
    requires c.Valid() && Grouped(c, s, out, cuts) && cuts[|out|] < end <= |s|
    requires Chosen(c, s, cuts[|out|], item.zct, end) && item.start == Start(s[cuts[|out|]], item.zct)
    ensures Grouped(c, s, out + [item], cuts + [end])
  {
    hide Chosen;
    var o, u := out + [item], cuts + [end];
    forall i | 0 <= i < |o|
      ensures Chosen(c, s, u[i], o[i].zct, u[i + 1]) && o[i].start == Start(s[u[i]], o[i].zct)
    {
      assert i < |out| ==> o[i] == out[i] && u[i] == cuts[i] && u[i + 1] == cuts[i + 1];
    }
  }

  // ----- Duplicates -----

  /** `ucmp`, and `cmp6` on addresses as numbers. */
  function Ucmp(a: nat, b: nat): int {
    if a < b then -1 else if a > b then 1 else 0
  }

  /** What `unique` has kept after reading `j` of the values. */
  ghost predicate Deduplicated(s: seq<nat>, j: nat, u: seq<nat>)
    requires j <= |s|
  {
    |u| <= j && Increasing(u) && (forall v :: v in u <==> v in s[..j]) &&
    if j == 0 then u == [] else u != [] && u[|u| - 1] == s[j - 1] && (j < |s| ==> s[j - 1] < s[j])
  }

  lemma DistinctStart(s: seq<nat>, u: seq<nat>)
    requires u == []
    ensures Deduplicated(s, 0, u)
  {
  }

  lemma DistinctEnd(s: seq<nat>, u: seq<nat>)
    requires Deduplicated(s, |s|, u)
    ensures Increasing(u) && forall v :: v in u <==> v in s
  {
    assert s[..|s|] == s;
  }

  lemma DistinctStep(s: seq<nat>, i: nat, j: nat, u: seq<nat>)
    requires i < j <= |s| && Deduplicated(s, i, u) && forall k :: i <= k < j ==> s[k] == s[i]
    requires j < |s| ==> s[j - 1] < s[j]
    ensures Deduplicated(s, j, u + [s[i]])
  {
    var w := u + [s[i]];
    forall v
      ensures v in w <==> v in s[..j]
    {
      assert s[..j] == s[..i] + s[i..j];
      assert v in s[i..j] <==> v == s[i] by {
        assert s[i..j][0] == s[i];
      }
    }
  }

  /** The inner loop of `unique`: past the values equal to the one at `j`. */
  method SkipEqual(pu: array<nat>, ct: nat, j: nat) returns (r: nat)
    requires j < ct <= pu.Length && forall a, b :: j <= a < b < ct ==> pu[a] <= pu[b]
    ensures j < r <= ct && (forall k :: j <= k < r ==> pu[k] == pu[j]) && (r < ct ==> pu[r - 1] < pu[r])
  {
    r := j + 1;
    while r < ct && pu[r] == pu[j]
      invariant j < r <= ct && forall k :: j <= k < r ==> pu[k] == pu[j]
    {
      r := r + 1;
    }
  }

  lemma SortedValues(s: seq<nat>)
    requires Sorted(Ucmp, s)
    ensures forall a, b :: 0 <= a < b < |s| ==> s[a] <= s[b]
  {
    forall a, b | 0 <= a < b < |s|
      ensures s[a] <= s[b]
    {
      assert Ucmp(s[a], s[b]) <= 0;
    }
  }

  /** Outputs of the inner loop in terms of the values read. */
  lemma RunOf(s: seq<nat>, w: seq<nat>, ct: nat, j: nat, r: nat)
    requires j < r <= ct <= |w| && |s| == ct && w[j..ct] == s[j..]
    requires (forall k :: j <= k < r ==> w[k] == w[j]) && (r < ct ==> w[r - 1] < w[r])
    ensures (forall k :: j <= k < r ==> s[k] == s[j]) && (r < ct ==> s[r - 1] < s[r])
  {
    SameTail(s, w, ct, j);
  }

  lemma SameTail(s: seq<nat>, w: seq<nat>, ct: nat, j: nat)
    requires j <= ct <= |w| && |s| == ct && w[j..ct] == s[j..]
    ensures forall k :: j <= k < ct ==> w[k] == s[k]
  {
    forall k | j <= k < ct
      ensures w[k] == s[k]
    {
      assert w[j..ct][k - j] == s[j..][k - j];
    }
  }

  /** `unique`: the distinct values of a sorted array, moved to its front. */
  method Unique(pu: array<nat>, ct: nat) returns (i: nat)
    requires ct <= pu.Length && Sorted(Ucmp, pu[..ct])
    modifies pu
    ensures i <= ct && Increasing(pu[..i]) && forall v :: v in pu[..i] <==> v in old(pu[..ct])
  {
    hide Sorted, Increasing, Deduplicated;
    ghost var s := pu[..ct];
    i := 0;
    var j := 0;
    SortedValues(s);
    DistinctStart(s, pu[..0]);
    while j < ct
      invariant i <= j <= ct && pu[j..ct] == s[j..] && Deduplicated(s, j, pu[..i])
    {
      ghost var before, x := pu[..i], s[j];
      SameTail(s, pu[..], ct, j);
      var r := SkipEqual(pu, ct, j);
      RunOf(s, pu[..], ct, j, r);
      DistinctStep(s, j, r, before);
      pu[i], i, j := pu[j], i + 1, r;
      assert pu[..i] == before + [x];
    }
    assert s[..j] == s;
    DistinctEnd(s, pu[..i]);
  }

  /** The whole program on the addresses it has read: whatever their order and number, every address lies in
      exactly one printed line, the lines are disjoint and in order, and each line is the best choice at its
      first address. */
  method Aggregate(c: Config, iplist: array<nat>) returns (out: seq<Item>, ghost s: seq<nat>, ghost cuts: seq<nat>)
    requires c.Valid() && iplist.Length < Pow2(32)
    modifies iplist
    ensures Increasing(s) && (forall v :: v in s <==> v in old(iplist[..])) && Grouped(c, s, out, cuts) && cuts[|out|] == |s|
    ensures forall i, j :: 0 <= i < j < |out| ==> out[i].Hi() < out[j].start
    ensures forall v :: v in s ==> InOutput(out, v)
    ensures forall i :: 0 <= i < |out| ==> out[i].Meets(s)
  {
    hide Chosen, Sorted, Increasing, Grouped, TotalPreorder, InOutput, Item.Meets;
    ghost var l := iplist[..];
    UcmpOrders();
    GnuQuicksort(iplist, Ucmp, 32);
    SameMembers(l, iplist[..]);
    assert iplist[..] == iplist[..iplist.Length];
    var ipct := Unique(iplist, iplist.Length);
    s := iplist[..ipct];
    out, cuts := Group(c, iplist, ipct);
    DisjointCover(c, s, out, cuts);
    ExactCover(c, s, out, cuts);
  }

  lemma SameMembers(a: seq<nat>, b: seq<nat>)
    requires multiset(a) == multiset(b)
    ensures forall v :: v in a <==> v in b
  {
    forall v
      ensures v in a <==> v in b
    {
      assert v in a <==> v in multiset(a);
      assert v in b <==> v in multiset(b);
    }
  }

  lemma ExactCover(c: Config, s: seq<nat>, out: seq<Item>, cuts: seq<nat>)
    requires c.Valid() && Increasing(s) && Grouped(c, s, out, cuts) && cuts[|out|] == |s|
    ensures forall v :: v in s ==> InOutput(out, v)
    ensures forall i :: 0 <= i < |out| ==> out[i].Meets(s)
  {
    hide Chosen;
    DisjointCover(c, s, out, cuts);
    forall v | v in s
      ensures InOutput(out, v)
    {
      var k :| 0 <= k < |s| && s[k] == v;
      var i := LineOf(cuts, |out|, k);
      assert out[i].Has(s[k]);
    }
    forall i | 0 <= i < |out|
      ensures out[i].Meets(s)
    {
      assert cuts[i] < cuts[i + 1];
      assert out[i].Has(s[cuts[i]]);
    }
  }

  lemma UcmpOrders()
    ensures TotalPreorder(Ucmp)
  {
  }
  // ----- How full the lines are -----

  /** The product of 32 bits is right exactly if it does not wrap, and then the quotient is. */
  lemma ShareExact(n: nat, part: nat, whole: nat)
    requires 0 < whole < 0x1_0000_0000
    ensures Share(n, part, whole) == n * part / whole <==> n * part < 0x1_0000_0000
  {
    var (a, w) := (n * part, U32(n * part));
    if a >= 0x1_0000_0000 {
      DivMod(a, 0x1_0000_0000);
      MulMono(1, a / 0x1_0000_0000, 0x1_0000_0000);
      DivMod(w, whole);
      DivMod(a, whole);
    }
  }

  /** A number of addresses that passes the test for v4 is mult/div of a network of `z` bits exactly if the product of
      32 bits does not wrap and leaves no remainder. */
  lemma WantedExact(c: Config, z: nat)
    requires c.Valid() && c.V4?
    ensures Wanted(c, z) * c.div >= Pow2(z) * c.mult <==> Pow2(z) * c.mult < 0x1_0000_0000 && Pow2(z) * c.mult % c.div == 0
    ensures Wanted(c, z) == Pow2(z) * c.mult / c.div <==> Pow2(z) * c.mult < 0x1_0000_0000
  {
    hide Pow2;
    var a := Pow2(z) * c.mult;
    ShareExact(Pow2(z), c.mult, c.div);
    DivMod(a, c.div);
    DivMod(U32(a), c.div);
  }

  /** The v4 shortcut, if nothing wraps: it only passes over an address if fewer than mult/div of its network are left
      from it on. */
  lemma TooHighMeans(c: Config, x: nat, z: nat)
    requires c.Valid() && c.V4? && Pow2(z) * (c.div - c.mult) < 0x1_0000_0000
    requires Start(x, z) + Pow2(z) * (c.div - c.mult) / c.div < 0x1_0000_0000
    ensures TooHigh(c, x, z) <==> (x - Start(x, z)) * c.div > Pow2(z) * (c.div - c.mult)
    ensures TooHigh(c, x, z) <==> (Last(x, z) - x + 1) * c.div < Pow2(z) * c.mult
  {
    hide Pow2, Start, TooHigh;
    var (n, off) := (Pow2(z), x - Start(x, z));
    SameStart(x, x, z);
    TooHighIs(c, x, z);
    QuotientBelow(n * (c.div - c.mult), c.div, off);
    Complement(n, off, c.mult, c.div);
  }

  lemma TooHighIs(c: Config, x: nat, z: nat)
    requires c.Valid() && c.V4? && Pow2(z) * (c.div - c.mult) < 0x1_0000_0000
    requires Start(x, z) + Pow2(z) * (c.div - c.mult) / c.div < 0x1_0000_0000
    ensures TooHigh(c, x, z) <==> x - Start(x, z) > Pow2(z) * (c.div - c.mult) / c.div
  {
    hide Pow2, Start, Share;
    ShareExact(Pow2(z), c.div - c.mult, c.div);
    DivMod(Pow2(z) * (c.div - c.mult), c.div);
  }

  lemma Complement(n: int, off: int, m: int, d: int)
    ensures off * d > n * (d - m) <==> (n - off) * d < n * m
  {
    assert (n - off) * d == n * d - off * d;
    assert n * (d - m) == n * d - n * m;
  }

  lemma QuotientBelow(a: nat, d: nat, x: nat)
    requires d > 0
    ensures x > a / d <==> x * d > a
  {
    DivMod(a, d);
    if x > a / d {
      MulMono(a / d + 1, x, d);
    } else {
      MulMono(x, a / d, d);
    }
  }

  /** A printed network holds at least two addresses, and as many as asked for: for v4 less than one below mult/div of
      it, if the product of 32 bits does not wrap. */
  lemma LineFill(c: Config, s: seq<nat>, out: seq<Item>, cuts: seq<nat>, i: nat)
    requires c.Valid() && Grouped(c, s, out, cuts) && i < |out| && out[i].zct > 0
    ensures var (n, z) := (cuts[i + 1] - cuts[i], out[i].zct);
            n >= 2 && c.zctMin <= z <= c.zctMax && (c.V6? ==> n >= c.threshold) &&
            (c.V4? && Pow2(z) * c.mult < 0x1_0000_0000 ==> (n + 1) * c.div > Pow2(z) * c.mult) &&
            (c.V4? && Pow2(z) * c.mult < 0x1_0000_0000 && Pow2(z) * c.mult % c.div == 0 ==> n * c.div >= Pow2(z) * c.mult)
  {
    hide Pow2, Start, Reach, TooHigh;
    var (n, z) := (cuts[i + 1] - cuts[i], out[i].zct);
    if c.V4? {
      WantedExact(c, z);
      var (a, w) := (Pow2(z) * c.mult, Wanted(c, z));
      DivMod(a, c.div);
      MulMono(w, n, c.div);
      MulMono(w + 1, n + 1, c.div);
    }
  }

  /** Two of four addresses are printed as a network when two thirds are asked for. */
  lemma FillExample(c: Config, s: seq<nat>, z: nat)
    requires c == V4(2, 3, z, z) && s == [0, 1] && z == 2
    ensures c.Valid() && Chosen(c, s, 0, z, 2) && 2 * c.div < Pow2(z) * c.mult
  {
    hide Pow2, Start, End, Share;
    Pow2Small();
    PairStart(z);
    EndTwo(s, z);
    Thirds();
    assert Acceptable(c, s, 0, z);
  }

  lemma Pow2Small()
    ensures Pow2(2) == 4
  {
    assert Pow2(1) == 2;
  }

  lemma PairStart(z: nat)
    requires Pow2(z) == 4
    ensures Start(0, z) == 0
  {
    hide Pow2;
  }

  lemma Thirds()
    ensures Share(4, 2, 3) == 2 && Share(4, 1, 3) == 1
  {
  }

  lemma EndTwo(s: seq<nat>, z: nat)
    requires |s| == 2 && s[1] <= Last(s[0], z)
    ensures Reach(s, 0, z) == 2
  {
    hide Last;
  }

  /** With three quarters of 2^31 addresses asked for the product wraps, and a quarter is enough. */
  lemma ShareWraps()
    ensures var c := V4(3, 4, 1, 31); c.Valid() && Wanted(c, 31) * 4 == Pow2(31)
  {
    Pow31();
  }

  lemma Pow31()
    ensures Pow2(31) == 0x8000_0000
  {
    hide Pow2;
    PowSum(16, 15);
    PowSum(8, 8);
    PowSum(8, 7);
    PowSum(4, 4);
    PowSum(4, 3);
    SmallPowers();
  }

  lemma SmallPowers()
    ensures Pow2(3) == 8 && Pow2(4) == 16
  {
    assert Pow2(2) == 4;
  }
}
