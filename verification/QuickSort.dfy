/** `gnu_quicksort` of `ip2net/qsort.c`: a quicksort with a fixed explicit stack that leaves short runs, and
    an insertion sort without a guard that finishes them. */
module QuickSort {
  import opened Bytes

  const MaxThresh := 4

  ghost predicate TotalPreorder<T(!new)>(cmp: (T, T) -> int) {
    (forall x, y :: cmp(x, y) < 0 <==> cmp(y, x) > 0) &&
    (forall x, y, z :: cmp(x, y) <= 0 && cmp(y, z) <= 0 ==> cmp(x, z) <= 0)
  }

  lemma Opposite<T(!new)>(cmp: (T, T) -> int, x: T, y: T)
    requires TotalPreorder(cmp)
    ensures (cmp(x, y) < 0 <==> cmp(y, x) > 0) && (cmp(y, x) < 0 <==> cmp(x, y) > 0)
  {
  }

  lemma Transitive<T(!new)>(cmp: (T, T) -> int, x: T, y: T, z: T)
    requires TotalPreorder(cmp) && cmp(x, y) <= 0 && cmp(y, z) <= 0
    ensures cmp(x, z) <= 0
  {
  }

  ghost predicate Sorted<T>(cmp: (T, T) -> int, s: seq<T>) {
    forall i, j :: 0 <= i < j < |s| ==> cmp(s[i], s[j]) <= 0
  }

  /** `b` holds the elements of `a` with those from `lo` to `hi` in another order. */
  ghost predicate PermutedWithin<T>(a: seq<T>, b: seq<T>, lo: int, hi: int)
    requires 0 <= lo <= hi + 1 <= |a|
  {
    |a| == |b| && multiset(a) == multiset(b) && multiset(a[lo..hi + 1]) == multiset(b[lo..hi + 1]) &&
    a[..lo] == b[..lo] && a[hi + 1..] == b[hi + 1..]
  }

  ghost function Swapped<T>(s: seq<T>, i: nat, j: nat): (t: seq<T>)
    requires i < |s| && j < |s|
    ensures |t| == |s|
  {
    s[i := s[j]][j := s[i]]
  }

  lemma SelfSwapped<T>(s: seq<T>, i: nat)
    requires i < |s|
    ensures Swapped(s, i, i) == s
  {
  }

  lemma SwapPermutes<T>(s: seq<T>, i: nat, j: nat, lo: int, hi: int)
    requires 0 <= lo <= i <= hi < |s| && lo <= j <= hi
    ensures PermutedWithin(s, Swapped(s, i, j), lo, hi)
  {
    var t := Swapped(s, i, j);
    assert t[lo..hi + 1] == s[lo..hi + 1][i - lo := s[j]][j - lo := s[i]];
  }

  method Swap<T>(a: array<T>, i: nat, j: nat, ghost lo: int, ghost hi: int)
    requires 0 <= lo <= i <= hi < a.Length && lo <= j <= hi
    modifies a
    ensures a[..] == Swapped(old(a[..]), i, j)
    ensures a[i] == old(a[j]) && a[j] == old(a[i]) && forall k :: 0 <= k < a.Length && k != i && k != j ==> a[k] == old(a[k])
    ensures PermutedWithin(old(a[..]), a[..], lo, hi)
  {
    a[i], a[j] := a[j], a[i];
    SwapPermutes(old(a[..]), i, j, lo, hi);
  }

  lemma PermutedTrans<T>(a: seq<T>, b: seq<T>, c: seq<T>, lo: int, hi: int)
    requires 0 <= lo <= hi + 1 <= |a| && |a| == |b|
    requires PermutedWithin(a, b, lo, hi) && PermutedWithin(b, c, lo, hi)
    ensures PermutedWithin(a, c, lo, hi)
  {
  }

  lemma PermutedSame<T>(s: seq<T>, lo: int, hi: int)
    requires 0 <= lo <= hi + 1 <= |s|
    ensures PermutedWithin(s, s, lo, hi)
  {
  }

  lemma PermutedMultiset<T>(s: seq<T>, t: seq<T>, lo: int, hi: int)
    requires 0 <= lo <= hi + 1 <= |s| && PermutedWithin(s, t, lo, hi)
    ensures multiset(t) == multiset(s)
  {
  }

  /** The two sides of a pivot value between `left` and `right`, whose walls have not met yet or have just passed. */
  ghost predicate Walls<T>(cmp: (T, T) -> int, s: seq<T>, lo: int, hi: int, left: int, right: int, v: T)
    requires 0 <= lo && hi < |s|
  {
    lo < left <= right + 2 && right < hi && left <= hi && lo <= right &&
    (forall i :: lo <= i < left ==> cmp(s[i], v) <= 0) && (forall i :: right < i <= hi ==> cmp(v, s[i]) <= 0)
  }

  /** The middle of `lo..hi`, after the three values there have been put in order. */
  method MedianOfThree<T(!new)>(a: array<T>, lo: nat, hi: nat, cmp: (T, T) -> int) returns (mid: nat)
    requires TotalPreorder(cmp) && lo + 2 <= hi < a.Length
    modifies a
    ensures lo <= mid <= hi && cmp(a[lo], a[mid]) <= 0 && cmp(a[mid], a[hi]) <= 0
    ensures PermutedWithin(old(a[..]), a[..], lo, hi)
  {
    hide TotalPreorder, PermutedWithin, Swapped;
    mid := lo + (hi - lo) / 2;
    ghost var s0 := a[..];
    Opposite(cmp, a[lo], a[mid]);
    if cmp(a[mid], a[lo]) < 0 {
      Swap(a, mid, lo, lo, hi);
    } else {
      PermutedSame(s0, lo, hi);
    }
    ghost var s1 := a[..];
    Opposite(cmp, a[mid], a[hi]);
    if cmp(a[hi], a[mid]) < 0 {
      Swap(a, mid, hi, lo, hi);
      ghost var s2 := a[..];
      PermutedTrans(s0, s1, s2, lo, hi);
      Opposite(cmp, a[lo], a[mid]);
      if cmp(a[mid], a[lo]) < 0 {
        Swap(a, mid, lo, lo, hi);
        PermutedTrans(s0, s2, a[..], lo, hi);
      }
    }
  }

  /** The two inner loops, which have no bound of their own: what is known of the walls stops them. */
  method Scan<T(!new)>(a: array<T>, mid: nat, left0: nat, right0: int, cmp: (T, T) -> int, ghost lo: int, ghost hi: int)
    returns (left: nat, right: int)
    requires TotalPreorder(cmp) && 0 <= lo && hi < a.Length && lo <= mid <= hi
    requires left0 <= right0 && Walls(cmp, a[..], lo, hi, left0, right0, a[mid])
    ensures left0 <= left && right <= right0 && left <= right + 1 && Walls(cmp, a[..], lo, hi, left, right, a[mid])
    ensures cmp(a[left], a[mid]) >= 0 && cmp(a[mid], a[right]) >= 0
  {
    hide TotalPreorder;
    left, right := left0, right0;
    Opposite(cmp, a[mid], a[mid]);
    while cmp(a[left], a[mid]) < 0
      invariant left0 <= left <= right + 1 && Walls(cmp, a[..], lo, hi, left, right, a[mid])
      decreases right - left
    {
      Opposite(cmp, a[left], a[mid]);
      left := left + 1;
    }
    while cmp(a[mid], a[right]) < 0
      invariant left - 1 <= right <= right0 && Walls(cmp, a[..], lo, hi, left, right, a[mid])
      decreases right
    {
      Opposite(cmp, a[mid], a[right]);
      right := right - 1;
    }
  }

  lemma WallsSwap<T(!new)>(cmp: (T, T) -> int, s: seq<T>, lo: int, hi: int, left: int, right: int, v: T)
    requires TotalPreorder(cmp) && 0 <= lo && hi < |s| && Walls(cmp, s, lo, hi, left, right, v) && left < right
    requires cmp(s[left], v) >= 0 && cmp(v, s[right]) >= 0
    ensures Walls(cmp, Swapped(s, left, right), lo, hi, left + 1, right - 1, v)
  {
  }

  /** Swap two elements and follow the pivot, wherever it goes. */
  method SwapTracking<T>(a: array<T>, left: nat, right: nat, mid: nat, ghost lo: int, ghost hi: int) returns (mid': nat)
    requires 0 <= lo <= left < right <= hi < a.Length && lo <= mid <= hi
    modifies a
    ensures a[..] == Swapped(old(a[..]), left, right)
    ensures PermutedWithin(old(a[..]), a[..], lo, hi)
    ensures lo <= mid' <= hi && a[mid'] == old(a[mid])
  {
    Swap(a, left, right, lo, hi);
    mid' := if mid == left then right else if mid == right then left else mid;
    assert a[mid'] == a[..][mid'];
  }

  lemma WallsMeet<T(!new)>(cmp: (T, T) -> int, s: seq<T>, lo: int, hi: int, left: int, right: int, v: T)
    requires TotalPreorder(cmp) && 0 <= lo && hi < |s| && Walls(cmp, s, lo, hi, left, right, v) && left == right
    requires cmp(s[left], v) >= 0 && cmp(v, s[right]) >= 0
    ensures Walls(cmp, s, lo, hi, left + 1, right - 1, v)
  {
  }

  lemma WallsStart<T(!new)>(cmp: (T, T) -> int, s: seq<T>, lo: int, hi: int, v: T)
    requires 0 <= lo && hi < |s| && lo + 2 <= hi && cmp(s[lo], v) <= 0 && cmp(v, s[hi]) <= 0
    ensures Walls(cmp, s, lo, hi, lo + 1, hi - 1, v)
  {
  }

  lemma WallsBounds<T(!new)>(cmp: (T, T) -> int, s: seq<T>, lo: int, hi: int, left: int, right: int, v: T)
    requires 0 <= lo && hi < |s| && Walls(cmp, s, lo, hi, left, right, v)
    ensures lo < left <= right + 2 && lo <= right < hi && left <= hi
  {
  }

  /** One round of the section that collapses the walls. */
  method Collapse<T(!new)>(a: array<T>, mid: nat, left0: nat, right0: int, cmp: (T, T) -> int, ghost lo: int, ghost hi: int)
    returns (mid': nat, left: nat, right: int)
    requires TotalPreorder(cmp) && 0 <= lo && hi < a.Length && lo <= mid <= hi
    requires left0 <= right0 && Walls(cmp, a[..], lo, hi, left0, right0, a[mid])
    modifies a
    ensures lo <= mid' <= hi && a[mid'] == old(a[mid]) && right - left < right0 - left0 && right < a.Length
    ensures Walls(cmp, a[..], lo, hi, left, right, a[mid']) && PermutedWithin(old(a[..]), a[..], lo, hi)
  {
    hide TotalPreorder, Walls, PermutedWithin, Swapped;
    ghost var v := a[mid];
    left, right := Scan(a, mid, left0, right0, cmp, lo, hi);
    ghost var s := a[..];
    WallsBounds(cmp, s, lo, hi, left, right, v);
    mid' := mid;
    if left < right {
      WallsSwap(cmp, s, lo, hi, left, right, v);
      mid' := SwapTracking(a, left, right, mid, lo, hi);
      left, right := left + 1, right - 1;
    } else {
      PermutedSame(s, lo, hi);
      if left == right {
        WallsMeet(cmp, s, lo, hi, left, right, v);
        left, right := left + 1, right - 1;
      }
    }
  }

  /** Median of three and the section that collapses the walls: afterwards everything up to `right` is at most
      the pivot, everything from `left` on at least, and at most one element, equal to the pivot, lies between. */
  method Partition<T(!new)>(a: array<T>, lo: nat, hi: nat, cmp: (T, T) -> int) returns (left: nat, right: int, ghost v: T)
    requires TotalPreorder(cmp) && lo + 2 <= hi < a.Length
    modifies a
    ensures Walls(cmp, a[..], lo, hi, left, right, v) && left > right
    ensures PermutedWithin(old(a[..]), a[..], lo, hi)
  {
    hide TotalPreorder, Walls, PermutedWithin;
    ghost var s0 := a[..];
    var mid := MedianOfThree(a, lo, hi, cmp);
    left, right := lo + 1, hi - 1;
    v := a[mid];
    WallsStart(cmp, a[..], lo, hi, v);
    var more := true;
    while more
      invariant right < a.Length && (more <==> left <= right) && Walls(cmp, a[..], lo, hi, left, right, v)
      invariant lo <= mid <= hi && a[mid] == v
      invariant PermutedWithin(s0, a[..], lo, hi)
      decreases right - left
    {
      ghost var s := a[..];
      mid, left, right := Collapse(a, mid, left, right, cmp, lo, hi);
      PermutedTrans(s0, s, a[..], lo, hi);
      more := left <= right;
    }
  }

  // ----- Runs -----

  /** Elements with different marks are in order; `blk` marks each position with the start of its run. */
  ghost predicate Confined<T>(cmp: (T, T) -> int, s: seq<T>, blk: seq<int>) {
    |blk| == |s| && forall i, j :: 0 <= i < j < |s| && blk[i] != blk[j] ==> cmp(s[i], s[j]) <= 0
  }

  /** `lo..hi` is one whole run. */
  ghost predicate RunAt(blk: seq<int>, lo: int, hi: int) {
    0 <= lo <= hi < |blk| && forall i :: 0 <= i < |blk| ==> (blk[i] == lo <==> lo <= i <= hi)
  }

  /** The marks after a run has been parted. */
  ghost function Parted(blk: seq<int>, lo: int, right: int, left: int, hi: int): seq<int> {
    seq(|blk|, i requires 0 <= i < |blk| =>
      if lo <= i <= right then lo else if left <= i <= hi then left else if right < i < left then i else blk[i])
  }

  lemma FromWithin<T>(s: seq<T>, s': seq<T>, lo: int, hi: int, i: int) returns (k: int)
    requires 0 <= lo <= hi + 1 <= |s| && PermutedWithin(s, s', lo, hi) && lo <= i <= hi
    ensures lo <= k <= hi && s[k] == s'[i]
  {
    assert s'[lo..hi + 1][i - lo] in multiset(s'[lo..hi + 1]);
    assert s'[i] in s[lo..hi + 1];
    var m :| 0 <= m < hi + 1 - lo && s[lo..hi + 1][m] == s'[i];
    k := lo + m;
  }

  /** Rearranging a run around a pivot and splitting it there keeps everything else confined. */
  lemma ConfinedParted<T(!new)>(cmp: (T, T) -> int, s: seq<T>, s': seq<T>, blk: seq<int>, lo: int, hi: int,
                                left: int, right: int, v: T)
    requires TotalPreorder(cmp) && Confined(cmp, s, blk) && RunAt(blk, lo, hi)
    requires PermutedWithin(s, s', lo, hi) && Walls(cmp, s', lo, hi, left, right, v) && left > right
    ensures Confined(cmp, s', Parted(blk, lo, right, left, hi))
  {
    var b := Parted(blk, lo, right, left, hi);
    forall i, j | 0 <= i < j < |s| && b[i] != b[j]
      ensures cmp(s'[i], s'[j]) <= 0
    {
      assert i < lo ==> s'[i] == s'[..lo][i] && s[i] == s[..lo][i];
      assert j < lo ==> s'[j] == s'[..lo][j] && s[j] == s[..lo][j];
      assert i > hi ==> s'[i] == s'[hi + 1..][i - hi - 1] && s[i] == s[hi + 1..][i - hi - 1];
      assert j > hi ==> s'[j] == s'[hi + 1..][j - hi - 1] && s[j] == s[hi + 1..][j - hi - 1];
      if lo <= i && j <= hi {
        assert cmp(s'[i], v) <= 0 && cmp(v, s'[j]) <= 0;
      } else if lo <= i <= hi {
        var k := FromWithin(s, s', lo, hi, i);
        assert blk[k] == lo && blk[j] != lo;
      } else if lo <= j <= hi {
        var k := FromWithin(s, s', lo, hi, j);
        assert blk[k] == lo && blk[i] != lo;
      }
    }
  }

  /** The runs still to be parted, from the bottom of the stack, and that all others are short. */
  ghost predicate Pending(blk: seq<int>, pend: seq<(int, int)>) {
    (forall k :: 0 <= k < |pend| ==> RunAt(blk, pend[k].0, pend[k].1) && pend[k].1 - pend[k].0 >= 4) &&
    (forall k, m :: 0 <= k < m < |pend| ==> pend[k].0 != pend[m].0) &&
    Marks(blk) && (forall i :: 0 <= i < |blk| ==> i <= blk[i] + MaxThresh || Starts(pend, blk[i]))
  }

  ghost predicate Starts(pend: seq<(int, int)>, b: int) {
    exists k :: 0 <= k < |pend| && pend[k].0 == b
  }

  /** What is pushed when the last pending run, `lo..hi`, has been parted: the long parts, the smaller last. */
  ghost function Pushed(lo: int, right: int, left: int, hi: int): seq<(int, int)> {
    if right - lo <= MaxThresh then
      if hi - left <= MaxThresh then [] else [(left, hi)]
    else if hi - left <= MaxThresh then [(lo, right)]
    else if right - lo > hi - left then [(lo, right), (left, hi)]
    else [(left, hi), (lo, right)]
  }

  lemma RunElsewhere(blk: seq<int>, lo: int, right: int, left: int, hi: int, l: int, h: int)
    requires RunAt(blk, lo, hi) && RunAt(blk, l, h) && l != lo && lo <= right < left <= hi
    ensures RunAt(Parted(blk, lo, right, left, hi), l, h) && !(lo <= l <= hi)
  {
    var b := Parted(blk, lo, right, left, hi);
    forall i | 0 <= i < |b|
      ensures b[i] == l <==> l <= i <= h
    {
      assert blk[i] == lo <==> lo <= i <= hi;
      assert blk[l] == l && blk[left] == lo;
    }
    assert blk[l] == l;
  }

  ghost predicate Marks(blk: seq<int>) {
    forall i :: 0 <= i < |blk| ==> 0 <= blk[i] <= i && blk[blk[i]] == blk[i]
  }

  lemma MarksParted(blk: seq<int>, lo: int, right: int, left: int, hi: int)
    requires RunAt(blk, lo, hi) && Marks(blk) && lo <= right < left <= hi
    ensures Marks(Parted(blk, lo, right, left, hi))
    ensures RunAt(Parted(blk, lo, right, left, hi), lo, right) && RunAt(Parted(blk, lo, right, left, hi), left, hi)
  {
    var b := Parted(blk, lo, right, left, hi);
    forall i | 0 <= i < |b|
      ensures 0 <= b[i] <= i && b[b[i]] == b[i] && (b[i] == lo <==> lo <= i <= right) && (b[i] == left <==> left <= i <= hi)
    {
      assert blk[i] == lo <==> lo <= i <= hi;
      assert blk[left] == lo && 0 <= blk[i] <= i && blk[blk[i]] == blk[i];
    }
  }

  lemma PendingParted(blk: seq<int>, pend: seq<(int, int)>, lo: int, right: int, left: int, hi: int)
    requires Pending(blk, pend + [(lo, hi)]) && lo < left <= hi && lo <= right < hi && right < left <= right + 2
    ensures Pending(Parted(blk, lo, right, left, hi), pend + Pushed(lo, right, left, hi))
  {
    var b, p, q := Parted(blk, lo, right, left, hi), pend + [(lo, hi)], pend + Pushed(lo, right, left, hi);
    assert p[|pend|] == (lo, hi) && RunAt(blk, lo, hi);
    MarksParted(blk, lo, right, left, hi);
    forall k | 0 <= k < |pend|
      ensures RunAt(b, pend[k].0, pend[k].1) && pend[k].1 - pend[k].0 >= 4 && !(lo <= pend[k].0 <= hi)
    {
      assert p[k] == pend[k];
      RunElsewhere(blk, lo, right, left, hi, pend[k].0, pend[k].1);
    }
    hide RunAt, Marks;
    forall k | 0 <= k < |q|
      ensures RunAt(b, q[k].0, q[k].1) && q[k].1 - q[k].0 >= 4
    {
      assert k < |pend| ==> q[k] == pend[k];
    }
    forall k, m | 0 <= k < m < |q|
      ensures q[k].0 != q[m].0
    {
      assert k < |pend| ==> q[k] == pend[k] == p[k];
      assert m < |pend| ==> q[m] == pend[m] == p[m];
    }
    forall i | 0 <= i < |b|
      ensures i <= b[i] + MaxThresh || Starts(q, b[i])
    {
      if lo <= i <= right && right - lo > MaxThresh {
        assert q[if hi - left > MaxThresh && right - lo <= hi - left then |pend| + 1 else |pend|].0 == lo;
      } else if left <= i <= hi && hi - left > MaxThresh {
        assert q[if right - lo > hi - left > MaxThresh then |pend| + 1 else |pend|].0 == left;
      } else if !(lo <= i <= hi) && i > blk[i] + MaxThresh {
        assert Starts(p, blk[i]);
        var k :| 0 <= k < |p| && p[k].0 == blk[i];
        assert blk[i] != lo by {
          RunOnly(blk, lo, hi, i);
        }
        assert q[k].0 == b[i];
      }
    }
  }

  lemma RunOnly(blk: seq<int>, lo: int, hi: int, i: int)
    requires RunAt(blk, lo, hi) && 0 <= i < |blk|
    ensures blk[i] == lo <==> lo <= i <= hi
  {
  }

  // ----- The stack -----

  ghost function Len(r: (int, int)): int { r.1 - r.0 + 1 }

  /** Each pending run is at most half as long as what the one below it was cut from. */
  ghost predicate Halving(pend: seq<(int, int)>, n: nat) {
    forall k :: 0 <= k < |pend| ==> Len(pend[k]) * Pow2(k) <= n
  }

  /** There is room on the stack, which has as many places as there are bits in `size_t`, whenever two parts are long
      enough to push one. */
  lemma StackRoom(pend: seq<(int, int)>, n: nat, w: nat)
    requires Halving(pend, n) && pend != [] && Len(pend[|pend| - 1]) >= 8 && n < Pow2(w)
    ensures |pend| + 2 < w
  {
    if |pend| + 2 >= w {
      var k := |pend| - 1;
      PowSum(k, 3);
      PowMonotone(w, k + 3);
      assert Pow2(3) == 8;
      MulMono(8, Len(pend[k]), Pow2(k));
    }
  }

  lemma Product(a: nat, b: nat, c: nat, d: nat)
    requires a >= b && c >= d
    ensures a * c >= b * d
  {
    assert a * c == b * d + b * (c - d) + (a - b) * c;
  }

  lemma EnoughBits(w: nat)
    requires Pow2(w) > 5
    ensures w >= 3
  {
    assert Pow2(2) == 4;
    if w < 3 {
      PowMonotone(w, 2);
    }
  }

  lemma HalvingParted(pend: seq<(int, int)>, lo: int, right: int, left: int, hi: int, n: nat)
    requires Halving(pend + [(lo, hi)], n) && lo < left <= hi && lo <= right < hi && right < left
    ensures Halving(pend + Pushed(lo, right, left, hi), n)
  {
    var p, q, e := pend + [(lo, hi)], pend + Pushed(lo, right, left, hi), Pow2(|pend|);
    assert p[|pend|] == (lo, hi) && (hi - lo + 1) * e <= n;
    forall k | 0 <= k < |q|
      ensures Len(q[k]) * Pow2(k) <= n
    {
      if k < |pend| {
        assert q[k] == p[k];
      } else if k == |pend| {
        Product(hi - lo + 1, Len(q[k]), e, e);
      } else {
        assert 2 * Len(q[k]) <= hi - lo + 1 && Pow2(k) == 2 * e;
        Product(hi - lo + 1, 2 * Len(q[k]), e, e);
        assert Len(q[k]) * (2 * e) == 2 * Len(q[k]) * e;
      }
    }
  }

  /** Parting a run makes the pending work less. */
  ghost function Work(pend: seq<(int, int)>): int {
    if pend == [] then 0 else Work(pend[..|pend| - 1]) + 2 * Len(pend[|pend| - 1]) - 1
  }

  lemma WorkSnoc(pend: seq<(int, int)>, r: (int, int))
    ensures Work(pend + [r]) == Work(pend) + 2 * Len(r) - 1
  {
    assert (pend + [r])[..|pend|] == pend;
  }

  lemma WorkParted(pend: seq<(int, int)>, lo: int, right: int, left: int, hi: int)
    requires lo < left <= hi && lo <= right < hi && right < left
    ensures Work(pend + Pushed(lo, right, left, hi)) < Work(pend + [(lo, hi)])
  {
    hide Work;
    var u := Pushed(lo, right, left, hi);
    WorkSnoc(pend, (lo, hi));
    if u == [] {
      assert pend + u == pend;
    } else {
      WorkSnoc(pend, u[0]);
      if |u| == 1 {
        assert u == [u[0]];
      } else {
        WorkSnoc(pend + [u[0]], u[1]);
        assert pend + u == pend + [u[0]] + [u[1]];
      }
    }
  }

  lemma {:induction false} WorkPositive(pend: seq<(int, int)>)
    requires forall k :: 0 <= k < |pend| ==> Len(pend[k]) > 0
    ensures Work(pend) >= 0
  {
    if pend != [] {
      var r := pend[..|pend| - 1];
      assert forall k :: 0 <= k < |r| ==> r[k] == pend[k];
      WorkPositive(r);
    }
  }

  /** No element is more than four places before a smaller one. */
  ghost predicate NearlySorted<T>(cmp: (T, T) -> int, s: seq<T>) {
    forall i, j :: 0 <= i && i + MaxThresh < j < |s| ==> cmp(s[i], s[j]) <= 0
  }

  lemma ConfinedShort<T>(cmp: (T, T) -> int, s: seq<T>, blk: seq<int>)
    requires Confined(cmp, s, blk) && Pending(blk, [])
    ensures NearlySorted(cmp, s)
  {
    forall i, j | 0 <= i && i + MaxThresh < j < |s|
      ensures cmp(s[i], s[j]) <= 0
    {
      assert !Starts([], blk[j]);
      assert blk[i] <= i && j <= blk[j] + MaxThresh;
    }
  }

  lemma StartFacts<T(!new)>(cmp: (T, T) -> int, s: seq<T>, blk: seq<int>)
    requires |s| > MaxThresh && |blk| == |s| && forall i :: 0 <= i < |s| ==> blk[i] == 0
    ensures Confined(cmp, s, blk) && Pending(blk, [] + [(0, |s| - 1)]) && Halving([] + [(0, |s| - 1)], |s|)
  {
    var p := [] + [(0, |s| - 1)];
    assert p[0].0 == 0 && Pow2(0) == 1;
    assert forall i :: 0 <= i < |blk| ==> Starts(p, blk[i]);
  }

  /** Facts about the run on top. */
  lemma TopRun(blk: seq<int>, pend: seq<(int, int)>, lo: int, hi: int)
    requires Pending(blk, pend + [(lo, hi)])
    ensures RunAt(blk, lo, hi) && 0 <= lo && lo + 4 <= hi < |blk| && Work(pend + [(lo, hi)]) >= 0
  {
    var p := pend + [(lo, hi)];
    assert p[|pend|] == (lo, hi);
    forall k | 0 <= k < |pend|
      ensures Len(pend[k]) > 0
    {
      assert pend[k] == p[k];
    }
    WorkPositive(pend);
    WorkSnoc(pend, (lo, hi));
  }

  /** The first phase: part the runs until all are short. */
  method QuickPhase<T(!new)>(a: array<T>, cmp: (T, T) -> int, w: nat)
    requires TotalPreorder(cmp) && MaxThresh < a.Length < Pow2(w)
    modifies a
    ensures multiset(a[..]) == multiset(old(a[..])) && NearlySorted(cmp, a[..])
  {
    hide TotalPreorder, Confined, Pending, Halving, Work, Walls, Parted, NearlySorted, RunAt;
    var lo, hi := 0, a.Length - 1;
    EnoughBits(w);
    var stack := new (int, int)[w];
    stack[0] := (-1, -1);
    var top := 1;
    ghost var n, blk, pend: seq<(int, int)> := a.Length, seq(a.Length, i => 0), [];
    StartFacts(cmp, a[..], blk);
    while top > 0
      invariant 0 <= top <= w && Confined(cmp, a[..], blk) && |blk| == n
      invariant top > 0 ==> |pend| == top - 1 && stack[1..top] == pend && Pending(blk, pend + [(lo, hi)]) && Halving(pend + [(lo, hi)], n)
      invariant top == 0 ==> Pending(blk, [])
      invariant multiset(a[..]) == multiset(old(a[..]))
      decreases top > 0, if top > 0 then Work(pend + [(lo, hi)]) else 0
    {
      TopRun(blk, pend, lo, hi);
      ghost var s := a[..];
      var left, right;
      ghost var v;
      left, right, v := Partition(a, lo, hi, cmp);
      WallsBounds(cmp, a[..], lo, hi, left, right, v);
      ConfinedParted(cmp, s, a[..], blk, lo, hi, left, right, v);
      PendingParted(blk, pend, lo, right, left, hi);
      HalvingParted(pend, lo, right, left, hi, n);
      WorkParted(pend, lo, right, left, hi);
      ghost var p := pend + [(lo, hi)];
      blk := Parted(blk, lo, right, left, hi);
      ghost var q := pend + Pushed(lo, right, left, hi);
      if right - lo <= MaxThresh {
        if hi - left <= MaxThresh {
          top := top - 1;
          lo, hi := stack[top].0, stack[top].1;
          assert q == pend;
          if top > 0 {
            assert pend[top - 1] == stack[top];
            pend := pend[..top - 1];
            assert q == pend + [(lo, hi)];
          }
        } else {
          lo := left;
        }
      } else if hi - left <= MaxThresh {
        hi := right;
      } else if right - lo > hi - left {
        StackRoom(p, n, w);
        stack[top] := (lo, right);
        top := top + 1;
        pend := pend + [(lo, right)];
        lo := left;
        assert q == pend + [(lo, hi)];
      } else {
        StackRoom(p, n, w);
        stack[top] := (left, hi);
        top := top + 1;
        pend := pend + [(left, hi)];
        hi := right;
        assert q == pend + [(lo, hi)];
      }
      if top > 0 {
        TopRun(blk, pend, lo, hi);
      }
    }
    ConfinedShort(cmp, a[..], blk);
  }

  // ----- The insertion sort -----

  /** The smallest element stands first. */
  ghost predicate FirstLeast<T>(cmp: (T, T) -> int, s: seq<T>) {
    forall i :: 0 <= i < |s| ==> cmp(s[0], s[i]) <= 0
  }

  lemma LeastOf<T(!new)>(cmp: (T, T) -> int, s: seq<T>, x: T, y: T, n: nat)
    requires TotalPreorder(cmp) && n <= |s| && cmp(x, y) <= 0 && forall k :: 0 <= k < n ==> cmp(y, s[k]) <= 0
    ensures cmp(x, x) == 0 && forall k :: 0 <= k < n ==> cmp(x, s[k]) <= 0
  {
    assert forall k :: 0 <= k < n ==> cmp(y, s[k]) <= 0;
  }

  /** The least of the first five is the least of all. */
  lemma FrontLeast<T(!new)>(cmp: (T, T) -> int, s: seq<T>, m: nat)
    requires TotalPreorder(cmp) && m < |s| && (NearlySorted(cmp, s) || |s| <= MaxThresh)
    requires forall k :: 0 <= k <= MaxThresh && k < |s| ==> cmp(s[m], s[k]) <= 0
    ensures forall k :: 0 <= k < |s| ==> cmp(s[m], s[k]) <= 0
  {
    hide TotalPreorder;
    forall k | MaxThresh < k < |s|
      ensures cmp(s[m], s[k]) <= 0
    {
      Transitive(cmp, s[m], s[0], s[k]);
    }
  }

  lemma FirstSwapped<T>(cmp: (T, T) -> int, s: seq<T>, m: nat)
    requires m < |s| && forall k :: 0 <= k < |s| ==> cmp(s[m], s[k]) <= 0
    ensures FirstLeast(cmp, Swapped(s, m, 0))
  {
  }

  /** Moves the smallest of the first five elements to the front. In a nearly sorted array that is the
      smallest of all. */
  method PlaceSentinel<T(!new)>(a: array<T>, cmp: (T, T) -> int)
    requires TotalPreorder(cmp) && a.Length > 0 && (NearlySorted(cmp, a[..]) || a.Length <= MaxThresh)
    modifies a
    ensures multiset(a[..]) == multiset(old(a[..])) && FirstLeast(cmp, a[..])
  {
    hide TotalPreorder, NearlySorted, FirstLeast, PermutedWithin, Swapped;
    ghost var s := a[..];
    var tmp, run := 0, 1;
    var thresh := if a.Length - 1 < MaxThresh then a.Length - 1 else MaxThresh;
    Opposite(cmp, a[0], a[0]);
    while run <= thresh
      invariant 1 <= run <= thresh + 1 && 0 <= tmp <= thresh && tmp < run && a[..] == s
      invariant forall k :: 0 <= k < run ==> cmp(s[tmp], s[k]) <= 0
    {
      Opposite(cmp, a[run], a[tmp]);
      if cmp(a[run], a[tmp]) < 0 {
        LeastOf(cmp, s, a[run], a[tmp], run);
        tmp := run;
      }
      run := run + 1;
    }
    FrontLeast(cmp, s, tmp);
    FirstSwapped(cmp, s, tmp);
    if tmp != 0 {
      Swap(a, tmp, 0, 0, a.Length - 1);
      PermutedMultiset(s, a[..], 0, |s| - 1);
    } else {
      SelfSwapped(s, 0);
    }
  }

  /** The elements of `s` with the one at `run` moved down to `tmp`. */
  ghost function MovedDown<T>(s: seq<T>, tmp: int, run: int): seq<T>
    requires 0 <= tmp <= run < |s|
  {
    s[..tmp] + [s[run]] + s[tmp..run] + s[run + 1..]
  }

  lemma MovedFacts<T>(s: seq<T>, tmp: int, run: int)
    requires 0 <= tmp <= run < |s|
    ensures multiset(MovedDown(s, tmp, run)) == multiset(s)
    ensures forall k :: 0 <= k < |s| ==>
              MovedDown(s, tmp, run)[k] == if k < tmp || k > run then s[k] else if k == tmp then s[run] else s[k - 1]
  {
    assert s == s[..tmp] + s[tmp..run] + [s[run]] + s[run + 1..];
  }

  /** The move of one element down to its place. */
  method MoveDown<T>(a: array<T>, tmp: nat, run: nat)
    requires tmp <= run < a.Length
    modifies a
    ensures a[..] == MovedDown(old(a[..]), tmp, run)
  {
    var c, hi := a[run], run;
    ghost var s := a[..];
    while hi > tmp
      invariant tmp <= hi <= run
      invariant forall k :: hi < k <= run ==> a[k] == s[k - 1]
      invariant forall k :: 0 <= k <= hi || run < k < a.Length ==> a[k] == s[k]
    {
      a[hi] := a[hi - 1];
      hi := hi - 1;
    }
    a[hi] := c;
    MovedFacts(s, tmp, run);
    assert |MovedDown(s, tmp, run)| == a.Length;
  }

  lemma SortedMoved<T(!new)>(cmp: (T, T) -> int, s: seq<T>, tmp: int, run: int)
    requires TotalPreorder(cmp) && FirstLeast(cmp, s) && 0 < tmp <= run < |s| && Sorted(cmp, s[..run])
    requires cmp(s[run], s[tmp - 1]) >= 0 && forall k :: tmp <= k < run ==> cmp(s[run], s[k]) < 0
    ensures Sorted(cmp, MovedDown(s, tmp, run)[..run + 1]) && FirstLeast(cmp, MovedDown(s, tmp, run))
  {
    MovedFacts(s, tmp, run);
    var u, p := MovedDown(s, tmp, run), s[..run];
    forall i, j | 0 <= i < j < run + 1
      ensures cmp(u[i], u[j]) <= 0
    {
      assert i < tmp ==> u[i] == p[i] && cmp(p[i], p[tmp - 1]) <= 0 by {
        assert i < tmp - 1 ==> cmp(p[i], p[tmp - 1]) <= 0;
      }
      assert i > tmp ==> u[i] == p[i - 1];
      assert j < tmp ==> u[j] == p[j];
      assert j > tmp ==> u[j] == p[j - 1];
    }
  }

  /** The second phase. The scan for the place of an element has no bound: the sentinel stops it. */
  method InsertionPhase<T(!new)>(a: array<T>, cmp: (T, T) -> int)
    requires TotalPreorder(cmp) && a.Length > 0 && FirstLeast(cmp, a[..])
    modifies a
    ensures multiset(a[..]) == multiset(old(a[..])) && Sorted(cmp, a[..])
  {
    hide TotalPreorder, Sorted, MovedDown;
    var run := 2;
    SortedShort(cmp, a[..]);
    while run < a.Length
      invariant 2 <= run && (run <= a.Length || a.Length == 1) && FirstLeast(cmp, a[..])
      invariant if a.Length == 1 then Sorted(cmp, a[..]) else Sorted(cmp, a[..][..run])
      invariant multiset(a[..]) == multiset(old(a[..]))
    {
      ghost var s := a[..];
      var tmp := FindPlace(a, run, cmp);
      SortedMoved(cmp, s, tmp, run);
      MovedFacts(s, tmp, run);
      if tmp != run {
        MoveDown(a, tmp, run);
      } else {
        MovedSame(s, run);
      }
      run := run + 1;
    }
    assert a[..] == a[..][..a.Length];
  }

  /** The scan for the place of the element at `run`. */
  method FindPlace<T(!new)>(a: array<T>, run: nat, cmp: (T, T) -> int) returns (tmp: nat)
    requires TotalPreorder(cmp) && 0 < run < a.Length && FirstLeast(cmp, a[..])
    ensures 0 < tmp <= run && cmp(a[run], a[tmp - 1]) >= 0 && forall k :: tmp <= k < run ==> cmp(a[run], a[k]) < 0
  {
    tmp := run - 1;
    assert cmp(a[..][0], a[..][run]) <= 0;
    while cmp(a[run], a[tmp]) < 0
      invariant tmp < run && forall k :: tmp < k < run ==> cmp(a[run], a[k]) < 0
      decreases tmp
    {
      tmp := tmp - 1;
    }
    tmp := tmp + 1;
  }

  lemma SortedShort<T(!new)>(cmp: (T, T) -> int, s: seq<T>)
    requires s != [] && FirstLeast(cmp, s)
    ensures |s| == 1 ==> Sorted(cmp, s)
    ensures |s| > 1 ==> Sorted(cmp, s[..2])
  {
    assert |s| > 1 ==> cmp(s[0], s[1]) <= 0;
  }

  lemma MovedSame<T>(s: seq<T>, run: int)
    requires 0 <= run < |s|
    ensures MovedDown(s, run, run) == s
  {
  }

  /** `gnu_quicksort` with a `size_t` of `w` bits: sorts any array that can be there by any total preorder. */
  method GnuQuicksort<T(!new)>(a: array<T>, cmp: (T, T) -> int, w: nat)
    requires TotalPreorder(cmp) && a.Length < Pow2(w)
    modifies a
    ensures Sorted(cmp, a[..]) && multiset(a[..]) == multiset(old(a[..]))
  {
    if a.Length == 0 {
      return;
    }
    if a.Length > MaxThresh {
      QuickPhase(a, cmp, w);
    }
    PlaceSentinel(a, cmp);
    InsertionPhase(a, cmp);
  }
}
