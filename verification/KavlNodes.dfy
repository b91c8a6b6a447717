/** The node operations of the in-place AVL tree of `nfq2/kavl.h`: searching down, rotating, and the loops
    of `kavl_insert`, over linked nodes. */
module KavlNodes {
  import opened AvlTree
  import opened AvlSteps

  const MaxDepth := 64

  /** The comparisons of `x` with the nodes of `s`, read from left to right, are first positive, then zero,
      then negative. This is all the tree needs of its comparator. */
  ghost predicate Separates<K>(cmp: (K, K) -> int, x: K, s: seq<Node<K>>) {
    forall i, j :: 0 <= i < j < |s| ==>
      (cmp(x, s[j].key) >= 0 ==> cmp(x, s[i].key) >= 0) && (cmp(x, s[j].key) > 0 ==> cmp(x, s[i].key) > 0)
  }

  ghost predicate AllAbove<K>(cmp: (K, K) -> int, x: K, s: seq<Node<K>>) {
    forall n :: n in s ==> cmp(x, n.key) > 0
  }

  ghost predicate AllBelow<K>(cmp: (K, K) -> int, x: K, s: seq<Node<K>>) {
    forall n :: n in s ==> cmp(x, n.key) < 0
  }

  /** A comparison at a node decides one side of it. */
  lemma CutAt<K>(cmp: (K, K) -> int, x: K, a: seq<Node<K>>, l: seq<Node<K>>, n: Node<K>, r: seq<Node<K>>, b: seq<Node<K>>)
    requires Separates(cmp, x, a + (l + [n] + r) + b)
    ensures cmp(x, n.key) > 0 ==> AllAbove(cmp, x, l)
    ensures cmp(x, n.key) < 0 ==> AllBelow(cmp, x, r)
  {
    var s, m := a + (l + [n] + r) + b, |a| + |l|;
    assert s[m] == n;
    forall i | 0 <= i < |l|
      ensures cmp(x, n.key) > 0 ==> cmp(x, l[i].key) > 0
    {
      assert s[|a| + i] == l[i];
    }
    forall i | 0 <= i < |r|
      ensures cmp(x, n.key) < 0 ==> cmp(x, r[i].key) < 0
    {
      assert s[m + 1 + i] == r[i];
    }
  }

  /** Where a search for `x` has come to: everything to the left is smaller, everything to the right is greater. */
  ghost predicate At<K>(cmp: (K, K) -> int, x: K, t: Tree<K>, ds: seq<bool>) {
    Path(t, ds) && AllAbove(cmp, x, Before(t, ds)) && AllBelow(cmp, x, After(t, ds))
  }

  lemma Descend<K>(cmp: (K, K) -> int, x: K, t: Tree<K>, ds: seq<bool>, d: bool)
    requires Separates(cmp, x, Seq(t)) && Ok(t) && At(cmp, x, t, ds) && Sub(t, ds).Fork?
    requires if d then cmp(x, Sub(t, ds).n.key) > 0 else cmp(x, Sub(t, ds).n.key) < 0
    ensures At(cmp, x, t, ds + [d]) && Sub(t, ds + [d]) == Sub(t, ds).Kid(d)
    ensures |Before(t, ds + [d])| == |Before(t, ds)| + if d then Sub(t, ds).l.Size() + 1 else 0
  {
    var s := Sub(t, ds);
    SeqSplit(t, ds);
    CutAt(cmp, x, Before(t, ds), Seq(s.l), s.n, Seq(s.r), After(t, ds));
    PathSnoc(t, ds, d);
    SeqCount(s.l);
    OkSub(t, ds);
    OkSize(s.l);
  }

  /** What the position of a search says about the order. */
  lemma Arrived<K>(cmp: (K, K) -> int, x: K, t: Tree<K>, ds: seq<bool>)
    requires Ok(t) && At(cmp, x, t, ds)
    ensures var s, c := Sub(t, ds), |Before(t, ds)|;
            if s.Leaf? then
              c <= |Seq(t)| && AllAbove(cmp, x, Seq(t)[..c]) && AllBelow(cmp, x, Seq(t)[c..])
              && Seq(t)[..c] == Before(t, ds) && Seq(t)[c..] == After(t, ds)
            else 0 <= s.l.Size() && c + s.l.Size() < |Seq(t)| && Seq(t)[c + s.l.Size()] == s.n
  {
    hide Ok, Before, After, Sub, Path, Count, AllAbove, AllBelow;
    var s, a, b := Sub(t, ds), Before(t, ds), After(t, ds);
    SeqSplit(t, ds);
    if s.Leaf? {
      assert Seq(t) == a + b;
    } else {
      OkSub(t, ds);
      OkParts(s, false);
      OkSize(s.l);
      SeqCount(s.l);
      InTheMiddle(a, Seq(s.l), s.n, Seq(s.r), b);
    }
  }

  lemma InTheMiddle<T>(a: seq<T>, l: seq<T>, n: T, r: seq<T>, b: seq<T>)
    ensures var s := a + (l + [n] + r) + b; |a| + |l| < |s| && s[|a| + |l|] == n
  {
  }

  /** `kavl_size`. */
  function SizeOf<K>(p: Node?<K>): int
    reads p
  {
    if p != null then p.size else 0
  }

  lemma Rot1Linked<K>(m: Image<K>, m': Image<K>, p: Node<K>, q: Node<K>, t: Tree<K>, dir: bool)
    requires Linked(m, p, t) && Distinct(t) && t.Fork? && t.Kid(!dir).Fork? && q == t.Kid(!dir).n
    requires p in m' && q in m' && forall n :: n in m && n != p && n != q ==> n in m' && m'[n] == m[n]
    requires p in m && q in m
    requires var a := m[p].SetP(!dir, m[q].P(dir)); 
             m'[p] == Rec(a.p0, a.p1, a.bal, m[p].size - (m[q].size - t.Kid(!dir).Kid(dir).Size()))
    requires var a := m[q].SetP(dir, p); m'[q] == Rec(a.p0, a.p1, a.bal, m[p].size)
    ensures Linked(m', q, Rot1(t, dir))
  {
    var tq := t.Kid(!dir);
    LinkedParts(m, p, t);
    LinkedParts(m, q, tq);
    LinkedMember(m, m[p].P(dir), t.Kid(dir));
    LinkedMember(m, m[q].P(dir), tq.Kid(dir));
    LinkedMember(m, m[q].P(!dir), tq.Kid(!dir));
    LinkedKept(m, m', m[p].P(dir), t.Kid(dir));
    LinkedKept(m, m', m[q].P(dir), tq.Kid(dir));
    LinkedKept(m, m', m[q].P(!dir), tq.Kid(!dir));
    assert Linked(m', p, Rot1(t, dir).Kid(dir));
  }

  /** The nodes a rotation touches: `p`, its child `q` on side `!dir`, and that child's child on side `e`. */
  lemma RotParts<K>(m: Image<K>, p: Node<K>, t: Tree<K>, dir: bool, e: bool)
    requires Linked(m, p, t) && Distinct(t) && t.Fork? && t.Kid(!dir).Fork?
    ensures var (q, u) := (t.Kid(!dir).n, t.Kid(!dir).Kid(e));
            Linked(m, q, t.Kid(!dir)) && Distinct(t.Kid(!dir)) && p != q && p in Nodes(t) && q in Nodes(t) && p in m && q in m && m[p].P(!dir) == q &&
            (if u.Leaf? then m[q].P(e) == null
             else u.n != p && u.n != q && u.n in Nodes(t) && u.n in m && m[q].P(e) == u.n && m[u.n].size == u.Size())
  {
    LinkedParts(m, p, t);
    LinkedParts(m, t.Kid(!dir).n, t.Kid(!dir));
  }

  /** `kavl_rotate1`. */
  method Rotate1<K>(p: Node<K>, dir: bool, ghost t: Tree<K>, ghost m: Image<K>) returns (q: Node<K>, ghost m': Image<K>)
    requires Mirrors(m, Nodes(t)) && Linked(m, p, t) && Distinct(t) && t.Fork? && t.Kid(!dir).Fork?
    modifies p, t.Kid(!dir).n
    ensures q == t.Kid(!dir).n && p in m && q in m && m' == m[p := p.Fields()][q := q.Fields()]
    ensures Linked(m', q, Rot1(t, dir))
  {
    RotParts(m, p, t, dir, dir);
    q := p.P(!dir);
    assert SizeOf(q.P(dir)) == t.Kid(!dir).Kid(dir).Size();
    var sizeP := p.size;
    p.size := p.size - (q.size - SizeOf(q.P(dir)));
    q.size := sizeP;
    p.SetP(!dir, q.P(dir));
    q.SetP(dir, p);
    m' := m[p := p.Fields()][q := q.Fields()];
    Rot1Linked(m, m', p, q, t, dir);
  }

  /** The four subtrees a double rotation carries around hold none of its three nodes. */
  lemma Rot2Outside<K>(m: Image<K>, p: Node<K>, t: Tree<K>, dir: bool)
    requires Linked(m, p, t) && Distinct(t) && t.Fork? && t.Kid(!dir).Fork? && t.Kid(!dir).Kid(dir).Fork?
    ensures var (q, r) := (t.Kid(!dir), t.Kid(!dir).Kid(dir));
            p != q.n && p != r.n && q.n != r.n &&
            {p, q.n, r.n} !! Nodes(t.Kid(dir)) && {p, q.n, r.n} !! Nodes(q.Kid(!dir)) &&
            {p, q.n, r.n} !! Nodes(r.Kid(dir)) && {p, q.n, r.n} !! Nodes(r.Kid(!dir))
  {
    var q, r := t.Kid(!dir), t.Kid(!dir).Kid(dir);
    DistinctParts(t);
    DistinctParts(q);
    DistinctParts(r);
    assert q.n in Nodes(q) && r.n in Nodes(q) && r.n in Nodes(r);
    assert Nodes(q.Kid(!dir)) <= Nodes(q) && Nodes(r) <= Nodes(q);
  }

  lemma LinkedExcept<K>(m: Image<K>, m': Image<K>, s: set<Node<K>>, p: Node?<K>, t: Tree<K>)
    requires Linked(m, p, t) && s !! Nodes(t)
    requires forall n :: n in m && n !in s ==> n in m' && m'[n] == m[n]
    ensures Linked(m', p, t)
  {
    LinkedMember(m, p, t);
    LinkedKept(m, m', p, t);
  }

  /** What the three nodes of a double rotation hold afterwards. */
  ghost predicate Rot2Done<K>(m: Image<K>, m': Image<K>, p: Node<K>, q: Node<K>, r: Node<K>, x: int, dir: bool)
    requires p in m && q in m && r in m && p in m' && q in m' && r in m'
  {
    var b1 := if dir then -1 else 1;
    var a, b := m[p].SetP(!dir, m[r].P(dir)), m[q].SetP(dir, m[r].P(!dir));
    m'[p] == Rec(a.p0, a.p1, if m[r].bal == b1 then -b1 else 0, m[p].size - (m[q].size - x)) &&
    m'[q] == Rec(b.p0, b.p1, if m[r].bal == b1 || m[r].bal == 0 then 0 else b1, m[q].size - (x + 1)) &&
    m'[r] == Rec(if dir then q else p, if dir then p else q, 0, m[p].size)
  }

  lemma Rot2Kept<K>(m: Image<K>, m': Image<K>, p: Node<K>, t: Tree<K>, dir: bool)
    requires Linked(m, p, t) && Distinct(t) && t.Fork? && t.Kid(!dir).Fork? && t.Kid(!dir).Kid(dir).Fork?
    requires var s := {p, t.Kid(!dir).n, t.Kid(!dir).Kid(dir).n};
             s <= m.Keys && forall n :: n in m && n !in s ==> n in m' && m'[n] == m[n]
    ensures var (q, r) := (t.Kid(!dir), t.Kid(!dir).Kid(dir));
            Linked(m', m[p].P(dir), t.Kid(dir)) && Linked(m', m[q.n].P(!dir), q.Kid(!dir)) &&
            Linked(m', m[r.n].P(dir), r.Kid(dir)) && Linked(m', m[r.n].P(!dir), r.Kid(!dir)) &&
            m[q.n].bal == q.bal && m[q.n].size == q.size && m[r.n].bal == r.bal
  {
    var q, r := t.Kid(!dir), t.Kid(!dir).Kid(dir);
    var s := {p, q.n, r.n};
    Rot2Outside(m, p, t, dir);
    assert Linked(m, m[p].P(!dir), q) && Linked(m, m[q.n].P(dir), r);
    LinkedExcept(m, m', s, m[p].P(dir), t.Kid(dir));
    LinkedExcept(m, m', s, m[q.n].P(!dir), q.Kid(!dir));
    LinkedExcept(m, m', s, m[r.n].P(dir), r.Kid(dir));
    LinkedExcept(m, m', s, m[r.n].P(!dir), r.Kid(!dir));
  }

  lemma Rot2Linked<K>(m: Image<K>, m': Image<K>, p: Node<K>, q: Node<K>, r: Node<K>, t: Tree<K>, dir: bool)
    requires Linked(m, p, t) && Distinct(t) && t.Fork? && t.Kid(!dir).Fork? && t.Kid(!dir).Kid(dir).Fork?
    requires q == t.Kid(!dir).n && r == t.Kid(!dir).Kid(dir).n && p in m && q in m && r in m
    requires p in m' && q in m' && r in m'
    requires forall n :: n in m && n !in {p, q, r} ==> n in m' && m'[n] == m[n]
    requires Rot2Done(m, m', p, q, r, t.Kid(!dir).Kid(dir).Kid(dir).Size(), dir)
    ensures Linked(m', r, Rot2(t, dir))
  {
    var tq := t.Kid(!dir);
    var tr := tq.Kid(dir);
    Rot2Kept(m, m', p, t, dir);
    assert Linked(m', p, Rot2(t, dir).Kid(dir));
    assert Linked(m', q, Rot2(t, dir).Kid(!dir));
  }

  lemma Rot2Parts<K>(m: Image<K>, p: Node<K>, t: Tree<K>, dir: bool)
    requires Linked(m, p, t) && Distinct(t) && t.Fork? && t.Kid(!dir).Fork? && t.Kid(!dir).Kid(dir).Fork?
    ensures var q, r, u := t.Kid(!dir).n, t.Kid(!dir).Kid(dir).n, t.Kid(!dir).Kid(dir).Kid(dir);
            p != q && p != r && q != r && {p, q, r} <= Nodes(t) && p in m && q in m && r in m &&
            m[p].P(!dir) == q && m[q].P(dir) == r &&
            (if u.Leaf? then m[r].P(dir) == null
             else u.n !in {p, q, r} && u.n in Nodes(t) && u.n in m && m[r].P(dir) == u.n && m[u.n].size == u.Size())
  {
    RotParts(m, p, t, dir, dir);
    RotParts(m, t.Kid(!dir).n, t.Kid(!dir), !dir, dir);
    LinkedParts(m, p, t);
  }

  /** The assignments of `kavl_rotate2`. */
  method Rotate2Fields<K>(p: Node<K>, q: Node<K>, r: Node<K>, dir: bool, sizeXDir: int)
    requires p != q && q != r && p != r
    modifies p, q, r
    ensures var b1, fp, fq, fr := if dir then -1 else 1, old(p.Fields()), old(q.Fields()), old(r.Fields());
            var (a, b) := (fp.SetP(!dir, fr.P(dir)), fq.SetP(dir, fr.P(!dir)));
            p.Fields() == Rec(a.p0, a.p1, if fr.bal == b1 then -b1 else 0, fp.size - (fq.size - sizeXDir)) &&
            q.Fields() == Rec(b.p0, b.p1, if fr.bal == b1 || fr.bal == 0 then 0 else b1, fq.size - (sizeXDir + 1)) &&
            r.Fields() == Rec(if dir then q else p, if dir then p else q, 0, fp.size)
  {
    r.size := p.size;
    p.size := p.size - (q.size - sizeXDir);
    q.size := q.size - (sizeXDir + 1);
    if dir {
      p.p0, r.p1, q.p1, r.p0 := r.p1, p, r.p0, q;
    } else {
      p.p1, r.p0, q.p0, r.p1 := r.p0, p, r.p1, q;
    }
    var b1 := if dir then -1 else 1;
    if r.balance == b1 {
      q.balance, p.balance := 0, -b1;
    } else if r.balance == 0 {
      q.balance, p.balance := 0, 0;
    } else {
      q.balance, p.balance := b1, 0;
    }
    r.balance := 0;
  }

  /** `kavl_rotate2`. */
  method Rotate2<K>(p: Node<K>, dir: bool, ghost t: Tree<K>, ghost m: Image<K>) returns (r: Node<K>, ghost m': Image<K>)
    requires Mirrors(m, Nodes(t)) && Linked(m, p, t) && Distinct(t)
    requires t.Fork? && t.Kid(!dir).Fork? && t.Kid(!dir).Kid(dir).Fork?
    modifies p, t.Kid(!dir).n, t.Kid(!dir).Kid(dir).n
    ensures r == t.Kid(!dir).Kid(dir).n
    ensures var q := t.Kid(!dir).n; p in m && q in m && r in m && m' == m[p := p.Fields()][q := q.Fields()][r := r.Fields()]
    ensures Linked(m', r, Rot2(t, dir))
  {
    Rot2Parts(m, p, t, dir);
    var q := p.P(!dir);
    r := q.P(dir);
    Rotate2Fields(p, q, r, dir, SizeOf(r.P(dir)));
    m' := m[p := p.Fields()][q := q.Fields()][r := r.Fields()];
    Rot2Linked(m, m', p, q, r, t, dir);
  }

  /** What `kavl_insert` makes of the node at one depth of the way: the last one is linked to `x`, a counted
      one has its size raised, a tilted one its balance moved. */
  ghost function Touched<K>(r: Rec<K>, d: bool, counted: bool, tilted: bool, last: bool, x: Node<K>): Rec<K> {
    var a := if last then r.SetP(d, x) else r;
    Rec(a.p0, a.p1, r.bal + (if tilted then Lean(d) else 0), r.size + (if counted then 1 else 0))
  }

  /** The state of the two loops of `kavl_insert`: the first `i` nodes of the way are counted, those at depths
      `k` to `j` are tilted, and nothing else in the tree has changed. */
  ghost predicate Growing<K>(m: Image<K>, m': Image<K>, t: Tree<K>, ds: seq<bool>, x: Node<K>, k: int, i: int, j: int)
    requires Path(t, ds) && |Way(t, ds)| == |ds|
  {
    var w := Way(t, ds);
    (forall a :: 0 <= a < |w| ==>
      w[a] in m && w[a] in m' && m'[w[a]] == Touched(m[w[a]], ds[a], a < i, k <= a < j, a == |w| - 1, x)) &&
    (forall n :: n in Nodes(t) && n !in w ==> n in m' && n in m && m'[n] == m[n])
  }

  ghost predicate GrownImage<K>(m: Image<K>, m': Image<K>, t: Tree<K>, ds: seq<bool>, x: Node<K>, k: int)
    requires Path(t, ds) && |Way(t, ds)| == |ds|
  {
    Growing(m, m', t, ds, x, k, |ds|, |ds|)
  }

  lemma GrowingCount<K>(m: Image<K>, m': Image<K>, t: Tree<K>, ds: seq<bool>, x: Node<K>, k: int, i: nat)
    requires Path(t, ds) && |Way(t, ds)| == |ds| && NoDup(Way(t, ds)) && i < |ds| && k >= 0
    requires Growing(m, m', t, ds, x, k, i, k)
    ensures var w := Way(t, ds)[i];
            w in m' && Growing(m, m'[w := Rec(m'[w].p0, m'[w].p1, m'[w].bal, m'[w].size + 1)], t, ds, x, k, i + 1, k)
  {
  }

  lemma GrowingTilt<K>(m: Image<K>, m': Image<K>, p: Node?<K>, t: Tree<K>, ds: seq<bool>, x: Node<K>, k: nat, j: nat)
    requires Linked(m, p, t) && Distinct(t) && Path(t, ds) && |Way(t, ds)| == |ds| && k <= j < |ds|
    requires Growing(m, m', t, ds, x, k, |ds|, j)
    ensures var w := Way(t, ds)[j];
            w in m' && w in Nodes(t) &&
            m'[w].P(ds[j]) == (if j == |ds| - 1 then x else Way(t, ds)[j + 1]) &&
            Growing(m, m'[w := Rec(m'[w].p0, m'[w].p1, m'[w].bal + Lean(ds[j]), m'[w].size)], t, ds, x, k, |ds|, j + 1)
  {
    hide Seq, Nodes, Linked, Sub, Way, Path;
    WayLinked(m, p, t, ds);
    var w := Way(t, ds);
    var n := w[j];
    var m2 := m'[n := Rec(m'[n].p0, m'[n].p1, m'[n].bal + Lean(ds[j]), m'[n].size)];
    forall a | 0 <= a < |w|
      ensures w[a] in m && w[a] in m2 && m2[w[a]] == Touched(m[w[a]], ds[a], a < |ds|, k <= a < j + 1, a == |w| - 1, x)
    {
      assert a == j || w[a] != n;
    }
  }

  lemma GrownParts<K>(m: Image<K>, m': Image<K>, t: Tree<K>, ds: seq<bool>, x: Node<K>, k: int)
    requires Path(t, ds) && ds != [] && Distinct(t) && |Way(t, ds)| == |ds| && GrownImage(m, m', t, ds, x, k)
    requires forall n :: n in Way(t.Kid(ds[0]), ds[1..]) ==> n in Nodes(t.Kid(ds[0]))
    ensures t.n in m && t.n in m' && m'[t.n] == Touched(m[t.n], ds[0], true, k <= 0, |ds| == 1, x)
    ensures forall n :: n in Nodes(t.Kid(!ds[0])) ==> n in m' && n in m && m'[n] == m[n]
    ensures GrownImage(m, m', t.Kid(ds[0]), ds[1..], x, k - 1)
  {
    DistinctParts(t);
    var w, v := Way(t, ds), Way(t.Kid(ds[0]), ds[1..]);
    assert w[0] == t.n;
    forall i | 0 <= i < |v|
      ensures v[i] in m && v[i] in m' && m'[v[i]] == Touched(m[v[i]], ds[1..][i], true, k - 1 <= i, i == |v| - 1, x)
    {
      assert v[i] == w[i + 1];
    }
    assert forall n :: n in w ==> n == t.n || n in v;
  }

  lemma GrownJoin<K>(m: Image<K>, p: Node<K>, t: Tree<K>, ds: seq<bool>, x: Node<K>, k: int)
    requires Path(t, ds) && ds != [] && t.n == p && p in m
    requires Linked(m, m[p].P(!ds[0]), t.Kid(!ds[0]))
    requires Linked(m, m[p].P(ds[0]), Grown(t.Kid(ds[0]), ds[1..], x, k - 1))
    requires m[p].bal == t.bal + (if k <= 0 then Lean(ds[0]) else 0) && m[p].size == t.size + 1
    ensures Linked(m, p, Grown(t, ds, x, k))
  {
  }

  lemma {:induction false} GrownLinked<K>(m: Image<K>, m': Image<K>, p: Node?<K>, t: Tree<K>, ds: seq<bool>,
                                          x: Node<K>, k: int)
    requires Linked(m, p, t) && Distinct(t) && Path(t, ds) && Sub(t, ds) == Leaf
    requires Linked(m', x, Fork(x, 0, 1, Leaf, Leaf))
    requires |Way(t, ds)| == |ds| && GrownImage(m, m', t, ds, x, k)
    ensures Linked(m', if ds == [] then x else p, Grown(t, ds, x, k))
  {
    if ds != [] {
      hide Seq, Nodes, Touched, Growing;
      var d, kid := ds[0], t.Kid(ds[0]);
      var v, o := m[p].P(d), m[p].P(!d);
      assert Distinct(kid) by {
        DistinctParts(t);
      }
      assert Linked(m, v, kid) && Linked(m, o, t.Kid(!d));
      assert |Way(kid, ds[1..])| == |ds[1..]| && GrownImage(m, m', kid, ds[1..], x, k - 1) &&
             Linked(m', o, t.Kid(!d)) && p in m' && m'[p] == Touched(m[p], d, true, k <= 0, |ds| == 1, x) by {
        WayLinked(m, v, kid, ds[1..]);
        GrownParts(m, m', t, ds, x, k);
        LinkedKept(m, m', o, t.Kid(!d));
      }
      if |ds| == 1 {
        assert ds[1..] == [];
        assert m'[p].P(d) == x;
      } else {
        assert m'[p].P(d) == v;
      }
      assert m'[p].P(!d) == o;
      GrownLinked(m, m', v, kid, ds[1..], x, k - 1);
      GrownJoin(m', p, t, ds, x, k);
    }
  }

  /** A run of zero balance fields on the way is a flat path. */
  lemma {:induction false} FlatFromWay<K>(m: Image<K>, p: Node?<K>, t: Tree<K>, ds: seq<bool>)
    requires Linked(m, p, t) && Path(t, ds)
    requires |Way(t, ds)| == |ds| && forall i :: 0 <= i < |ds| ==> Way(t, ds)[i] in m && m[Way(t, ds)[i]].bal == 0
    ensures Flat(t, ds)
  {
    if ds != [] {
      var w := Way(t, ds);
      assert forall i {:trigger w[1..][i]} :: 0 <= i < |w[1..]| ==> w[1..][i] == w[i + 1];
      assert w[0] == p;
      FlatFromWay(m, m[p].P(ds[0]), t.Kid(ds[0]), ds[1..]);
    }
  }

  /** What `kavl_insert` has recorded of the way `ds`: the nodes on it in `path`; at depth `k` the lowest
      unbalanced one, or the root, as `bp` with the parent `bq`; the directions from there on in `stack`. */
  ghost predicate Marked<K>(m: Image<K>, t: Tree<K>, ds: seq<bool>, k: nat, path: seq<Node?<K>>, stack: seq<bool>,
                            bp: Node?<K>, bq: Node?<K>, q: Node?<K>, which: bool) {
    Path(t, ds) && path == Way(t, ds) && |path| == |ds| && k <= |ds| && stack == ds[k..] &&
    (if ds == [] then q == null && bq == null
     else k < |ds| && q == path[|ds| - 1] && which == ds[|ds| - 1] && bp == path[k] && bq == if k == 0 then null else path[k - 1]) &&
    (forall i :: k < i < |ds| ==> Way(t, ds)[i] in m && m[Way(t, ds)[i]].bal == 0) &&
    (k > 0 ==> bp != null && bp in m && m[bp].bal != 0)
  }

  lemma MarkedStep<K>(m: Image<K>, t: Tree<K>, ds: seq<bool>, k: nat, path: seq<Node?<K>>, stack: seq<bool>,
                      bp: Node?<K>, bq: Node?<K>, q: Node?<K>, which: bool, d: bool)
    requires Marked(m, t, ds, k, path, stack, bp, bq, q, which)
    requires Sub(t, ds).Fork? && Path(t, ds + [d]) && Sub(t, ds).n in m && (ds == [] ==> bp == Sub(t, ds).n)
    ensures var n := Sub(t, ds).n;
            if m[n].bal != 0 then Marked(m, t, ds + [d], |ds|, path + [n], [d], n, q, n, d)
            else Marked(m, t, ds + [d], k, path + [n], stack + [d], bp, bq, n, d)
  {
    WaySnoc(t, ds, d);
  }

  lemma SearchStart<K>(cmp: (K, K) -> int, x: K, m: Image<K>, p: Node?<K>, t: Tree<K>)
    requires Linked(m, p, t)
    ensures At(cmp, x, t, []) && Path(t, []) && Linked(m, p, Sub(t, [])) && Before(t, []) == []
  {
  }

  lemma SearchStep<K>(cmp: (K, K) -> int, x: K, m: Image<K>, p: Node<K>, t: Tree<K>, ds: seq<bool>, d: bool)
    requires Separates(cmp, x, Seq(t)) && Ok(t) && At(cmp, x, t, ds) && Linked(m, p, Sub(t, ds))
    requires if d then cmp(x, p.key) > 0 else cmp(x, p.key) < 0
    ensures p in m && At(cmp, x, t, ds + [d]) && Path(t, ds + [d]) && Linked(m, m[p].P(d), Sub(t, ds + [d]))
    ensures Height(Sub(t, ds + [d])) < Height(Sub(t, ds))
    ensures |Before(t, ds + [d])| == |Before(t, ds)| + if d then Sub(t, ds).l.Size() + 1 else 0
  {
    Descend(cmp, x, t, ds, d);
  }

  lemma SearchEnd<K>(cmp: (K, K) -> int, x: K, m: Image<K>, t: Tree<K>, ds: seq<bool>)
    requires Ok(t) && At(cmp, x, t, ds) && Linked(m, null, Sub(t, ds))
    ensures Sub(t, ds) == Leaf
    ensures var c, s := |Before(t, ds)|, Seq(t);
            c <= |s| && AllAbove(cmp, x, s[..c]) && AllBelow(cmp, x, s[c..]) && forall n :: n in s ==> cmp(x, n.key) != 0
  {
    Arrived(cmp, x, t, ds);
    assert Seq(t) == Seq(t)[..|Before(t, ds)|] + Seq(t)[|Before(t, ds)|..];
  }

  /** `n` is the `cnt`-th node of `s`, counting from one. */
  ghost predicate NodeAt<K>(s: seq<Node<K>>, cnt: int, n: Node<K>) {
    0 < cnt <= |s| && s[cnt - 1] == n
  }

  lemma LocateFacts<K>(cmp: (K, K) -> int, x: K, m: Image<K>, p: Node<K>, t: Tree<K>, ds: seq<bool>)
    requires Ok(t) && Distinct(t) && Count(t) < SizeLimit && At(cmp, x, t, ds) && Linked(m, p, Sub(t, ds))
    requires Mirrors(m, Nodes(t))
    ensures |ds| < 45 < MaxDepth && p in m && m[p] == p.Fields() && Sub(t, ds).n == p
    ensures 0 <= Sub(t, ds).l.Size() == SizeOf(p.p0)
    ensures NodeAt(Seq(t), |Before(t, ds)| + Sub(t, ds).l.Size() + 1, p)
  {
    Arrived(cmp, x, t, ds);
    NodesSub(t, ds);
    LinkedParts(m, p, Sub(t, ds));
    PathLength(t, ds);
    HeightBound(t);
  }

  /** The state of the first loop of `kavl_insert`. */
  ghost predicate Locating<K>(cmp: (K, K) -> int, x: K, m: Image<K>, t: Tree<K>, ds: seq<bool>, k: nat, p: Node?<K>, cnt: int,
                              path: seq<Node?<K>>, stack: seq<bool>, bp: Node?<K>, bq: Node?<K>, q: Node?<K>, which: bool) {
    At(cmp, x, t, ds) && Linked(m, p, Sub(t, ds)) && cnt == |Before(t, ds)| && (ds == [] ==> bp == p) &&
    |stack| <= |path| == |ds| && Marked(m, t, ds, k, path, stack, bp, bq, q, which)
  }

  lemma LocateStart<K>(cmp: (K, K) -> int, x: K, m: Image<K>, p: Node?<K>, t: Tree<K>)
    requires Linked(m, p, t)
    ensures Locating(cmp, x, m, t, [], 0, p, 0, [], [], p, null, null, false)
  {
  }

  lemma LocateEnd<K>(cmp: (K, K) -> int, x: K, m: Image<K>, t: Tree<K>, ds: seq<bool>)
    requires At(cmp, x, t, ds) && Linked(m, null, Sub(t, ds))
    ensures Sub(t, ds) == Leaf
  {
  }

  lemma LocateStep<K>(cmp: (K, K) -> int, x: K, m: Image<K>, t: Tree<K>, ds: seq<bool>, k: nat, p: Node<K>, cnt: int,
                      path: seq<Node?<K>>, stack: seq<bool>, bp: Node?<K>, bq: Node?<K>, q: Node?<K>, which: bool, d: bool)
    requires Separates(cmp, x, Seq(t)) && Ok(t) && Locating(cmp, x, m, t, ds, k, p, cnt, path, stack, bp, bq, q, which)
    requires if d then cmp(x, p.key) > 0 else cmp(x, p.key) < 0
    ensures p in m && Path(t, ds + [d]) && Height(Sub(t, ds + [d])) < Height(Sub(t, ds))
    ensures var cnt' := cnt + if d then Sub(t, ds).l.Size() + 1 else 0;
            if m[p].bal != 0
            then Locating(cmp, x, m, t, ds + [d], |ds|, m[p].P(d), cnt', path + [p], [d], p, q, p, d)
            else Locating(cmp, x, m, t, ds + [d], k, m[p].P(d), cnt', path + [p], stack + [d], bp, bq, p, d)
  {
    Descend(cmp, x, t, ds, d);
    MarkedStep(m, t, ds, k, path, stack, bp, bq, q, which, d);
  }

  /** Append a node and the direction taken there to the parts of the two buffers in use. */
  method Record<K>(path: array<Node?<K>>, pathLen: nat, p: Node?<K>, stack: array<bool>, top: nat, d: bool)
    requires pathLen < path.Length && top < stack.Length
    modifies path, stack
    ensures path[..pathLen + 1] == old(path[..pathLen]) + [p]
    ensures stack[..top + 1] == old(stack[..top]) + [d]
  {
    stack[top] := d;
    path[pathLen] := p;
  }

  /** The size loop of `kavl_insert`. */
  method CountWay<K>(path: array<Node?<K>>, pathLen: nat, ghost m: Image<K>, ghost m0: Image<K>, ghost t: Tree<K>,
                     ghost ds: seq<bool>, ghost x: Node<K>, ghost k: nat)
    returns (ghost m': Image<K>)
    requires Path(t, ds) && pathLen == |ds| <= path.Length && path[..pathLen] == Way(t, ds) && NoDup(Way(t, ds))
    requires forall n :: n in Way(t, ds) ==> n in Nodes(t)
    requires x !in Nodes(t) && Mirrors(m0, Nodes(t) + {x}) && Growing(m, m0, t, ds, x, k, 0, k)
    modifies Nodes(t)
    ensures Mirrors(m', Nodes(t) + {x}) && m'[x] == m0[x] && Growing(m, m', t, ds, x, k, |ds|, k)
  {
    hide Way, Path, Nodes, Growing;
    ghost var w := Way(t, ds);
    m' := m0;
    for i := 0 to pathLen
      invariant path[..pathLen] == w
      invariant Mirrors(m', Nodes(t) + {x}) && m'[x] == m0[x] && Growing(m, m', t, ds, x, k, i, k)
    {
      assert path[..pathLen][i] == w[i] && w[i] in w;
      GrowingCount(m, m', t, ds, x, k, i);
      path[i].size := path[i].size + 1;
      m' := m'[path[i] := path[i].Fields()];
    }
  }

  /** The balance loop of `kavl_insert`. */
  method TiltWay<K>(bp: Node<K>, x: Node<K>, stack: array<bool>, ghost m: Image<K>, ghost m0: Image<K>, ghost r: Node?<K>,
                    ghost t: Tree<K>, ghost ds: seq<bool>, ghost k: nat)
    returns (ghost m': Image<K>)
    requires Linked(m, r, t) && Distinct(t) && Path(t, ds) && |Way(t, ds)| == |ds| && k < |ds|
    requires bp == Way(t, ds)[k] && |ds| - k <= stack.Length && stack[..|ds| - k] == ds[k..]
    requires x !in Nodes(t) && Mirrors(m0, Nodes(t) + {x}) && Growing(m, m0, t, ds, x, k, |ds|, k)
    modifies Nodes(t)
    ensures Mirrors(m', Nodes(t) + {x}) && m'[x] == m0[x] && GrownImage(m, m', t, ds, x, k)
  {
    hide Way, Path, Nodes, Growing, Linked;
    ghost var w := Way(t, ds);
    m' := m0;
    var p, top := bp, 0;
    while p != x
      invariant top <= |ds| - k && p == if k + top == |ds| then x else w[k + top]
      invariant stack[..|ds| - k] == ds[k..]
      invariant Mirrors(m', Nodes(t) + {x}) && m'[x] == m0[x] && Growing(m, m', t, ds, x, k, |ds|, k + top)
      decreases |ds| - top
    {
      assert stack[..|ds| - k][top] == ds[k + top];
      GrowingTilt(m, m', r, t, ds, x, k, k + top);
      if stack[top] {
        p.balance := p.balance + 1;
      } else {
        p.balance := p.balance - 1;
      }
      m' := m'[p := p.Fields()];
      p := p.P(stack[top]);
      top := top + 1;
    }
    assert k + top == |ds| by {
      if k + top < |ds| {
        GrowingTilt(m, m', r, t, ds, x, k, k + top);
      }
    }
  }

  /** Setting the two balances after a single rotation gives `Single`. */
  lemma SingleLinked<K>(m: Image<K>, m': Image<K>, p: Node<K>, q: Node<K>, t: Tree<K>, dir: bool)
    requires t.Fork? && t.Kid(!dir).Fork? && Distinct(t) && p == t.n && q == t.Kid(!dir).n && p in m && q in m
    requires Linked(m, q, Rot1(t, dir))
    requires var b := if t.Kid(!dir).bal != 0 then 0 else if dir then -1 else 1;
             m' == m[p := Rec(m[p].p0, m[p].p1, b, m[p].size)][q := Rec(m[q].p0, m[q].p1, -b, m[q].size)]
    ensures Linked(m', q, Single(t, dir))
  {
    var u, s := Rot1(t, dir), Single(t, dir);
    Rot1Seq(t, dir);
    assert p != q && {p, q} !! Nodes(u.Kid(!dir)) && {p, q} !! Nodes(u.Kid(dir).Kid(dir)) &&
           {p, q} !! Nodes(u.Kid(dir).Kid(!dir)) by {
      DistinctParts(u);
      DistinctParts(u.Kid(dir));
    }
    assert Linked(m, m[q].P(dir), u.Kid(dir)) && m[q].P(dir) == p;
    LinkedExcept(m, m', {p, q}, m[q].P(!dir), u.Kid(!dir));
    LinkedExcept(m, m', {p, q}, m[p].P(dir), u.Kid(dir).Kid(dir));
    LinkedExcept(m, m', {p, q}, m[p].P(!dir), u.Kid(dir).Kid(!dir));
    assert Linked(m', p, s.Kid(dir));
  }

  /** The parent of a subtree lies outside it and leads to it on one side only. */
  lemma {:induction false} ParentLink<K>(m: Image<K>, p: Node?<K>, t: Tree<K>, ds: seq<bool>)
    requires Linked(m, p, t) && Distinct(t) && Path(t, ds) && ds != [] && |Way(t, ds)| == |ds| && Sub(t, ds).Fork?
    ensures var q, s, d := Way(t, ds)[|ds| - 1], Sub(t, ds), ds[|ds| - 1];
            q in Nodes(t) && q in m && q !in Nodes(s) && m[q].P(d) == s.n && m[q].P(!d) != s.n
  {
    hide Linked, Distinct, Seq, NoDup;
    LinkedParts(m, p, t);
    var d, kid := ds[0], t.Kid(ds[0]);
    assert Way(t, ds) == [t.n] + Way(kid, ds[1..]);
    if |ds| == 1 {
      assert ds[1..] == [];
    } else {
      ParentLink(m, m[p].P(d), kid, ds[1..]);
    }
  }

  lemma SubLinked<K>(m: Image<K>, p: Node?<K>, t: Tree<K>, ds: seq<bool>)
    requires Linked(m, p, t) && Distinct(t) && Path(t, ds) && Sub(t, ds).Fork?
    ensures Linked(m, Sub(t, ds).n, Sub(t, ds)) && Distinct(Sub(t, ds)) && Nodes(Sub(t, ds)) <= Nodes(t)
    ensures Sub(t, ds).n in Nodes(t) && Sub(t, ds).n in m && m[Sub(t, ds).n].bal == Sub(t, ds).bal
  {
    WayLinked(m, p, t, ds);
    NodesSub(t, ds);
  }

  lemma ReplaceRoot<K>(t: Tree<K>, s: Tree<K>)
    ensures Path(t, []) && Replace(t, [], s) == s
  {
  }

  /** After a subtree has been rearranged and its parent pointed to its new root, the whole tree is linked. */
  ghost method RelinkParent<K>(m: Image<K>, m1: Image<K>, g: Tree<K>, ds: seq<bool>, root: Node?<K>, bq: Node<K>,
                               r: Node?<K>, s': Tree<K>)
    returns (m': Image<K>)
    requires Linked(m, root, g) && Distinct(g) && Path(g, ds) && ds != [] && |Way(g, ds)| == |ds|
    requires bq == Way(g, ds)[|ds| - 1] && bq in m && bq in Nodes(g) && bq !in Nodes(Sub(g, ds)) && bq !in Nodes(s')
    requires Mirrors(m1, Nodes(g) - {bq}) && Linked(m1, r, s')
    requires bq.Fields() == m[bq].SetP(ds[|ds| - 1], r)
    requires forall n :: n in m && n !in Nodes(Sub(g, ds)) && n != bq ==> n in m1 && m1[n] == m[n]
    ensures Mirrors(m', Nodes(g)) && Linked(m', root, Replace(g, ds, s')) && m' == m1[bq := bq.Fields()]
  {
    m' := m1[bq := bq.Fields()];
    LinkedMember(m, root, g);
    LinkedMember(m1, r, s');
    LinkedKept(m1, m', r, s');
    LinkedReplace(m, m', root, g, ds, r, s');
  }

  /** The rotation `kavl_insert` does at a node whose balance has left -1..1. */
  method RotateHeavy<K>(bp: Node<K>, ghost s: Tree<K>, ghost m: Image<K>) returns (r: Node<K>, ghost m': Image<K>)
    requires Mirrors(m, Nodes(s)) && Linked(m, bp, s) && Distinct(s) && s.Fork? && CanRebalance(s) && !(-2 < s.bal < 2)
    modifies Nodes(s)
    ensures Mirrors(m', Nodes(s)) && Linked(m', r, Rebalanced(s)) && Nodes(Rebalanced(s)) == Nodes(s)
    ensures forall n :: n in m && n !in Nodes(s) ==> n in m' && m'[n] == m[n]
  {
    hide Linked, Nodes, Seq;
    RebalancedSeq(s);
    BalanceField(m, bp, s);
    var which := bp.balance < 0;
    var b1 := if which then -1 else 1;
    RotParts(m, bp, s, which, which);
    var q := bp.P(!which);
    BalanceField(m, q, s.Kid(!which));
    if q.balance == b1 {
      ghost var m1;
      r, m1 := Rotate1(bp, which, s, m);
      q.balance, bp.balance := 0, 0;
      m' := m1[bp := bp.Fields()][q := q.Fields()];
      SingleLinked(m1, m', bp, q, s, which);
    } else {
      Rot2Parts(m, bp, s, which);
      r, m' := Rotate2(bp, which, s, m);
    }
  }

  lemma BalanceField<K>(m: Image<K>, p: Node<K>, t: Tree<K>)
    requires Linked(m, p, t)
    ensures t.Fork? && p == t.n && p in Nodes(t) && p in m && m[p].bal == t.bal
  {
  }

  /** `s'` is `s` with `x` put in after its first `cnt` nodes, which are smaller, and before the others, which
      are greater. */
  ghost predicate Inserted<K>(cmp: (K, K) -> int, x: Node<K>, s: seq<Node<K>>, cnt: nat, s': seq<Node<K>>) {
    cnt <= |s| && s' == s[..cnt] + [x] + s[cnt..] && AllAbove(cmp, x.key, s[..cnt]) && AllBelow(cmp, x.key, s[cnt..])
  }

  lemma SeqMember<K>(t: Tree<K>, cnt: int, n: Node<K>)
    requires NodeAt(Seq(t), cnt, n)
    ensures n in Nodes(t)
  {
  }

  /** Where the new node goes, and that growing the tree there inserts it in order. */
  lemma InsertPlace<K>(cmp: (K, K) -> int, x: Node<K>, m: Image<K>, p: Node?<K>, t: Tree<K>, ds: seq<bool>)
    requires Ok(t) && Distinct(t) && Linked(m, p, t) && x !in Nodes(t) && At(cmp, x.key, t, ds) && Sub(t, ds) == Leaf
    ensures forall k :: Inserted(cmp, x, Seq(t), |Before(t, ds)|, Seq(Grown(t, ds, x, k)))
    ensures forall k :: Distinct(Grown(t, ds, x, k)) && Nodes(Grown(t, ds, x, k)) == Nodes(t) + {x}
  {
    Arrived(cmp, x.key, t, ds);
    var a, b := Before(t, ds), After(t, ds);
    assert Seq(t) == a + b by {
      SeqSplit(t, ds);
      assert Seq(t) == a + [] + b;
    }
    forall k
      ensures Seq(Grown(t, ds, x, k)) == a + [x] + b
      ensures Inserted(cmp, x, Seq(t), |a|, Seq(Grown(t, ds, x, k)))
      ensures Distinct(Grown(t, ds, x, k)) && Nodes(Grown(t, ds, x, k)) == Nodes(t) + {x}
    {
      GrownSeq(t, ds, x, k);
      NoDupInsert(a, x, b);
    }
  }

  /** What `Locate` has recorded when it reaches the place of a new node. */
  lemma LinkFacts<K>(m: Image<K>, p: Node?<K>, t: Tree<K>, ds: seq<bool>, k: nat, path: seq<Node?<K>>, stack: seq<bool>,
                     bp: Node?<K>, bq: Node?<K>, q: Node?<K>, which: bool)
    requires Linked(m, p, t) && Distinct(t) && Ok(t) && Marked(m, t, ds, k, path, stack, bp, bq, q, which)
    requires Sub(t, ds) == Leaf && (ds == [] ==> bp == null)
    ensures |Way(t, ds)| == |ds| == |path| && path == Way(t, ds) && NoDup(Way(t, ds)) && stack == ds[k..]
    ensures forall n :: n in Way(t, ds) ==> n in Nodes(t)
    ensures if ds == [] then t == Leaf && q == null && bp == null && bq == null
            else k < |ds| && q == path[|ds| - 1] && q in m && which == ds[|ds| - 1] && bp == path[k] &&
                 bq == if k == 0 then null else path[k - 1]
    ensures ds != [] ==> Path(t, ds[..k + 1]) && Path(Sub(t, ds[..k + 1]), ds[k + 1..]) && Flat(Sub(t, ds[..k + 1]), ds[k + 1..])
    ensures k > 0 ==> Path(t, ds[..k]) && Sub(t, ds[..k]).Fork? && Sub(t, ds[..k]).bal != 0
  {
    hide Linked, Nodes, Seq, Ok, Flat;
    WayLinked(m, p, t, ds);
    if ds != [] {
      LinkFlat(m, p, t, ds, k);
      LinkTop(m, p, t, ds, k);
    }
  }

  /** Behind the last node of the way that is out of balance there is none. */
  lemma LinkFlat<K>(m: Image<K>, p: Node?<K>, t: Tree<K>, ds: seq<bool>, k: nat)
    requires Linked(m, p, t) && Distinct(t) && Path(t, ds) && Sub(t, ds) == Leaf && k < |ds| == |Way(t, ds)|
    requires forall i :: k < i < |ds| ==> Way(t, ds)[i] in m && m[Way(t, ds)[i]].bal == 0
    ensures Path(t, ds[..k + 1]) && Path(Sub(t, ds[..k + 1]), ds[k + 1..]) && Flat(Sub(t, ds[..k + 1]), ds[k + 1..])
  {
    hide Nodes, Seq, Flat;
    PathPrefix(t, ds, k + 1);
    WaySuffix(t, ds, k + 1);
    var s, rest := Sub(t, ds[..k + 1]), ds[k + 1..];
    if rest != [] {
      SubLinked(m, p, t, ds[..k + 1]);
      assert forall i {:trigger Way(s, rest)[i]} :: 0 <= i < |rest| ==> Way(s, rest)[i] == Way(t, ds)[k + 1 + i];
      FlatFromWay(m, s.n, s, rest);
    } else {
      FlatNothing(s);
    }
  }

  lemma FlatNothing<K>(s: Tree<K>)
    ensures Flat(s, [])
  {
  }

  lemma LinkTop<K>(m: Image<K>, p: Node?<K>, t: Tree<K>, ds: seq<bool>, k: nat)
    requires Linked(m, p, t) && Distinct(t) && Path(t, ds) && k < |ds| == |Way(t, ds)|
    requires k > 0 ==> Way(t, ds)[k] in m && m[Way(t, ds)[k]].bal != 0
    ensures k > 0 ==> Path(t, ds[..k]) && Sub(t, ds[..k]).Fork? && Sub(t, ds[..k]).bal != 0
  {
    hide Nodes, Seq;
    PathPrefix(t, ds, k);
    WaySuffix(t, ds, k);
    SubLinked(m, p, t, ds[..k]);
  }

  lemma LinkedLast<K>(m: Image<K>, m': Image<K>, p: Node?<K>, t: Tree<K>, ds: seq<bool>, x: Node<K>, q: Node<K>, k: nat)
    requires Linked(m, p, t) && Distinct(t) && Path(t, ds) && |Way(t, ds)| == |ds| > 0 && x !in Nodes(t)
    requires q == Way(t, ds)[|ds| - 1] && q in m
    requires forall n :: n in m ==> n in m'
    requires forall n :: n in m && n != x && n != q ==> m'[n] == m[n]
    requires m'[q] == m[q].SetP(ds[|ds| - 1], x)
    ensures Growing(m, m', t, ds, x, k, 0, k)
  {
    WayLinked(m, p, t, ds);
    LinkedMember(m, p, t);
  }

  lemma LinkedNew<K>(m: Image<K>, x: Node<K>)
    requires x in m && m[x] == Rec(null, null, 0, 1)
    ensures var t := Grown(Leaf, [], x, 0);
            t == Fork(x, 0, 1, Leaf, Leaf) && Linked(m, x, t) && Ok(t) && Count(t) == 1 && Distinct(t) && Nodes(t) == {x}
  {
    assert Seq(Grown(Leaf, [], x, 0)) == [x];
    assert OkRoot(Grown(Leaf, [], x, 0));
  }

  lemma NoDupInsert<T>(a: seq<T>, x: T, b: seq<T>)
    requires NoDup(a + b) && x !in a + b
    ensures NoDup(a + [x] + b)
  {
    var s, u := a + b, a + [x] + b;
    forall i, j | 0 <= i < j < |u|
      ensures u[i] != u[j]
    {
      var i', j' := if i < |a| then i else i - 1, if j < |a| then j else j - 1;
      assert i != |a| ==> u[i] == s[i'];
      assert j != |a| ==> u[j] == s[j'];
    }
  }
}
