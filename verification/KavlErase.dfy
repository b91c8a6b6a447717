/** Removal from the in-place AVL tree of `nfq2/kavl.h`: what `kavl_erase` does to the nodes, step by step. */
module KavlErase {
  import opened AvlTree
  import opened AvlSteps
  import opened KavlNodes

  /** The tree under the stack-allocated node that `kavl_erase` puts above the root. */
  ghost function Fake<K>(f: Node<K>, t: Tree<K>): Tree<K> {
    Fork(f, 0, 1, t, Leaf)
  }

  // ----- Taking one off every size on the way -----

  ghost function Dropped<K>(r: Rec<K>, d: bool, counted: bool, last: bool, v: Node?<K>): Rec<K> {
    var a := if last then r.SetP(d, v) else r;
    Rec(a.p0, a.p1, r.bal, r.size - if counted then 1 else 0)
  }

  /** The first `i` nodes of the way have lost one in size, the last one now leads to `v` if `linked`, and
      nothing else outside the subtree at `ds` has changed. */
  ghost predicate Dropping<K>(m: Image<K>, m': Image<K>, t: Tree<K>, ds: seq<bool>, i: int, linked: bool, v: Node?<K>)
    requires Path(t, ds) && |Way(t, ds)| == |ds|
  {
    var w := Way(t, ds);
    (forall a :: 0 <= a < |w| ==>
      w[a] in m && w[a] in m' && m'[w[a]] == Dropped(m[w[a]], ds[a], a < i, linked && a == |w| - 1, v)) &&
    (forall n :: n in Nodes(t) && n !in Nodes(Sub(t, ds)) && n !in w ==> n in m' && n in m && m'[n] == m[n])
  }

  /** The first step of a way. */
  lemma WayParts<K>(t: Tree<K>, ds: seq<bool>)
    requires Path(t, ds) && ds != [] && Distinct(t) && |Way(t, ds)| == |ds|
    ensures var kid := t.Kid(ds[0]);
            t.Fork? && Path(kid, ds[1..]) && Way(t, ds) == [t.n] + Way(kid, ds[1..]) && Sub(t, ds) == Sub(kid, ds[1..]) &&
            Nodes(t) == Nodes(kid) + {t.n} + Nodes(t.Kid(!ds[0])) && Nodes(kid) !! Nodes(t.Kid(!ds[0])) &&
            t.n !in Nodes(kid) && t.n !in Nodes(t.Kid(!ds[0])) && Nodes(Sub(t, ds)) <= Nodes(kid)
  {
    SubStep(t, ds);
    DistinctParts(t);
    NodesSub(t.Kid(ds[0]), ds[1..]);
  }

  lemma DroppingParts<K>(m: Image<K>, m': Image<K>, t: Tree<K>, ds: seq<bool>, v: Node?<K>)
    requires Path(t, ds) && ds != [] && Distinct(t) && |Way(t, ds)| == |ds| && Dropping(m, m', t, ds, |ds|, true, v)
    requires forall n :: n in Way(t.Kid(ds[0]), ds[1..]) ==> n in Nodes(t.Kid(ds[0]))
    ensures t.n in m && t.n in m' && m'[t.n] == Dropped(m[t.n], ds[0], true, |ds| == 1, v)
    ensures forall n :: n in Nodes(t.Kid(!ds[0])) ==> n in m' && n in m && m'[n] == m[n]
    ensures Dropping(m, m', t.Kid(ds[0]), ds[1..], |ds| - 1, true, v)
  {
    hide Nodes, Seq, Sub, Path, NoDup, Way, Dropped, Distinct;
    WayParts(t, ds);
    var w, u, kid := Way(t, ds), Way(t.Kid(ds[0]), ds[1..]), t.Kid(ds[0]);
    forall i | 0 <= i < |u|
      ensures u[i] in m && u[i] in m' && m'[u[i]] == Dropped(m[u[i]], ds[1..][i], i < |ds| - 1, i == |u| - 1, v)
    {
      assert u[i] == w[i + 1];
    }
    forall n | n in Nodes(t) && n !in Nodes(Sub(t, ds)) && n != t.n && n !in u
      ensures n in m' && n in m && m'[n] == m[n]
    {
      assert n !in w;
    }
    assert w[0] == t.n && forall n :: n in Nodes(t.Kid(!ds[0])) ==> n !in Nodes(Sub(t, ds)) && n !in u;
  }

  lemma SubStep<K>(t: Tree<K>, ds: seq<bool>)
    requires Path(t, ds) && ds != []
    ensures Sub(t, ds) == Sub(t.Kid(ds[0]), ds[1..])
  {
  }

  lemma LoweredJoin<K>(m: Image<K>, p: Node<K>, t: Tree<K>, ds: seq<bool>, s: Tree<K>)
    requires Path(t, ds) && ds != [] && t.n == p && p in m
    requires Linked(m, m[p].P(!ds[0]), t.Kid(!ds[0]))
    requires Linked(m, m[p].P(ds[0]), Lowered(t.Kid(ds[0]), ds[1..], s))
    requires m[p].bal == t.bal && m[p].size == t.size - 1
    ensures Linked(m, p, Lowered(t, ds, s))
  {
  }

  lemma {:induction false} LoweredLinked<K>(m: Image<K>, m': Image<K>, p: Node?<K>, t: Tree<K>, ds: seq<bool>,
                                            v: Node?<K>, s: Tree<K>)
    requires Linked(m, p, t) && Distinct(t) && Path(t, ds) && Linked(m', v, s)
    requires |Way(t, ds)| == |ds| && Dropping(m, m', t, ds, |ds|, true, v)
    ensures Linked(m', if ds == [] then v else p, Lowered(t, ds, s))
  {
    if ds != [] {
      hide Seq, Nodes, Dropping;
      var d, kid := ds[0], t.Kid(ds[0]);
      var u, o := m[p].P(d), m[p].P(!d);
      assert Distinct(kid) by {
        DistinctParts(t);
      }
      assert Linked(m, u, kid) && Linked(m, o, t.Kid(!d));
      assert |Way(kid, ds[1..])| == |ds[1..]| && Dropping(m, m', kid, ds[1..], |ds| - 1, true, v) &&
             Linked(m', o, t.Kid(!d)) && p in m' && m'[p] == Dropped(m[p], d, true, |ds| == 1, v) by {
        WayLinked(m, u, kid, ds[1..]);
        DroppingParts(m, m', t, ds, v);
        LinkedKept(m, m', o, t.Kid(!d));
      }
      if |ds| == 1 {
        assert ds[1..] == [];
        assert m'[p].P(d) == v;
      } else {
        assert m'[p].P(d) == u;
      }
      assert m'[p].P(!d) == o;
      LoweredLinked(m, m', u, kid, ds[1..], v, s);
      LoweredJoin(m', p, t, ds, s);
    }
  }

  // ----- Walking back up -----

  lemma Rebalance1<K>(m: Image<K>, m': Image<K>, q: Node<K>, s: Tree<K>, b: int)
    requires Linked(m, q, s) && Distinct(s) && s.Fork? && q in m
    requires m' == m[q := Rec(m[q].p0, m[q].p1, b, m[q].size)]
    ensures var s' := Fork(s.n, b, s.size, s.l, s.r);
            Linked(m', q, s') && Seq(s') == Seq(s) && Distinct(s') && Nodes(s') == Nodes(s)
  {
    LinkedParts(m, q, s);
    LinkedExcept(m, m', {q}, m[q].p0, s.l);
    LinkedExcept(m, m', {q}, m[q].p1, s.r);
  }

  lemma SameNodes<K>(t: Tree<K>, u: Tree<K>)
    requires Seq(t) == Seq(u)
    ensures Nodes(t) == Nodes(u) && (Distinct(t) <==> Distinct(u))
  {
  }

  /** The rotations of the loop of `kavl_erase` that walks back up. */
  method SettleHeavy<K>(q: Node<K>, which: bool, ghost s: Tree<K>, ghost m: Image<K>)
    returns (r: Node<K>, stop: bool, ghost m': Image<K>)
    requires Mirrors(m, Nodes(s)) && Linked(m, q, s) && Distinct(s) && s.Fork? && s.Kid(!which).Fork?
    requires s.Kid(!which).bal == Lean(which) ==> s.Kid(!which).Kid(which).Fork?
    modifies Nodes(s)
    ensures Linked(m', r, if s.Kid(!which).bal == Lean(which) then Rot2(s, which) else Single(s, which))
    ensures stop == (s.Kid(!which).bal == 0) && Mirrors(m', Nodes(s))
    ensures forall n :: n in m && n !in Nodes(s) ==> n in m' && m'[n] == m[n]
  {
    hide Linked, Nodes, Seq, Single, Rot2;
    var b1 := if which then -1 else 1;
    BalanceField(m, q, s);
    RotParts(m, q, s, which, which);
    var o := q.P(!which);
    BalanceField(m, o, s.Kid(!which));
    stop := false;
    if o.balance == -b1 {
      Rot2Parts(m, q, s, which);
      r, m' := Rotate2(q, which, s, m);
    } else {
      ghost var m1;
      r, m1 := Rotate1(q, which, s, m);
      BalanceField(m1, o, Rot1(s, which));
      if o.balance == 0 {
        o.balance, q.balance := -b1, b1;
        stop := true;
      } else {
        o.balance, q.balance := 0, 0;
      }
      m' := m1[q := q.Fields()][o := o.Fields()];
      SingleLinked(m1, m', q, o, s, which);
    }
  }

  /** One round of the loop of `kavl_erase` that walks back up, at node `q`. */
  method SettleNode<K>(q: Node<K>, which: bool, ghost s: Tree<K>, ghost m: Image<K>)
    returns (r: Node<K>, stop: bool, ghost m': Image<K>)
    requires Mirrors(m, Nodes(s)) && Linked(m, q, s) && Distinct(s) && s.Fork? && Stale(s, [which])
    modifies Nodes(s)
    ensures CanSettle(s, which)
    ensures var s' := Settled(s, which);
            Linked(m', r, s') && Nodes(s') == Nodes(s) && Seq(s') == Seq(s) && Ok(s') && Count(s') == Count(s) &&
            StaleHeight(s, [which]) == Height(s') + if stop then 0 else 1
    ensures Mirrors(m', Nodes(s))
    ensures forall n :: n in m && n !in Nodes(s) ==> n in m' && m'[n] == m[n]
  {
    hide Linked, Nodes, Seq, Stale, StaleHeight, Ok, Count, Height;
    SettledOk(s, which);
    SameNodes(Settled(s, which), s);
    BalanceField(m, q, s);
    var b1, b2 := if which then -1 else 1, if which then -2 else 2;
    q.balance := q.balance + b1;
    ghost var m1: Image<K> := m[q := q.Fields()];
    Rebalance1(m, m1, q, s, s.bal + b1);
    ghost var s1 := Fork(s.n, s.bal + b1, s.size, s.l, s.r);
    r, stop, m' := q, false, m1;
    if q.balance == b1 {
      stop := true;
    } else if q.balance == b2 {
      SameNodes(s1, s);
      r, stop, m' := SettleHeavy(q, which, s1, m1);
    }
  }

  lemma {:induction false} WayReplace<K>(t: Tree<K>, ds: seq<bool>, s: Tree<K>)
    requires Path(t, ds)
    ensures Path(Replace(t, ds, s), ds) && Way(Replace(t, ds, s), ds) == Way(t, ds)
  {
    if ds != [] {
      WayReplace(t.Kid(ds[0]), ds[1..], s);
    }
  }

  lemma FakePath<K>(f: Node<K>, t: Tree<K>, ds: seq<bool>)
    requires Path(t, ds)
    ensures Path(Fake(f, t), [false] + ds) && Sub(Fake(f, t), [false] + ds) == Sub(t, ds)
    ensures Way(Fake(f, t), [false] + ds) == [f] + Way(t, ds)
    ensures forall s :: Replace(Fake(f, t), [false] + ds, s) == Fake(f, Replace(t, ds, s))
    ensures Seq(Fake(f, t)) == Seq(t) + [f]
  {
    assert ([false] + ds)[1..] == ds;
  }

  /** What the loop that walks back up knows when it comes to depth `d`: the tree is valid but for the stale
      balances on the way to that depth. */
  ghost predicate Climbing<K>(f: Node<K>, m: Image<K>, t: Tree<K>, s: seq<Node<K>>, es: seq<bool>, path: seq<Node?<K>>) {
    Linked(m, f, Fake(f, t)) && Distinct(Fake(f, t)) && Seq(t) == s && Path(t, es) && Stale(t, es) &&
    |path| == |es| + 1 && path == [f] + Way(t, es)
  }

  lemma ClimbStep<K>(f: Node<K>, m: Image<K>, t: Tree<K>, s: seq<Node<K>>, pre: seq<bool>, d: bool, path: seq<Node?<K>>)
    requires Climbing(f, m, t, s, pre + [d], path)
    ensures Path(t, pre) && Sub(t, pre).Fork? && |path| == |pre| + 2 && path[|pre| + 1] == Sub(t, pre).n
    ensures var u, q, g := Sub(t, pre), path[|pre|], Fake(f, t);
            Linked(m, u.n, u) && Distinct(u) && Stale(u, [d]) && Nodes(u) <= Nodes(g) &&
            CanSettle(u, d) && Nodes(Settled(u, d)) == Nodes(u) &&
            q != null && q in Nodes(g) && q in m && q !in Nodes(u) && m[q].P(([false] + pre)[|pre|]) == u.n &&
            Linked(m, f, g) && Distinct(g) && Path(g, [false] + pre) && Sub(g, [false] + pre) == u &&
            |Way(g, [false] + pre)| == |pre| + 1 && Way(g, [false] + pre)[|pre|] == q
  {
    StaleSub(t, pre, d);
    WaySnoc(t, pre, d);
    FakePath(f, t, pre);
    SubLinked(m, f, Fake(f, t), [false] + pre);
    WayLinked(m, f, Fake(f, t), [false] + pre);
    ParentLink(m, f, Fake(f, t), [false] + pre);
    SettledOk(Sub(t, pre), d);
    SameNodes(Settled(Sub(t, pre), d), Sub(t, pre));
  }

  /** Replacing the stale subtree at the end of the way by its settled form, one level up. */
  lemma ClimbDone<K>(f: Node<K>, m: Image<K>, t: Tree<K>, s: seq<Node<K>>, pre: seq<bool>, d: bool, path: seq<Node?<K>>,
                     m': Image<K>, u': Tree<K>, stop: bool)
    requires Climbing(f, m, t, s, pre + [d], path)
    requires Path(t, pre) && Sub(t, pre).Fork? && CanSettle(Sub(t, pre), d) && Stale(Sub(t, pre), [d]) && u' == Settled(Sub(t, pre), d)
    requires Ok(u') && Count(u') == Count(Sub(t, pre)) && Seq(u') == Seq(Sub(t, pre))
    requires StaleHeight(Sub(t, pre), [d]) == Height(u') + if stop then 0 else 1
    requires Path(Fake(f, t), [false] + pre) && Linked(m', f, Replace(Fake(f, t), [false] + pre, u'))
    ensures var t' := Replace(t, pre, u');
            Linked(m', f, Fake(f, t')) && Distinct(Fake(f, t')) && Seq(t') == s && Count(t') == Count(t) &&
            Nodes(Fake(f, t')) == Nodes(Fake(f, t)) &&
            if stop then Ok(t') else Climbing(f, m', t', s, pre, path[..|path| - 1])
  {
    ClimbStep(f, m, t, s, pre, d, path);
    WaySnoc(t, pre, d);
    FakePath(f, t, pre);
    assert Path(Sub(t, pre), [d]);
    StaleReplace(t, pre, d, u');
    WayReplace(t, pre, u');
    SeqReplace(t, pre, u');
    SeqSplit(t, pre);
    FakePath(f, Replace(t, pre, u'), pre);
    SameNodes(Fake(f, Replace(t, pre, u')), Fake(f, t));
  }

  /** One round of the loop that walks back up. */
  method ClimbOnce<K>(f: Node<K>, q: Node<K>, which: bool, parent: Node<K>, side: bool, ghost m: Image<K>, ghost t: Tree<K>,
                      ghost s: seq<Node<K>>, ghost pre: seq<bool>, ghost gp: seq<Node?<K>>)
    returns (stop: bool, ghost t': Tree<K>, ghost m': Image<K>)
    requires Climbing(f, m, t, s, pre + [which], gp) && Mirrors(m, Nodes(Fake(f, t)))
    requires |gp| == |pre| + 2 && q == gp[|pre| + 1] && parent == gp[|pre|] && side == ([false] + pre)[|pre|]
    modifies Nodes(Fake(f, t))
    ensures Nodes(Fake(f, t')) == Nodes(Fake(f, t)) && Count(t') == Count(t) && Mirrors(m', Nodes(Fake(f, t)))
    ensures if stop then Ok(t') && Seq(t') == s && Linked(m', f, Fake(f, t')) && Distinct(Fake(f, t'))
            else Climbing(f, m', t', s, pre, gp[..|pre| + 1])
  {
    hide Linked, Nodes, Seq, Stale, StaleHeight, Ok, Count, Height, Sub, Path, Way, Replace, Settled, CanSettle, Distinct, Climbing, Fake;
    ClimbStep(f, m, t, s, pre, which, gp);
    ghost var u := Sub(t, pre);
    ghost var u' := Settled(u, which);
    var r;
    ghost var m1;
    r, stop, m1 := SettleNode(q, which, u, m);
    if r != q {
      parent.SetP(side, r);
    }
    m' := RelinkParent(m, m1, Fake(f, t), [false] + pre, f, parent, r, u');
    ClimbDone(f, m, t, s, pre, which, gp, m', u', stop);
    t' := Replace(t, pre, u');
  }

  /** The loop of `kavl_erase` that walks back up and repairs the balances. */
  method Climb<K>(f: Node<K>, path: array<Node?<K>>, dir: array<bool>, d0: nat,
                  ghost m0: Image<K>, ghost t0: Tree<K>, ghost s: seq<Node<K>>, ghost es0: seq<bool>)
    returns (ghost t': Tree<K>, ghost m': Image<K>)
    requires d0 == |es0| + 1 <= path.Length && d0 <= dir.Length && dir[..d0] == [false] + es0
    requires Climbing(f, m0, t0, s, es0, path[..d0]) && Mirrors(m0, Nodes(Fake(f, t0)))
    modifies Nodes(Fake(f, t0))
    ensures Ok(t') && Seq(t') == s && Count(t') == Count(t0)
    ensures Nodes(Fake(f, t')) == Nodes(Fake(f, t0)) && Distinct(Fake(f, t'))
    ensures Linked(m', f, Fake(f, t')) && Mirrors(m', Nodes(Fake(f, t')))
  {
    hide Linked, Nodes, Seq, Ok, Count, Path, Way, Distinct, Climbing, Fake;
    ghost var es, gp, all := es0, path[..d0], Nodes(Fake(f, t0));
    t', m' := t0, m0;
    var d := d0 - 1;
    while d > 0
      invariant 0 <= d < d0 && |es| == d && es == es0[..d] && dir[..d0] == [false] + es0 && gp == path[..d + 1]
      invariant Climbing(f, m', t', s, es, gp) && Mirrors(m', all)
      invariant Count(t') == Count(t0) && Nodes(Fake(f, t')) == all
    {
      ghost var pre := es[..d - 1];
      assert es == pre + [dir[d]] && dir[d - 1] == ([false] + pre)[d - 1] && gp[d] == path[d] && gp[d - 1] == path[d - 1];
      ClimbStep(f, m', t', s, pre, dir[d], gp);
      var stop;
      stop, t', m' := ClimbOnce(f, path[d], dir[d], path[d - 1], dir[d - 1], m', t', s, pre, gp);
      if stop {
        return;
      }
      es, gp := pre, gp[..d];
      d := d - 1;
    }
    assert es == [];
    ClimbEnd(f, m', t', s, gp);
  }

  lemma ClimbEnd<K>(f: Node<K>, m: Image<K>, t: Tree<K>, s: seq<Node<K>>, path: seq<Node?<K>>)
    requires Climbing(f, m, t, s, [], path)
    ensures Ok(t) && Seq(t) == s && Linked(m, f, Fake(f, t)) && Distinct(Fake(f, t))
  {
  }

  // ----- The way down -----

  /** The state of the search loop of `kavl_erase`, which starts at the node above the root. */
  ghost predicate Seeking<K>(cmp: (K, K) -> int, x: K, f: Node<K>, m: Image<K>, t: Tree<K>, ds: seq<bool>,
                             p: Node<K>, c: int, cnt: int, path: seq<Node?<K>>, dir: seq<bool>) {
    if path == [] then p == f && c == -1 && cnt == 0 && dir == [] && ds == []
    else At(cmp, x, t, ds) && Linked(m, p, Sub(t, ds)) && cnt == |Before(t, ds)| && c == cmp(x, p.key) &&
         |path| == |ds| + 1 && path == [f] + Way(t, ds) && dir == [false] + ds
  }

  lemma SeekStep<K>(cmp: (K, K) -> int, x: K, f: Node<K>, m: Image<K>, root: Node?<K>, t: Tree<K>, ds: seq<bool>,
                    p: Node<K>, c: int, cnt: int, path: seq<Node?<K>>, dir: seq<bool>, next: Node?<K>)
    requires Separates(cmp, x, Seq(t)) && Ok(t) && Linked(m, root, t) && c != 0
    requires Seeking(cmp, x, f, m, t, ds, p, c, cnt, path, dir)
    requires if path == [] then next == root else p in m && next == m[p].P(c > 0)
    ensures path != [] ==> Sub(t, ds).Fork?
    ensures var ds' := if path == [] then [] else ds + [c > 0];
            var cnt' := cnt + if path != [] && c > 0 then Sub(t, ds).l.Size() + 1 else 0;
            Path(t, ds') && (path != [] ==> Height(Sub(t, ds')) < Height(Sub(t, ds))) &&
            (next == null ==> forall n :: n in Seq(t) ==> cmp(x, n.key) != 0) &&
            (next != null ==> Seeking(cmp, x, f, m, t, ds', next, cmp(x, next.key), cnt', path + [p], dir + [c > 0]))
  {
    if path == [] {
      if next == null {
        assert Seq(t) == [];
      } else {
        assert At(cmp, x, t, []) && Way(t, []) == [];
      }
    } else {
      SearchStep(cmp, x, m, p, t, ds, c > 0);
      WaySnoc(t, ds, c > 0);
      if next == null {
        SearchEnd(cmp, x, m, t, ds + [c > 0]);
      }
    }
  }

  /** The search loop of `kavl_erase`. */
  method Seek<K>(cmp: (K, K) -> int, x: K, f: Node<K>, path: array<Node?<K>>, dir: array<bool>,
                 ghost m: Image<K>, ghost root: Node?<K>, ghost t: Tree<K>)
    returns (p: Node?<K>, d: nat, cnt: nat, ghost ds: seq<bool>)
    requires Mirrors(m, Nodes(t)) && Linked(m, root, t) && Distinct(t) && Ok(t) && Count(t) < SizeLimit && Separates(cmp, x, Seq(t))
    requires f !in Nodes(t) && f.p0 == root && path.Length == MaxDepth && dir.Length == MaxDepth
    modifies path, dir
    ensures p == null ==> forall n :: n in Seq(t) ==> cmp(x, n.key) != 0
    ensures p != null ==> Path(t, ds) && Linked(m, p, Sub(t, ds)) && cmp(x, p.key) == 0 && NodeAt(Seq(t), cnt, p) &&
                          d == |ds| + 1 < 46 && path[..d] == [f] + Way(t, ds) && dir[..d] == [false] + ds &&
                          cnt == |Before(t, ds)| + Sub(t, ds).l.Size() + 1
  {
    hide Linked, Nodes, Seq, Height, Sub, Before, After, AllAbove, AllBelow, Path, Way;
    var c, n: Node<K> := -1, f;
    d, cnt, ds := 0, 0, [];
    ReplaceRoot(t, t);
    ghost var gp: seq<Node?<K>>, gd: seq<bool> := [], [];
    while c != 0
      invariant Path(t, ds) && Seeking(cmp, x, f, m, t, ds, n, c, cnt, gp, gd)
      invariant d == |gp| <= MaxDepth && gp == path[..d] && gd == dir[..d]
      decreases if gp == [] then 1 else 0, Height(Sub(t, ds))
    {
      if gp != [] {
        LocateFacts(cmp, x, m, n, t, ds);
        assert d == |ds| + 1;
      }
      var which := c > 0;
      SeekStep(cmp, x, f, m, root, t, ds, n, c, cnt, gp, gd, n.P(which));
      if c > 0 {
        cnt := cnt + SizeOf(n.p0) + 1;
      }
      Record(path, d, n, dir, d, which);
      d := d + 1;
      p := n.P(which);
      if p == null {
        return;
      }
      ds := if gp == [] then [] else ds + [which];
      gp, gd := gp + [n], gd + [which];
      n := p;
      c := cmp(x, n.key);
    }
    LocateFacts(cmp, x, m, n, t, ds);
    cnt := cnt + SizeOf(n.p0) + 1;
    p := n;
  }

  lemma FirstStep<K>(m: Image<K>, p: Node<K>, t: Tree<K>, ds: seq<bool>)
    requires Path(t, ds) && Linked(m, p, Sub(t, ds)) && |Way(t, ds)| == |ds| && Ok(t) && Distinct(t) && Count(t) < SizeLimit
    ensures |ds| < 45 && p in m && p in Nodes(t) && Path(t, ds + [false]) && Linked(m, m[p].p0, Sub(t, ds + [false]))
    ensures Way(t, ds + [false]) == Way(t, ds) + [p] && Height(Sub(t, ds + [false])) < Height(Sub(t, ds))
  {
    PathSnoc(t, ds, false);
    WaySnoc(t, ds, false);
    PathLength(t, ds);
    HeightBound(t);
    NodesSub(t, ds);
  }

  lemma FirstEnd<K>(m: Image<K>, root: Node?<K>, t: Tree<K>, ds: seq<bool>)
    requires Path(t, ds) && ds != [] && Linked(m, root, t) && Linked(m, null, Sub(t, ds)) && Distinct(t)
    requires forall i :: 0 <= i < |ds| ==> !ds[i]
    ensures var zs := ds[..|ds| - 1];
            First(t, zs) && Linked(m, Sub(t, zs).n, Sub(t, zs)) && |Way(t, ds)| == |ds| && Sub(t, zs).n == Way(t, ds)[|zs|] &&
            Way(t, zs) == Way(t, ds)[..|zs|]
  {
    var zs := ds[..|ds| - 1];
    assert ds == zs + [false];
    WayLinked(m, root, t, ds);
    PathPrefix(t, ds, |zs|);
    SubLinked(m, root, t, zs);
    PathSnoc(t, zs, false);
    WaySnoc(t, zs, false);
  }

  lemma RootWay<K>(t: Tree<K>)
    ensures Path(t, []) && Sub(t, []) == t && Way(t, []) == []
  {
  }

  /** The walk to the first node, for a removal without a key. */
  method SeekFirst<K>(f: Node<K>, path: array<Node?<K>>, dir: array<bool>, ghost m: Image<K>, ghost root: Node?<K>, ghost t: Tree<K>)
    returns (p: Node<K>, d: nat, ghost ds: seq<bool>)
    requires Mirrors(m, Nodes(t)) && Linked(m, root, t) && Distinct(t) && Ok(t) && Count(t) < SizeLimit
    requires root != null && f !in Nodes(t) && f.p0 == root && path.Length == MaxDepth && dir.Length == MaxDepth
    modifies path, dir
    ensures First(t, ds) && Linked(m, p, Sub(t, ds))
    ensures d == |ds| + 1 < 46 && path[..d] == [f] + Way(t, ds) && dir[..d] == [false] + ds
  {
    hide Linked, Nodes, Seq, Height, Sub, Path, Way, First;
    d, ds := 0, [];
    RootWay(t);
    var q: Node?<K> := f;
    while q != null
      invariant Path(t, ds) && d <= 46 && |Way(t, ds)| == |ds|
      invariant if d == 0 then q == f && ds == []
                else d == |ds| + 1 && path[..d] == [f] + Way(t, ds) && Linked(m, q, Sub(t, ds))
      invariant dir[..d] == (if d == 0 then [] else [false] + ds) && forall i :: 0 <= i < |ds| ==> !ds[i]
      invariant d <= 1 ==> q != null
      decreases if d == 0 then 1 else 0, Height(Sub(t, ds))
    {
      if d != 0 {
        FirstStep(m, q, t, ds);
        ds := ds + [false];
      }
      Record(path, d, q, dir, d, false);
      d := d + 1;
      q := q.p0;
    }
    FirstEnd(m, root, t, ds);
    d := d - 1;
    assert path[..d + 1][d] == Way(t, ds)[d - 1] && path[..d + 1][..d] == path[..d] && dir[..d + 1][..d] == dir[..d];
    p := path[d];
    ds := ds[..|ds| - 1];
  }

  /** The loops of `kavl_erase` that take one off the sizes of the nodes in a stretch of the path. */
  method DropSizes<K>(path: array<Node?<K>>, lo: nat, d: nat, ghost m0: Image<K>, ghost all: set<Node<K>>, ghost w: seq<Node<K>>)
    returns (ghost m': Image<K>)
    requires lo <= d <= path.Length && path[lo..d] == w && NoDup(w) && forall n :: n in w ==> n in all
    requires Mirrors(m0, all)
    modifies all
    ensures Mirrors(m', all) && Shrunk(m0, m', w)
  {
    m' := m0;
    for i := lo to d
      invariant path[lo..d] == w && Mirrors(m', all) && Shrunk(m0, m', w[..i - lo])
    {
      assert path[lo..d][i - lo] == w[i - lo] && w[i - lo] in w;
      assert w[..i + 1 - lo] == w[..i - lo] + [w[i - lo]] && w[i - lo] !in w[..i - lo];
      path[i].size := path[i].size - 1;
      m' := m'[path[i] := path[i].Fields()];
    }
    assert w[..d - lo] == w;
  }

  ghost predicate Shrunk<K>(m: Image<K>, m': Image<K>, w: seq<Node<K>>) {
    forall n :: n in m ==> n in m' && m'[n] == if n in w then Rec(m[n].p0, m[n].p1, m[n].bal, m[n].size - 1) else m[n]
  }

  lemma ShrunkDropping<K>(m: Image<K>, m': Image<K>, root: Node?<K>, t: Tree<K>, ds: seq<bool>)
    requires Linked(m, root, t) && Distinct(t) && Path(t, ds) && Shrunk(m, m', Way(t, ds))
    ensures |Way(t, ds)| == |ds| && NoDup(Way(t, ds)) && Dropping(m, m', t, ds, |ds|, false, null)
    ensures forall n :: n in Nodes(Sub(t, ds)) ==> n in m && n in m' && m'[n] == m[n]
    ensures forall n :: n in Way(t, ds) ==> n in Nodes(t) && n !in Nodes(Sub(t, ds))
  {
    WayLinked(m, root, t, ds);
    LinkedMember(m, root, t);
  }

  // ----- Taking the node out -----

  /** The node to delete, `p`, has been found at the end of `ds` and the sizes above it have been lowered. */
  ghost predicate Ready<K>(f: Node<K>, m: Image<K>, m1: Image<K>, root: Node?<K>, t: Tree<K>, ds: seq<bool>, p: Node<K>,
                           path: seq<Node?<K>>, dir: seq<bool>) {
    Linked(m, root, t) && Distinct(t) && f !in Nodes(t) && Path(t, ds) && Sub(t, ds).Fork? && Sub(t, ds).n == p &&
    |Way(t, ds)| == |ds| && Dropping(m, m1, t, ds, |ds|, false, null) &&
    (forall n :: n in Nodes(Sub(t, ds)) ==> n in m && n in m1 && m1[n] == m[n]) &&
    f in m1 && m1[f] == Rec(root, null, 0, 1) && path == [f] + Way(t, ds) && dir == [false] + ds
  }

  lemma ReadyFacts<K>(f: Node<K>, m: Image<K>, m1: Image<K>, root: Node?<K>, t: Tree<K>, ds: seq<bool>, p: Node<K>,
                      path: seq<Node?<K>>, dir: seq<bool>)
    requires Ready(f, m, m1, root, t, ds, p, path, dir)
    ensures Path(t, ds) && Sub(t, ds).Fork? && |path| == |ds| + 1 && |dir| == |path| && Linked(m, root, t)
    ensures var s, q := Sub(t, ds), path[|ds|];
            Linked(m, p, s) && Linked(m1, p, s) && Distinct(s) && p in Nodes(s) && Nodes(s) <= Nodes(t) && p in m1 && m1[p] == m[p] &&
            q != null && q in Nodes(t) + {f} && q !in Nodes(s) && q in m1
  {
    SubLinked(m, root, t, ds);
    LinkedKept(m, m1, p, Sub(t, ds));
    WayLinked(m, root, t, ds);
  }

  lemma NoDupLast<T>(w: seq<T>, a: nat)
    requires NoDup(w) && a < |w|
    ensures w[a] == w[|w| - 1] <==> a == |w| - 1
  {
  }

  lemma DropLink<K>(m: Image<K>, m1: Image<K>, m2: Image<K>, t: Tree<K>, ds: seq<bool>, v: Node?<K>)
    requires Path(t, ds) && |Way(t, ds)| == |ds| && NoDup(Way(t, ds)) && Dropping(m, m1, t, ds, |ds|, false, null)
    requires forall n :: n in Way(t, ds) ==> n in Nodes(t) && n !in Nodes(Sub(t, ds))
    requires ds != [] ==>
               var q := Way(t, ds)[|ds| - 1];
               q in m1 && q in m2 && m2[q] == m1[q].SetP(ds[|ds| - 1], v) &&
               forall n :: n in Nodes(t) && n !in Nodes(Sub(t, ds)) && n != q ==> n in m1 && n in m2 && m2[n] == m1[n]
    ensures Dropping(m, m2, t, ds, |ds|, true, v)
  {
    hide Nodes, Seq, Sub, Path, Way, NoDup;
    if ds != [] {
      var w := Way(t, ds);
      forall a | 0 <= a < |w|
        ensures w[a] in m && w[a] in m2 && m2[w[a]] == Dropped(m[w[a]], ds[a], a < |ds|, a == |w| - 1, v)
      {
        NoDupLast(w, a);
        assert w[a] in w && w[a] in m1;
        assert m1[w[a]] == Dropped(m[w[a]], ds[a], a < |ds|, false, null);
      }
      forall n | n in Nodes(t) && n !in Nodes(Sub(t, ds)) && n !in w
        ensures n in m2 && n in m && m2[n] == m[n]
      {
        assert w[|ds| - 1] in w;
      }
    } else {
      DropNothing(m, m1, m2, t, v);
    }
  }

  lemma DropNothing<K>(m: Image<K>, m1: Image<K>, m2: Image<K>, t: Tree<K>, v: Node?<K>)
    requires |Way(t, [])| == 0 && Dropping(m, m1, t, [], 0, false, null)
    ensures Dropping(m, m2, t, [], 0, true, v)
  {
  }

  /** Pointing the parent of the deleted node to `v`, the root of `s`, puts `s` in its place. */
  lemma LinkedUnder<K>(f: Node<K>, m: Image<K>, m1: Image<K>, m2: Image<K>, root: Node?<K>, t: Tree<K>, ds: seq<bool>, p: Node<K>,
                       path: seq<Node?<K>>, dir: seq<bool>, v: Node?<K>, s: Tree<K>)
    requires Ready(f, m, m1, root, t, ds, p, path, dir) && Linked(m2, v, s)
    requires forall n :: n in Nodes(t) + {f} && n !in Nodes(Sub(t, ds)) ==>
               n in m1 && n in m2 && m2[n] == if n == path[|ds|] then m1[n].SetP(dir[|ds|], v) else m1[n]
    ensures Linked(m2, f, Fake(f, Lowered(t, ds, s)))
  {
    hide Linked, Nodes, Seq, Sub, Path, Way, Distinct, NoDup, Dropping, Lowered, Ready;
    ReadyParts(f, m, m1, root, t, ds, p, path, dir);
    DropLink(m, m1, m2, t, ds, v);
    LoweredLinked(m, m2, root, t, ds, v, s);
    FakeLinked(f, m2, if ds == [] then v else root, Lowered(t, ds, s));
  }

  lemma ReadyParts<K>(f: Node<K>, m: Image<K>, m1: Image<K>, root: Node?<K>, t: Tree<K>, ds: seq<bool>, p: Node<K>,
                      path: seq<Node?<K>>, dir: seq<bool>)
    requires Ready(f, m, m1, root, t, ds, p, path, dir)
    ensures Linked(m, root, t) && Distinct(t) && Path(t, ds) && |Way(t, ds)| == |ds| && NoDup(Way(t, ds))
    ensures Dropping(m, m1, t, ds, |ds|, false, null) && (forall n :: n in Way(t, ds) ==> n in Nodes(t) && n !in Nodes(Sub(t, ds)))
    ensures |path| == |dir| == |ds| + 1 && f !in Nodes(t) && f !in Nodes(Sub(t, ds)) && f in m1 && m1[f] == Rec(root, null, 0, 1)
    ensures if ds == [] then path[0] == f && dir[0] == false
            else path[|ds|] == Way(t, ds)[|ds| - 1] && path[|ds|] in Way(t, ds) && dir[|ds|] == ds[|ds| - 1]
  {
    hide Dropping, Linked;
    WayLinked(m, root, t, ds);
    assert ds != [] ==> Way(t, ds)[|ds| - 1] in Way(t, ds);
  }

  lemma FakeLinked<K>(f: Node<K>, m: Image<K>, v: Node?<K>, t: Tree<K>)
    requires f in m && m[f] == Rec(v, null, 0, 1) && Linked(m, v, t)
    ensures Linked(m, f, Fake(f, t))
  {
  }

  /** The first of the three shapes: no right subtree, the left one moves up. */
  method UnlinkLast<K>(f: Node<K>, p: Node<K>, path: array<Node?<K>>, dir: array<bool>, d: nat,
                       ghost m: Image<K>, ghost m1: Image<K>, ghost root: Node?<K>, ghost t: Tree<K>, ghost ds: seq<bool>)
    returns (ghost m': Image<K>)
    requires d == |ds| + 1 <= path.Length && d <= dir.Length && Ready(f, m, m1, root, t, ds, p, path[..d], dir[..d])
    requires Mirrors(m1, Nodes(t) + {f}) && p.p1 == null
    modifies Nodes(t), f
    ensures Sub(t, ds).r == Leaf && Linked(m', f, Fake(f, Lowered(t, ds, Spliced(Sub(t, ds), []))))
    ensures Mirrors(m', Nodes(t) + {f})
  {
    hide Linked, Nodes, Seq, Sub, Path, Way, Dropping, Ready, Lowered, Distinct;
    ReadyFacts(f, m, m1, root, t, ds, p, path[..d], dir[..d]);
    ghost var s := Sub(t, ds);
    ghost var gp, gd := path[..d], dir[..d];
    LinkedParts(m1, p, s);
    var q: Node<K> := path[d - 1];
    assert q == gp[|ds|] && dir[d - 1] == gd[|ds|];
    q.SetP(dir[d - 1], p.p0);
    m' := m1[q := q.Fields()];
    LinkedExcept(m1, m', {q}, m1[p].p0, s.l);
    LinkedUnder(f, m, m1, m', root, t, ds, p, gp, gd, m1[p].p0, s.l);
  }

  /** What replaces the deleted node when it has a right subtree is linked. */
  lemma SplicedLinked<K>(m: Image<K>, m': Image<K>, p: Node<K>, s: Tree<K>, zs: seq<bool>)
    requires Linked(m, p, s) && Distinct(s) && s.Fork? && s.r.Fork? && First(s.r, zs)
    requires forall n :: n in Nodes(s.l) ==> n in m' && n in m && m'[n] == m[n]
    requires forall n :: n in Nodes(Sub(s.r, zs).r) ==> n in m' && n in m && m'[n] == m[n]
    requires |Way(s.r, zs)| == |zs|
    requires var r := Sub(s.r, zs).n;
             r in m && r in m' && p in m && Dropping(m, m', s.r, zs, |zs|, true, m[r].p1) &&
             m'[r] == Rec(m[p].p0, if zs == [] then m[r].p1 else m[p].p1, m[p].bal, m[p].size - 1)
    ensures Linked(m', Sub(s.r, zs).n, Spliced(s, zs))
  {
    hide Nodes, Seq, Dropping, Path;
    var r := Sub(s.r, zs);
    LinkedParts(m, p, s);
    SubLinked(m, m[p].p1, s.r, zs);
    LinkedKept(m, m', m[p].p0, s.l);
    LinkedKept(m, m', m[r.n].p1, r.r);
    LoweredLinked(m, m', m[p].p1, s.r, zs, m[r.n].p1, r.r);
  }

  lemma FirstParts<K>(m: Image<K>, p: Node<K>, s: Tree<K>, zs: seq<bool>)
    requires Linked(m, p, s) && Distinct(s) && s.Fork? && s.r.Fork? && First(s.r, zs)
    ensures var r, w := Sub(s.r, zs), Way(s.r, zs);
            |w| == |zs| && NoDup(w) && p !in w && r.n != p && r.n in Nodes(s) && r.n in m && r.n !in w && r.n !in Nodes(s.l) && r.n !in Nodes(r.r) &&
            p !in Nodes(s.l) && p !in Nodes(r.r) && Nodes(s.l) <= Nodes(s) && Nodes(r.r) <= Nodes(s) && p in m && p in Nodes(s) &&
            (forall n :: n in w ==> n in m && n in Nodes(s) && n in Nodes(s.r) && n !in Nodes(s.l) && n !in Nodes(r.r) && n !in Nodes(r)) &&
            Linked(m, m[p].p1, s.r) && (zs == [] ==> r == s.r) && Nodes(s.r) <= Nodes(s)
    ensures forall n :: n in Nodes(s) ==> n in m
  {
    LinkedMember(m, p, s);
    LinkedParts(m, p, s);
    SubLinked(m, m[p].p1, s.r, zs);
    WayLinked(m, m[p].p1, s.r, zs);
    LinkedParts(m, Sub(s.r, zs).n, Sub(s.r, zs));
  }

  /** The second shape: the right child has no left subtree and takes the place of the deleted node. */
  method UnlinkNear<K>(f: Node<K>, p: Node<K>, path: array<Node?<K>>, dir: array<bool>, d: nat,
                       ghost m: Image<K>, ghost m1: Image<K>, ghost root: Node?<K>, ghost t: Tree<K>, ghost ds: seq<bool>)
    returns (ghost m': Image<K>)
    requires d == |ds| + 1 < path.Length && d < dir.Length && Ready(f, m, m1, root, t, ds, p, path[..d], dir[..d])
    requires Mirrors(m1, Nodes(t) + {f}) && p.p1 != null && p.p1 in Nodes(t) && p.p1.p0 == null
    modifies Nodes(t), f, path, dir
    ensures var s := Sub(t, ds);
            s.r.Fork? && First(s.r, []) && Linked(m', f, Fake(f, Lowered(t, ds, Spliced(s, [])))) &&
            path[..d + 1] == old(path[..d]) + [s.r.n] && dir[..d + 1] == old(dir[..d]) + [true]
    ensures Mirrors(m', Nodes(t) + {f})
  {
    hide Linked, Nodes, Seq, Sub, Path, Way, Dropping, Ready, Lowered, Distinct, Spliced, First;
    ghost var gp, gd := path[..d], dir[..d];
    ReadyFacts(f, m, m1, root, t, ds, p, gp, gd);
    NearFacts(m1, p, Sub(t, ds));
    var q, parent: Node<K> := p.p1, path[d - 1];
    assert parent == gp[|ds|] && dir[d - 1] == gd[|ds|];
    q.p0 := p.p0;
    q.balance := p.balance;
    parent.SetP(dir[d - 1], q);
    Record(path, d, q, dir, d, true);
    q.size := p.size - 1;
    m' := m1[q := q.Fields()][parent := parent.Fields()];
    NearLinked(f, m, m1, m', root, t, ds, p, gp, gd);
  }

  lemma NearFacts<K>(m: Image<K>, p: Node<K>, s: Tree<K>)
    requires Linked(m, p, s) && Distinct(s) && s.Fork? && p in m && m[p].p1 != null && m[p].p1 in m && m[m[p].p1].p0 == null
    ensures s.r.Fork? && s.r.n == m[p].p1 && s.r.n in Nodes(s) && s.r.n != p && First(s.r, []) && Sub(s.r, []) == s.r && Way(s.r, []) == []
  {
    hide Nodes, Seq, Sub, Path, Way, Distinct, First;
    LinkedParts(m, p, s);
    LinkedParts(m, m[p].p1, s.r);
    FirstHere(m, m[p].p1, s.r);
    FirstParts(m, p, s, []);
  }

  /** What the writes of the second shape leave. */
  lemma NearLinked<K>(f: Node<K>, m: Image<K>, m1: Image<K>, m': Image<K>, root: Node?<K>, t: Tree<K>, ds: seq<bool>, p: Node<K>,
                      path: seq<Node?<K>>, dir: seq<bool>)
    requires Ready(f, m, m1, root, t, ds, p, path, dir) && (forall n :: n in Nodes(t) + {f} ==> n in m1)
    requires Path(t, ds) && |path| == |ds| + 1 == |dir| && path[|ds|] != null && p in m1
    requires var q := m1[p].p1;
             q != null && q in m1 && m1[q].p0 == null && path[|ds|] in m1 &&
             m' == m1[q := Rec(m1[p].p0, m1[q].p1, m1[p].bal, m1[p].size - 1)][path[|ds|] := m1[path[|ds|]].SetP(dir[|ds|], q)]
    ensures var s := Sub(t, ds);
            s.Fork? && s.r.Fork? && First(s.r, []) && Linked(m', f, Fake(f, Lowered(t, ds, Spliced(s, []))))
  {
    hide Linked, Nodes, Seq, Sub, Path, Way, Dropping, Ready, Lowered, Distinct, Spliced, First;
    var s := Sub(t, ds);
    ReadyFacts(f, m, m1, root, t, ds, p, path, dir);
    NearFacts(m1, p, s);
    FirstParts(m1, p, s, []);
    DroppingNone(m1, m', s.r, m1[s.r.n].p1);
    SplicedLinked(m1, m', p, s, []);
    LinkedUnder(f, m, m1, m', root, t, ds, p, path, dir, s.r.n, Spliced(s, []));
  }

  lemma FirstHere<K>(m: Image<K>, p: Node<K>, t: Tree<K>)
    requires Linked(m, p, t) && p in m && m[p].p0 == null
    ensures First(t, []) && Sub(t, []) == t && Way(t, []) == []
  {
  }

  lemma DroppingNone<K>(m: Image<K>, m': Image<K>, t: Tree<K>, v: Node?<K>)
    ensures Path(t, []) && |Way(t, [])| == 0 && Dropping(m, m', t, [], 0, true, v)
  {
  }

  /** Down the left from `q0` to the first node `r` and its parent `q`, recording the way. */
  method Leftmost<K>(q0: Node<K>, path: array<Node?<K>>, dir: array<bool>, d0: nat, ghost m: Image<K>, ghost u: Tree<K>)
    returns (q: Node<K>, r: Node<K>, d: nat, ghost zs: seq<bool>)
    requires Linked(m, q0, u) && Distinct(u) && Mirrors(m, Nodes(u)) && q0.p0 != null
    requires d0 + Height(u) <= path.Length && d0 + Height(u) <= dir.Length
    modifies path, dir
    ensures Path(u, zs) && Sub(u, zs).Fork? && First(u, zs) && zs != [] && r == Sub(u, zs).n && d == d0 + |zs| <= path.Length && d <= dir.Length && |Way(u, zs)| == |zs|
    ensures q == Way(u, zs)[|zs| - 1] && q.p0 == r
    ensures path[d0..d] == Way(u, zs) && path[..d0] == old(path[..d0]) && dir[d0..d] == zs && dir[..d0] == old(dir[..d0])
  {
    hide Linked, Nodes, Seq, Height, Sub, Path, Way, First, Distinct;
    RootWay(u);
    q, d, zs := q0, d0, [];
    LeftmostStep(m, q, u, zs);
    while true
      invariant Path(u, zs) && Linked(m, q, Sub(u, zs)) && |Way(u, zs)| == |zs| && d == d0 + |zs| && q.p0 != null
      invariant d <= path.Length && d <= dir.Length && forall i :: 0 <= i < |zs| ==> !zs[i]
      invariant path[d0..d] == Way(u, zs) && path[..d0] == old(path[..d0]) && dir[d0..d] == zs && dir[..d0] == old(dir[..d0])
      decreases Height(Sub(u, zs))
    {
      LeftmostStep(m, q, u, zs);
      ghost var gp, gd := path[..d], dir[..d];
      Record(path, d, q, dir, d, false);
      assert path[..d + 1][d0..] == gp[d0..] + [q] && path[..d + 1][..d0] == gp[..d0];
      assert dir[..d + 1][d0..] == gd[d0..] + [false] && dir[..d + 1][..d0] == gd[..d0];
      d := d + 1;
      zs := zs + [false];
      r := q.p0;
      if r.p0 == null {
        LeftmostEnd(m, r, u, zs);
        break;
      }
      q := r;
    }
  }

  lemma LeftmostStep<K>(m: Image<K>, q: Node<K>, u: Tree<K>, zs: seq<bool>)
    requires Path(u, zs) && Linked(m, q, Sub(u, zs)) && |Way(u, zs)| == |zs| && Distinct(u)
    ensures |zs| < Height(u) && q in m && q in Nodes(u) && Path(u, zs + [false]) && Linked(m, m[q].p0, Sub(u, zs + [false]))
    ensures Way(u, zs + [false]) == Way(u, zs) + [q] && Height(Sub(u, zs + [false])) < Height(Sub(u, zs))
    ensures m[q].p0 != null ==> m[q].p0 in Nodes(u) && |zs| + 1 < Height(u)
  {
    PathSnoc(u, zs, false);
    WaySnoc(u, zs, false);
    PathLength(u, zs);
    NodesSub(u, zs);
    NodesSub(u, zs + [false]);
    PathLength(u, zs + [false]);
  }

  lemma LeftmostEnd<K>(m: Image<K>, r: Node<K>, u: Tree<K>, zs: seq<bool>)
    requires Path(u, zs) && Linked(m, r, Sub(u, zs)) && r in m && m[r].p0 == null && forall i :: 0 <= i < |zs| ==> !zs[i]
    ensures First(u, zs) && Sub(u, zs).Fork? && r == Sub(u, zs).n
  {
  }

  /** What the third shape of `kavl_erase` leaves in a node of the right subtree other than the first one, `r`. */
  ghost function MovedRec<K>(m: Image<K>, r: Node<K>, w: seq<Node<K>>, n: Node<K>): Rec<K>
    requires n in m && r in m
  {
    if n !in w then m[n]
    else Rec(if n == w[|w| - 1] then m[r].p1 else m[n].p0, m[n].p1, m[n].bal, m[n].size - 1)
  }

  lemma MovedDropping<K>(m: Image<K>, m': Image<K>, p: Node<K>, s: Tree<K>, zs: seq<bool>)
    requires Linked(m, p, s) && Distinct(s) && s.Fork? && s.r.Fork? && First(s.r, zs) && zs != []
    requires |Way(s.r, zs)| == |zs| && Sub(s.r, zs).n in m
    requires forall n :: n in Nodes(s.r) && n != Sub(s.r, zs).n ==>
               n in m && n in m' && m'[n] == MovedRec(m, Sub(s.r, zs).n, Way(s.r, zs), n)
    ensures Dropping(m, m', s.r, zs, |zs|, true, m[Sub(s.r, zs).n].p1)
    ensures forall n :: n in Nodes(Sub(s.r, zs).r) ==> n in m && n in m' && m'[n] == m[n]
  {
    var u := s.r;
    var r, w := Sub(u, zs), Way(u, zs);
    FirstParts(m, p, s, zs);
    assert Nodes(r.r) <= Nodes(r) <= Nodes(u) && r.n in Nodes(r) && r.n !in Nodes(r.r) by {
      NodesSub(u, zs);
    }
    hide Linked, Nodes, Seq, Sub, Path, Way, Distinct, NoDup;
    forall a | 0 <= a < |w|
      ensures w[a] in m && w[a] in m' && m'[w[a]] == Dropped(m[w[a]], zs[a], a < |zs|, a == |w| - 1, m[r.n].p1)
    {
      assert w[a] in w && !zs[a];
      assert w[a] == w[|w| - 1] <==> a == |w| - 1 by {
        NoDupLast(w, a);
      }
    }
    forall n | n in Nodes(u) && n !in Nodes(r) && n !in w
      ensures n in m' && n in m && m'[n] == m[n]
    {
    }
    assert forall n :: n in Nodes(r.r) ==> n !in w && n != r.n;
  }

  method SetBoth<K>(path: array<Node?<K>>, dir: array<bool>, e: nat, p: Node?<K>, d: bool)
    requires e < path.Length && e < dir.Length
    modifies path, dir
    ensures path[..] == old(path[..])[e := p] && dir[..] == old(dir[..])[e := d]
  {
    path[e], dir[e] := p, d;
  }

  /** The pointer and balance assignments of the third shape, up to the parent's. */
  method MoveFirst<K>(p: Node<K>, q: Node<K>, r: Node<K>, parent: Node<K>, which: bool)
    requires p != q && p != r && q != r && parent != p && parent != q && parent != r
    modifies q, r, parent
    ensures r.Fields() == Rec(p.p0, p.p1, p.balance, old(r.size))
    ensures q.Fields() == Rec(old(r.p1), old(q.p1), old(q.balance), old(q.size))
    ensures parent.Fields() == old(parent.Fields()).SetP(which, r)
  {
    r.p0 := p.p0;
    q.p0 := r.p1;
    r.p1 := p.p1;
    r.balance := p.balance;
    parent.SetP(which, r);
  }

  /** What the third shape leaves in a node. */
  ghost function FarRec<K>(m: Image<K>, p: Node<K>, r: Node<K>, w: seq<Node<K>>, parent: Node<K>, which: bool, n: Node<K>): Rec<K>
    requires n in m && r in m && p in m
  {
    if n == r then Rec(m[p].p0, m[p].p1, m[p].bal, m[p].size - 1)
    else if n == parent then m[n].SetP(which, r)
    else MovedRec(m, r, w, n)
  }

  lemma FarDone<K>(f: Node<K>, m: Image<K>, m1: Image<K>, m': Image<K>, root: Node?<K>, t: Tree<K>, ds: seq<bool>, p: Node<K>,
                   path: seq<Node?<K>>, dir: seq<bool>, zs: seq<bool>)
    requires Ready(f, m, m1, root, t, ds, p, path, dir) && |path| == |dir| == |ds| + 1 && path[|ds|] != null
    requires Path(t, ds) && Sub(t, ds).Fork? && Sub(t, ds).r.Fork? && First(Sub(t, ds).r, zs) && zs != [] && p in m1
    requires forall n :: n in Nodes(t) + {f} ==> n in m1 && n in m'
    requires var u := Sub(t, ds).r;
             Sub(u, zs).n in m1 &&
             forall n :: n in Nodes(t) + {f} ==> m'[n] == FarRec(m1, p, Sub(u, zs).n, Way(u, zs), path[|ds|], dir[|ds|], n)
    ensures Linked(m', f, Fake(f, Lowered(t, ds, Spliced(Sub(t, ds), zs))))
  {
    hide Linked, Nodes, Seq, Sub, Path, Way, Dropping, Ready, Lowered, Distinct, Spliced;
    var s := Sub(t, ds);
    ReadyFacts(f, m, m1, root, t, ds, p, path, dir);
    FirstParts(m1, p, s, zs);
    MovedDropping(m1, m', p, s, zs);
    SplicedLinked(m1, m', p, s, zs);
    LinkedUnder(f, m, m1, m', root, t, ds, p, path, dir, Sub(s.r, zs).n, Spliced(s, zs));
  }

  /** The search of the third shape for the node that takes the place of the deleted one. */
  method FindFirst<K>(q0: Node<K>, path: array<Node?<K>>, dir: array<bool>, d: nat, ghost m: Image<K>, ghost u: Tree<K>)
    returns (q: Node<K>, r: Node<K>, d': nat, ghost zs: seq<bool>)
    requires Linked(m, q0, u) && Distinct(u) && Mirrors(m, Nodes(u)) && q0.p0 != null
    requires d + 1 + Height(u) <= path.Length && d + 1 + Height(u) <= dir.Length
    modifies path, dir
    ensures Path(u, zs) && Sub(u, zs).Fork? && First(u, zs) && zs != [] && |Way(u, zs)| == |zs| && r == Sub(u, zs).n
    ensures q == Way(u, zs)[|zs| - 1] && q.p0 == r && d' == d + 1 + |zs| <= path.Length && d' <= dir.Length
    ensures path[..d'] == old(path[..d]) + [r] + Way(u, zs) && dir[..d'] == old(dir[..d]) + [true] + zs
  {
    hide Linked, Nodes, Seq, Height, Sub, Path, Way, First, Distinct;
    ghost var gp, gd := path[..d], dir[..d];
    q, r, d', zs := Leftmost(q0, path, dir, d + 1, m, u);
    ghost var hp, hd := path[..], dir[..];
    assert hp[..d + 1][..d] == gp && hd[..d + 1][..d] == gd && hp[d + 1..d'] == Way(u, zs) && hd[d + 1..d'] == zs;
    SetBoth(path, dir, d, r, true);
    assert path[..d'] == hp[..d + 1][..d] + [r] + hp[d + 1..d'];
    assert dir[..d'] == hd[..d + 1][..d] + [true] + hd[d + 1..d'];
  }

  /** The assignments of the third shape: `r` moves to the place of `p`, its right subtree to its own place
      under `q`, the last node of `w`. */
  method MoveNodes<K>(p: Node<K>, q: Node<K>, r: Node<K>, parent: Node<K>, which: bool, path: array<Node?<K>>, lo: nat, hi: nat,
                      ghost m: Image<K>, ghost all: set<Node<K>>, ghost w: seq<Node<K>>)
    returns (ghost m': Image<K>)
    requires {p, q, r, parent} <= all && p != q && p != r && q != r && parent !in {p, q, r}
    requires Mirrors(m, all) && lo <= hi <= path.Length && path[lo..hi] == w && NoDup(w) && w != [] && q == w[|w| - 1]
    requires r !in w && p !in w && parent !in w && forall n :: n in w ==> n in all
    modifies all
    ensures Mirrors(m', all)
    ensures forall n :: n in all ==> n in m && n in m' && m'[n] == FarRec(m, p, r, w, parent, which, n)
  {
    hide Shrunk, FarRec, NoDup;
    MoveFirst(p, q, r, parent, which);
    ghost var m2: Image<K> := m[r := r.Fields()][q := q.Fields()][parent := parent.Fields()];
    ghost var m3 := DropSizes(path, lo, hi, m2, all, w);
    ShrunkKeeps(m2, m3, w);
    r.size := p.size - 1;
    m' := m3[r := r.Fields()];
    FarImage(m, m2, m3, m', all, p, q, r, parent, which, w);
  }

  lemma ShrunkKeeps<K>(m: Image<K>, m': Image<K>, w: seq<Node<K>>)
    requires Shrunk(m, m', w)
    ensures forall n :: n in m && n !in w ==> n in m' && m'[n] == m[n]
  {
  }

  lemma FarImage<K>(m: Image<K>, m2: Image<K>, m3: Image<K>, m': Image<K>, all: set<Node<K>>, p: Node<K>, q: Node<K>, r: Node<K>,
                    parent: Node<K>, which: bool, w: seq<Node<K>>)
    requires {p, q, r, parent} <= all && p != q && p != r && q != r && parent !in {p, q, r} && (forall n :: n in all ==> n in m)
    requires w != [] && q == w[|w| - 1] && r !in w && p !in w && parent !in w && forall n :: n in w ==> n in all
    requires m2 == m[r := Rec(m[p].p0, m[p].p1, m[p].bal, m[r].size)][q := Rec(m[r].p1, m[q].p1, m[q].bal, m[q].size)][parent := m[parent].SetP(which, r)]
    requires Shrunk(m2, m3, w) && m' == m3[r := Rec(m[p].p0, m[p].p1, m[p].bal, m[p].size - 1)]
    ensures forall n :: n in all ==> n in m' && m'[n] == FarRec(m, p, r, w, parent, which, n)
  {
    forall n | n in all
      ensures n in m' && m'[n] == FarRec(m, p, r, w, parent, which, n)
    {
      assert n in m2 && n in m3;
    }
  }

  /** `MoveNodes` for the path in two arrays, which it leaves alone. */
  method MoveApart<K>(p: Node<K>, q: Node<K>, r: Node<K>, parent: Node<K>, path: array<Node?<K>>, dir: array<bool>, d: nat, hi: nat,
                      ghost m: Image<K>, ghost all: set<Node<K>>, ghost w: seq<Node<K>>)
    returns (ghost m': Image<K>)
    requires {p, q, r, parent} <= all && p != q && p != r && q != r && parent !in {p, q, r}
    requires Mirrors(m, all) && 0 < d < hi <= path.Length && d <= dir.Length && path[d + 1..hi] == w && NoDup(w) && w != [] && q == w[|w| - 1]
    requires r !in w && p !in w && parent !in w && forall n :: n in w ==> n in all
    modifies all
    ensures Mirrors(m', all) && path[..] == old(path[..]) && dir[..] == old(dir[..])
    ensures forall n :: n in all ==> n in m && n in m' && m'[n] == FarRec(m, p, r, w, parent, old(dir[d - 1]), n)
  {
    hide FarRec, NoDup;
    m' := MoveNodes(p, q, r, parent, dir[d - 1], path, d + 1, hi, m, all, w);
  }

  /** The third shape: the first node of the right subtree is taken out of it and takes the place of the
      deleted node. */
  method UnlinkFar<K>(f: Node<K>, p: Node<K>, path: array<Node?<K>>, dir: array<bool>, d: nat,
                      ghost m: Image<K>, ghost m1: Image<K>, ghost root: Node?<K>, ghost t: Tree<K>, ghost ds: seq<bool>)
    returns (d': nat, ghost zs: seq<bool>, ghost m': Image<K>)
    requires d == |ds| + 1 < path.Length && d < dir.Length && Ready(f, m, m1, root, t, ds, p, path[..d], dir[..d])
    requires Mirrors(m1, Nodes(t) + {f}) && p.p1 != null && p.p1 in Nodes(t) && p.p1.p0 != null
    requires Path(t, ds) && d + Height(Sub(t, ds)) <= path.Length && d + Height(Sub(t, ds)) <= dir.Length
    modifies Nodes(t), f, path, dir
    ensures var s := Sub(t, ds);
            s.r.Fork? && First(s.r, zs) && Linked(m', f, Fake(f, Lowered(t, ds, Spliced(s, zs)))) &&
            d' == d + 1 + |zs| <= path.Length && d' <= dir.Length &&
            path[..d'] == old(path[..d]) + ([Sub(s.r, zs).n] + Way(s.r, zs)) && dir[..d'] == old(dir[..d]) + ([true] + zs)
    ensures Mirrors(m', Nodes(t) + {f})
  {
    hide Linked, Nodes, Seq, Sub, Path, Way, Dropping, Ready, Lowered, Distinct, Spliced, First, Height, FarRec, NoDup;
    ReadyFacts(f, m, m1, root, t, ds, p, path[..d], dir[..d]);
    ghost var s := Sub(t, ds);
    ghost var gp, gd := path[..d], dir[..d];
    LinkedParts(m1, p, s);
    HeightKid(s);
    var q, r;
    q, r, d', zs := FindFirst(p.p1, path, dir, d, m1, s.r);
    FirstParts(m1, p, s, zs);
    ghost var w := Way(s.r, zs);
    assert q in w;
    ghost var np, nd := path[..d'], dir[..d'];
    Slices(np, gp, Sub(s.r, zs).n, w);
    Slices(nd, gd, true, zs);
    assert path[d - 1] == np[d - 1] && dir[d - 1] == nd[d - 1] && path[d + 1..d'] == np[d + 1..];
    var parent: Node<K> := path[d - 1];
    ghost var ap, ad := path[..], dir[..];
    m' := MoveApart(p, q, r, parent, path, dir, d, d', m1, Nodes(t) + {f}, w);
    assert path[..d'] == ap[..d'] == np && dir[..d'] == ad[..d'] == nd;
    Append3(gp, [Sub(s.r, zs).n], w);
    Append3(gd, [true], zs);
    FarDone(f, m, m1, m', root, t, ds, p, gp, gd, zs);
  }

  lemma Slices<T>(s: seq<T>, a: seq<T>, x: T, b: seq<T>)
    requires s == a + [x] + b && a != []
    ensures s[..|a|] == a && s[|a| - 1] == a[|a| - 1] && s[|a| + 1..] == b
  {
  }

  lemma Append3<T>(a: seq<T>, b: seq<T>, c: seq<T>)
    ensures a + b + c == a + (b + c)
  {
  }

  lemma HeightKid<K>(t: Tree<K>)
    requires t.Fork?
    ensures Height(t.r) < Height(t)
  {
  }

  lemma {:induction false} LoweredWay<K>(t: Tree<K>, ds: seq<bool>, s: Tree<K>, es: seq<bool>)
    requires Path(t, ds) && Path(s, es)
    ensures Path(Lowered(t, ds, s), ds + es) && Way(Lowered(t, ds, s), ds + es) == Way(t, ds) + Way(s, es)
  {
    if ds == [] {
      assert ds + es == es;
    } else {
      assert (ds + es)[1..] == ds[1..] + es;
      LoweredWay(t.Kid(ds[0]), ds[1..], s, es);
    }
  }

  lemma SplicedWay<K>(s: Tree<K>, zs: seq<bool>)
    requires s.Fork? && (s.r.Fork? ==> First(s.r, zs))
    ensures var es := SplicedPath(s, zs);
            Path(Spliced(s, zs), es) &&
            Way(Spliced(s, zs), es) == if s.r.Leaf? then [] else [Sub(s.r, zs).n] + Way(s.r, zs)
  {
    if s.r.Fork? {
      var r := Sub(s.r, zs);
      LoweredWay(s.r, zs, r.r, []);
      assert zs + [] == zs && Way(r.r, []) == [];
      var es := [true] + zs;
      assert es[0] && es[1..] == zs;
    }
  }

  /** The order without the deleted node. */
  lemma LoweredOrder<K>(t: Tree<K>, ds: seq<bool>, zs: seq<bool>, cnt: int)
    requires Ok(t) && Distinct(t) && Path(t, ds) && Sub(t, ds).Fork? && (Sub(t, ds).r.Fork? ==> First(Sub(t, ds).r, zs))
    requires cnt == |Before(t, ds)| + Sub(t, ds).l.Size() + 1
    ensures 0 < cnt <= |Seq(t)| && Seq(t)[cnt - 1] == Sub(t, ds).n
    ensures var u := Lowered(t, ds, Spliced(Sub(t, ds), zs));
            Seq(u) == Seq(t)[..cnt - 1] + Seq(t)[cnt..] && Distinct(u) && Nodes(u) == Nodes(t) - {Sub(t, ds).n}
  {
    hide Seq, Nodes, Lowered, Spliced, Sub, Before, After, Ok, Count, First, Path, Distinct;
    var s, a, b := Sub(t, ds), Before(t, ds), After(t, ds);
    var u := Lowered(t, ds, Spliced(s, zs));
    SeqSplit(t, ds);
    SeqFork(s);
    SplicedSeq(s, zs);
    LoweredSeq(t, ds, Spliced(s, zs));
    CutOut(a, Seq(s.l), s.n, Seq(s.r), b);
    assert cnt - 1 == |a| + |Seq(s.l)| by {
      OkSub(t, ds);
      OkKid(s);
      OkSize(s.l);
      SeqCount(s.l);
    }
    OrderWithout(t, u, cnt - 1);
  }

  lemma SeqFork<K>(t: Tree<K>)
    requires t.Fork?
    ensures Seq(t) == Seq(t.l) + [t.n] + Seq(t.r)
  {
  }

  lemma OkKid<K>(t: Tree<K>)
    requires t.Fork? && Ok(t)
    ensures Ok(t.l) && Ok(t.r)
  {
  }

  lemma OrderWithout<K>(t: Tree<K>, u: Tree<K>, i: nat)
    requires Distinct(t) && i < |Seq(t)| && Seq(u) == Seq(t)[..i] + Seq(t)[i + 1..]
    ensures Distinct(u) && Nodes(u) == Nodes(t) - {Seq(t)[i]}
  {
    hide Seq;
    RemoveAt(Seq(t), i);
  }

  lemma CutOut<T>(a: seq<T>, l: seq<T>, n: T, r: seq<T>, b: seq<T>)
    ensures var s, i := a + (l + [n] + r) + b, |a| + |l|;
            s[i] == n && s[..i] + s[i + 1..] == a + (l + r) + b
  {
    var s, i := a + (l + [n] + r) + b, |a| + |l|;
    assert s[..i] == a + l && s[i + 1..] == r + b;
  }

  lemma RemoveAt<T>(s: seq<T>, i: nat)
    requires NoDup(s) && i < |s|
    ensures NoDup(s[..i] + s[i + 1..])
    ensures forall n :: n in s[..i] + s[i + 1..] <==> n in s && n != s[i]
  {
    var u := s[..i] + s[i + 1..];
    forall a, b | 0 <= a < b < |u|
      ensures u[a] != u[b]
    {
      assert u[a] == s[if a < i then a else a + 1] && u[b] == s[if b < i then b else b + 1];
    }
    forall n | n in s && n != s[i]
      ensures n in u
    {
      var k :| 0 <= k < |s| && s[k] == n;
      assert n == u[if k < i then k else k - 1];
    }
    forall n | n in u
      ensures n in s && n != s[i]
    {
      var k :| 0 <= k < |u| && u[k] == n;
      assert n == s[if k < i then k else k + 1];
    }
  }

  /** After the node has been taken out, the loop that walks back up can start. */
  lemma ClimbStart<K>(f: Node<K>, m: Image<K>, t: Tree<K>, ds: seq<bool>, zs: seq<bool>, path: seq<Node?<K>>)
    requires Ok(t) && Distinct(t) && f !in Nodes(t) && Path(t, ds) && Sub(t, ds).Fork?
    requires Sub(t, ds).r.Fork? ==> First(Sub(t, ds).r, zs) && |Way(Sub(t, ds).r, zs)| == |zs|
    requires |Way(t, ds)| == |ds|
    requires Linked(m, f, Fake(f, Lowered(t, ds, Spliced(Sub(t, ds), zs)))) && Distinct(Lowered(t, ds, Spliced(Sub(t, ds), zs)))
    requires f !in Nodes(Lowered(t, ds, Spliced(Sub(t, ds), zs)))
    requires var s := Sub(t, ds);
             path == [f] + Way(t, ds) + if s.r.Leaf? then [] else [Sub(s.r, zs).n] + Way(s.r, zs)
    ensures var s := Sub(t, ds);
            var (u, es) := (Lowered(t, ds, Spliced(s, zs)), ds + SplicedPath(s, zs));
            Climbing(f, m, u, Seq(u), es, path) && Count(u) + 1 == Count(t) && Nodes(Fake(f, u)) == Nodes(u) + {f}
  {
    hide Ok, Stale, StaleHeight, Height, Count, Seq, Nodes, Distinct, Linked, Sub, Path, Way, Lowered, Spliced, First, Fake;
    var s := Sub(t, ds);
    var u, es := Lowered(t, ds, Spliced(s, zs)), SplicedPath(s, zs);
    OkSub(t, ds);
    SplicedOk(s, zs);
    LoweredStale(t, ds, Spliced(s, zs), es);
    SplicedWay(s, zs);
    LoweredWay(t, ds, Spliced(s, zs), es);
    FakeDistinct(f, u);
  }

  lemma FakeDistinct<K>(f: Node<K>, u: Tree<K>)
    requires Distinct(u) && f !in Nodes(u)
    ensures Distinct(Fake(f, u)) && Nodes(Fake(f, u)) == Nodes(u) + {f}
  {
    assert Seq(Fake(f, u)) == Seq(u) + [f] + Seq(Fake(f, u).r) == Seq(u) + [f];
  }

  lemma ReadyIntro<K>(f: Node<K>, m: Image<K>, m1: Image<K>, root: Node?<K>, t: Tree<K>, ds: seq<bool>, p: Node<K>,
                      path: seq<Node?<K>>, dir: seq<bool>)
    requires Linked(m, root, t) && Distinct(t) && f !in Nodes(t) && Path(t, ds) && Linked(m, p, Sub(t, ds))
    requires f in m && m[f] == Rec(root, null, 0, 1) && Shrunk(m, m1, Way(t, ds))
    requires path == [f] + Way(t, ds) && dir == [false] + ds
    ensures Ready(f, m, m1, root, t, ds, p, path, dir)
  {
    ShrunkDropping(m, m1, root, t, ds);
  }

  /** The node is taken out of the tree in one of the three shapes. */
  method Unlink<K>(f: Node<K>, p: Node<K>, path: array<Node?<K>>, dir: array<bool>, d: nat,
                   ghost m: Image<K>, ghost m1: Image<K>, ghost root: Node?<K>, ghost t: Tree<K>, ghost ds: seq<bool>)
    returns (d': nat, ghost zs: seq<bool>, ghost m': Image<K>)
    requires d == |ds| + 1 < path.Length && d < dir.Length && Ready(f, m, m1, root, t, ds, p, path[..d], dir[..d])
    requires Mirrors(m1, Nodes(t) + {f})
    requires Path(t, ds) && d + Height(Sub(t, ds)) <= path.Length && d + Height(Sub(t, ds)) <= dir.Length
    modifies Nodes(t), f, path, dir
    ensures var s := Sub(t, ds);
            s.Fork? && (s.r.Fork? ==> First(s.r, zs) && |Way(s.r, zs)| == |zs|) &&
            Linked(m', f, Fake(f, Lowered(t, ds, Spliced(s, zs)))) &&
            d' == d + |SplicedPath(s, zs)| <= path.Length && d' <= dir.Length &&
            path[..d'] == old(path[..d]) + (if s.r.Leaf? then [] else [Sub(s.r, zs).n] + Way(s.r, zs)) &&
            dir[..d'] == old(dir[..d]) + SplicedPath(s, zs)
    ensures Mirrors(m', Nodes(t) + {f})
  {
    hide Linked, Nodes, Seq, Sub, Path, Way, Dropping, Ready, Lowered, Distinct, Spliced, First, Height;
    ReadyFacts(f, m, m1, root, t, ds, p, path[..d], dir[..d]);
    ghost var s := Sub(t, ds);
    LinkedParts(m1, p, s);
    d', zs := d, [];
    ghost var gp, gd := path[..d], dir[..d];
    if p.p1 == null {
      m' := UnlinkLast(f, p, path, dir, d, m, m1, root, t, ds);
      assert gp == gp + [] && gd == gd + [];
    } else if p.p1.p0 == null {
      m' := UnlinkNear(f, p, path, dir, d, m, m1, root, t, ds);
      d' := d + 1;
      RootWay(s.r);
      assert gp + [s.r.n] == gp + ([s.r.n] + []);
    } else {
      d', zs, m' := UnlinkFar(f, p, path, dir, d, m, m1, root, t, ds);
    }
    if s.r.Fork? {
      FirstParts(m1, p, s, zs);
    }
  }

  /** `s'` is `s` without its `cnt`-th node, `p`. */
  ghost predicate Erased<K>(s: seq<Node<K>>, cnt: nat, p: Node<K>, s': seq<Node<K>>) {
    NodeAt(s, cnt, p) && s' == s[..cnt - 1] + s[cnt..]
  }

  /** The removed node, its position, and the order without it. */
  lemma EraseOrder<K>(t: Tree<K>, ds: seq<bool>, zs: seq<bool>, cnt: nat, p: Node<K>, f: Node<K>)
    requires Ok(t) && Distinct(t) && Path(t, ds) && Sub(t, ds).Fork? && (Sub(t, ds).r.Fork? ==> First(Sub(t, ds).r, zs))
    requires Sub(t, ds).n == p && cnt == |Before(t, ds)| + Sub(t, ds).l.Size() + 1 && f !in Nodes(t)
    ensures var u := Lowered(t, ds, Spliced(Sub(t, ds), zs));
            Erased(Seq(t), cnt, p, Seq(u)) && Distinct(u) && Nodes(u) == Nodes(t) - {p} && f !in Nodes(u)
  {
    LoweredOrder(t, ds, zs, cnt);
  }

  lemma ErasePlace<K>(m: Image<K>, root: Node?<K>, t: Tree<K>, ds: seq<bool>, p: Node<K>)
    requires Linked(m, root, t) && Distinct(t) && Ok(t) && Count(t) < SizeLimit && Path(t, ds) && Linked(m, p, Sub(t, ds))
    ensures |Way(t, ds)| == |ds| && NoDup(Way(t, ds)) && (forall n :: n in Way(t, ds) ==> n in Nodes(t))
    ensures Sub(t, ds).Fork? && Sub(t, ds).n == p && |ds| + Height(Sub(t, ds)) <= 45 && p in Nodes(t)
    ensures Nodes(Sub(t, ds)) <= Nodes(t)
  {
    WayLinked(m, root, t, ds);
    PathLength(t, ds);
    HeightBound(t);
    NodesSub(t, ds);
  }

  lemma FakeTop<K>(f: Node<K>, m: Image<K>, t: Tree<K>)
    requires Linked(m, f, Fake(f, t)) && Distinct(Fake(f, t))
    ensures f in m && Linked(m, m[f].p0, t) && Distinct(t) && Nodes(Fake(f, t)) == Nodes(t) + {f} && f !in Nodes(t)
  {
    LinkedParts(m, f, Fake(f, t));
    assert Nodes(Fake(f, t).r) == {};
  }

  /** Sizes down, node out, balances repaired, under the node above the root. */
  method Remove<K>(fake: Node<K>, p: Node<K>, path: array<Node?<K>>, dir: array<bool>, d0: nat, ghost cnt: nat,
                   ghost m: Image<K>, ghost r: Node?<K>, ghost t: Tree<K>, ghost ds: seq<bool>)
    returns (ghost u: Tree<K>, ghost m': Image<K>)
    requires Mirrors(m, Nodes(t)) && Linked(m, r, t) && Distinct(t) && Ok(t) && Count(t) < SizeLimit
    requires fake !in Nodes(t) && fake.Fields() == Rec(r, null, 0, 1)
    requires Path(t, ds) && Linked(m, p, Sub(t, ds)) && cnt == |Before(t, ds)| + Sub(t, ds).l.Size() + 1
    requires path.Length == MaxDepth && dir.Length == MaxDepth && d0 == |ds| + 1 < 46
    requires path[..d0] == [fake] + Way(t, ds) && dir[..d0] == [false] + ds
    modifies Nodes(t), fake, path, dir
    ensures Ok(u) && Count(u) + 1 == Count(t) && Distinct(u) && Erased(Seq(t), cnt, p, Seq(u)) && Nodes(u) <= Nodes(t)
    ensures Linked(m', fake.p0, u) && Mirrors(m', Nodes(u))
  {
    hide Linked, Nodes, Seq, Way, Sub, Path, Ok, Count, Distinct, Height, Ready, Climbing, Lowered, Spliced, Erased, Before;
    ghost var gp, gd := path[..d0], dir[..d0];
    assert gp[1..] == Way(t, ds) && path[1..d0] == gp[1..];
    ErasePlace(m, r, t, ds, p);
    ghost var m0: Image<K> := m[fake := fake.Fields()];
    LinkedKept(m, m0, r, t);
    LinkedKept(m, m0, p, Sub(t, ds));
    ghost var m1 := DropSizes(path, 1, d0, m0, Nodes(t) + {fake}, Way(t, ds));
    ReadyIntro(fake, m0, m1, r, t, ds, p, gp, gd);
    assert path[..d0] == gp && dir[..d0] == gd;
    var d;
    ghost var zs, m2;
    d, zs, m2 := Unlink(fake, p, path, dir, d0, m0, m1, r, t, ds);
    ghost var s := Sub(t, ds);
    ghost var u0, es := Lowered(t, ds, Spliced(s, zs)), ds + SplicedPath(s, zs);
    EraseOrder(t, ds, zs, cnt, p, fake);
    ClimbStart(fake, m2, t, ds, zs, path[..d]);
    assert dir[..d] == [false] + es;
    u, m' := Climb(fake, path, dir, d, m2, u0, Seq(u0), es);
    FakeTop(fake, m', u);
  }
}
