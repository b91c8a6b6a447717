/** What one insertion does to a stored tree, and why one rotation repairs it; likewise for a removal.
    Also how high a tree can be. */
module AvlSteps {
  import opened AvlTree

  // ----- Height -----

  /** The least number of nodes of an AVL tree of height `h`. */
  ghost function MinNodes(h: nat): nat {
    if h == 0 then 0 else if h == 1 then 1 else MinNodes(h - 1) + MinNodes(h - 2) + 1
  }

  lemma {:induction false} MinNodesMonotone(g: nat, h: nat)
    requires g <= h
    ensures MinNodes(g) <= MinNodes(h)
  {
    if g < h {
      MinNodesMonotone(g, h - 1);
    }
  }

  lemma {:induction false} CountAtLeast<K>(t: Tree<K>)
    requires Ok(t)
    ensures MinNodes(Height(t)) <= Count(t)
  {
    if t.Fork? {
      CountAtLeast(t.l);
      CountAtLeast(t.r);
      if Height(t) > 1 {
        MinNodesMonotone(Height(t) - 2, Height(t.l));
        MinNodesMonotone(Height(t) - 2, Height(t.r));
      }
    }
  }

  const SizeLimit: nat := 0x1_0000_0000

  lemma EightHigher(h: nat, a: nat, b: nat)
    requires MinNodes(h) == a && MinNodes(h + 1) == b
    ensures MinNodes(h + 8) == 21 * b + 13 * a + 33
    ensures MinNodes(h + 9) == 34 * b + 21 * a + 54
  {
    assert MinNodes(h + 3) == 2 * b + a + 2;
    assert MinNodes(h + 5) == 5 * b + 3 * a + 7;
    assert MinNodes(h + 7) == 13 * b + 8 * a + 20;
  }

  lemma Min46()
    ensures MinNodes(46) >= SizeLimit
  {
    EightHigher(0, 0, 1);
    EightHigher(8, 54, 88);
    EightHigher(16, 2583, 4180);
    EightHigher(24, 121392, 196417);
    EightHigher(32, 5702886, 9227464);
    var a, b := MinNodes(40), MinNodes(41);
    assert MinNodes(43) == 2 * b + a + 2;
    assert MinNodes(45) == 5 * b + 3 * a + 7;
  }

  /** A tree whose 32-bit size field does not wrap is at most 45 high. */
  lemma HeightBound<K>(t: Tree<K>)
    requires Ok(t) && Count(t) < 0x1_0000_0000
    ensures Height(t) <= 45
  {
    CountAtLeast(t);
    Min46();
    if Height(t) >= 46 {
      MinNodesMonotone(46, Height(t));
    }
  }

  // ----- Growth -----

  ghost function Lean(d: bool): int { if d then 1 else -1 }

  /** The tree after `kavl_insert` has linked `x` at the end of `ds`, counted it in every size on the way,
      and tilted the balances from depth `k` on. */
  ghost function Grown<K>(t: Tree<K>, ds: seq<bool>, x: Node<K>, k: int): Tree<K>
    requires Path(t, ds)
  {
    if ds == [] then Fork(x, 0, 1, Leaf, Leaf)
    else t.With(ds[0], Grown(t.Kid(ds[0]), ds[1..], x, k - 1),
                t.bal + (if k <= 0 then Lean(ds[0]) else 0), t.size + 1)
  }

  /** All balances on the way are zero. */
  ghost predicate Flat<K>(t: Tree<K>, ds: seq<bool>)
    requires Path(t, ds)
  {
    ds == [] || (t.bal == 0 && Flat(t.Kid(ds[0]), ds[1..]))
  }

  lemma {:induction false} GrownSeq<K>(t: Tree<K>, ds: seq<bool>, x: Node<K>, k: int)
    requires Path(t, ds) && Sub(t, ds) == Leaf
    ensures Seq(Grown(t, ds, x, k)) == Before(t, ds) + [x] + After(t, ds)
  {
    if ds != [] {
      var kid := t.Kid(ds[0]);
      GrownSeq(kid, ds[1..], x, k - 1);
      var a, b := Before(kid, ds[1..]), After(kid, ds[1..]);
      if ds[0] {
        assert Seq(t.l) + [t.n] + (a + [x] + b) == Seq(t.l) + [t.n] + a + [x] + b;
      } else {
        assert (a + [x] + b) + [t.n] + Seq(t.r) == a + [x] + (b + ([t.n] + Seq(t.r)));
      }
    }
  }

  /** Below a run of level nodes an insertion makes every subtree on the way one higher. */
  lemma {:induction false} FlatGrows<K>(t: Tree<K>, ds: seq<bool>, x: Node<K>, k: int)
    requires Path(t, ds) && Sub(t, ds) == Leaf && Flat(t, ds) && Ok(t) && k <= 0
    ensures Ok(Grown(t, ds, x, k)) && Height(Grown(t, ds, x, k)) == Height(t) + 1
    ensures Count(Grown(t, ds, x, k)) == Count(t) + 1
    ensures ds != [] ==> Grown(t, ds, x, k).bal != 0
  {
    if ds != [] {
      FlatGrows(t.Kid(ds[0]), ds[1..], x, k - 1);
    } else {
      assert OkRoot(Grown(t, ds, x, k));
    }
  }

  /** The children the rotation at `g` reaches for exist. */
  ghost predicate CanRebalance<K>(g: Tree<K>)
    requires g.Fork?
  {
    g.bal < -1 || g.bal > 1 ==>
      var dir := g.bal < 0;
      g.Kid(!dir).Fork? &&
      g.Kid(!dir).bal != 0 && (g.Kid(!dir).bal == (if dir then -1 else 1) || g.Kid(!dir).Kid(dir).Fork?)
  }

  /** The rebalancing at the end of `kavl_insert`, at its node `bp`. */
  ghost function Rebalanced<K>(g: Tree<K>): Tree<K>
    requires g.Fork? && CanRebalance(g)
  {
    if -2 < g.bal < 2 then g else
    var dir := g.bal < 0;
    if g.Kid(!dir).bal == if dir then -1 else 1 then Single(g, dir) else Rot2(g, dir)
  }

  lemma RebalancedSeq<K>(g: Tree<K>)
    requires g.Fork? && CanRebalance(g)
    ensures Seq(Rebalanced(g)) == Seq(g) && Nodes(Rebalanced(g)) == Nodes(g)
  {
    if !(-2 < g.bal < 2) {
      var dir := g.bal < 0;
      if g.Kid(!dir).bal == if dir then -1 else 1 {
        Rot1Seq(g, dir);
        assert Seq(Single(g, dir).Kid(dir)) == Seq(Rot1(g, dir).Kid(dir));
      } else {
        Rot2Seq(g, dir);
      }
    }
  }

  /** The lowest unbalanced node on the way absorbs the growth: after the rotation its subtree is as high
      as before. A level root (the case of a way without unbalanced nodes) just grows. */
  lemma Absorbs<K>(t: Tree<K>, ds: seq<bool>, x: Node<K>)
    requires Path(t, ds) && Sub(t, ds) == Leaf && Ok(t)
    requires ds != [] && Flat(t.Kid(ds[0]), ds[1..])
    ensures CanRebalance(Grown(t, ds, x, 0))
    ensures var r := Rebalanced(Grown(t, ds, x, 0));
            Ok(r) && Count(r) == Count(t) + 1 && Seq(r) == Seq(Grown(t, ds, x, 0)) &&
            (t.bal != 0 ==> Height(r) == Height(t))
  {
    FlatGrows(t.Kid(ds[0]), ds[1..], x, -1);
    var g := Grown(t, ds, x, 0);
    var dir := g.bal < 0;
    if g.bal < -1 || g.bal > 1 {
      assert ds[0] == !dir;
      assert Height(t.Kid(ds[0])) >= 1;
      assert ds[1..] != [];
      assert Heavy(g, dir);
      SingleRepairs(g, dir);
      if g.Kid(!dir).bal == if dir then -1 else 1 {
        Rot1Seq(g, dir);
        assert Seq(Single(g, dir).Kid(dir)) == Seq(Rot1(g, dir).Kid(dir));
      } else {
        DoubleRepairs(g, dir);
        Rot2Seq(g, dir);
      }
    }
  }

  /** Above the node that absorbed the growth only the sizes change. */
  lemma {:induction false} GrownAbove<K>(t: Tree<K>, ds: seq<bool>, x: Node<K>, k: nat, r: Tree<K>)
    requires Path(t, ds) && k < |ds| && Ok(t)
    requires Path(t, ds[..k]) && Path(Grown(t, ds, x, k), ds[..k])
    requires Ok(r) && (k > 0 ==> Height(r) == Height(Sub(t, ds[..k]))) && Count(r) == Count(Sub(t, ds[..k])) + 1
    ensures Ok(Replace(Grown(t, ds, x, k), ds[..k], r))
    ensures Count(Replace(Grown(t, ds, x, k), ds[..k], r)) == Count(t) + 1
    ensures k > 0 ==> Height(Replace(Grown(t, ds, x, k), ds[..k], r)) == Height(t)
  {
    if k > 0 {
      assert ds[..k][1..] == ds[1..][..k - 1];
      GrownAbove(t.Kid(ds[0]), ds[1..], x, k - 1, r);
    }
  }

  lemma {:induction false} GrownSub<K>(t: Tree<K>, ds: seq<bool>, x: Node<K>, k: int, i: nat)
    requires Path(t, ds) && i <= |ds|
    ensures Path(t, ds[..i]) && Path(Grown(t, ds, x, k), ds[..i])
    ensures Path(Sub(t, ds[..i]), ds[i..])
    ensures Sub(Grown(t, ds, x, k), ds[..i]) == Grown(Sub(t, ds[..i]), ds[i..], x, k - i)
  {
    if i > 0 {
      assert ds[..i][1..] == ds[1..][..i - 1];
      assert ds[i..] == ds[1..][i - 1..];
      GrownSub(t.Kid(ds[0]), ds[1..], x, k - 1, i - 1);
    } else {
      assert ds[i..] == ds;
    }
  }

  lemma {:induction false} GrownWay<K>(t: Tree<K>, ds: seq<bool>, x: Node<K>, k: int, i: nat)
    requires Path(t, ds) && i <= |ds| && Path(Grown(t, ds, x, k), ds[..i]) && |Way(t, ds)| == |ds|
    ensures Way(Grown(t, ds, x, k), ds[..i]) == Way(t, ds)[..i]
  {
    if i > 0 {
      assert ds[..i][1..] == ds[1..][..i - 1];
      GrownWay(t.Kid(ds[0]), ds[1..], x, k - 1, i - 1);
    } else {
      assert ds[..i] == [];
    }
  }

  lemma {:induction false} WaySuffix<K>(t: Tree<K>, ds: seq<bool>, i: nat)
    requires Path(t, ds) && i <= |ds| && |Way(t, ds)| == |ds|
    ensures Path(t, ds[..i]) && Path(Sub(t, ds[..i]), ds[i..])
    ensures Way(Sub(t, ds[..i]), ds[i..]) == Way(t, ds)[i..]
  {
    if i > 0 {
      assert ds[..i][1..] == ds[1..][..i - 1];
      assert ds[i..] == ds[1..][i - 1..];
      WaySuffix(t.Kid(ds[0]), ds[1..], i - 1);
    } else {
      assert ds[..i] == [] && ds[i..] == ds;
    }
  }

  /** The whole of an insertion below `bp`, the node at depth `k`: if all nodes below it on the way are level
      and it is itself unbalanced or the root, growing and rebalancing there gives a valid tree again. */
  lemma InsertionOk<K>(t: Tree<K>, ds: seq<bool>, x: Node<K>, k: nat)
    requires Ok(t) && Path(t, ds) && Sub(t, ds) == Leaf && k < |ds| && |Way(t, ds)| == |ds|
    requires Path(t, ds[..k + 1]) && Path(Sub(t, ds[..k + 1]), ds[k + 1..]) && Flat(Sub(t, ds[..k + 1]), ds[k + 1..])
    requires k > 0 ==> Path(t, ds[..k]) && Sub(t, ds[..k]).Fork? && Sub(t, ds[..k]).bal != 0
    ensures var g := Grown(t, ds, x, k);
            Path(g, ds[..k]) && Sub(g, ds[..k]).Fork? && CanRebalance(Sub(g, ds[..k])) &&
            Sub(g, ds[..k]).n == Way(t, ds)[k] && Way(g, ds[..k]) == Way(t, ds)[..k] &&
            Ok(Replace(g, ds[..k], Rebalanced(Sub(g, ds[..k])))) &&
            Count(Replace(g, ds[..k], Rebalanced(Sub(g, ds[..k])))) == Count(t) + 1 &&
            Seq(Replace(g, ds[..k], Rebalanced(Sub(g, ds[..k])))) == Seq(g) &&
            Nodes(Replace(g, ds[..k], Rebalanced(Sub(g, ds[..k])))) == Nodes(g) &&
            (Distinct(g) ==> Distinct(Replace(g, ds[..k], Rebalanced(Sub(g, ds[..k])))))
  {
    hide Ok, Count, Height, Flat;
    PathPrefix(t, ds, k);
    var s, rest, g := Sub(t, ds[..k]), ds[k..], Grown(t, ds, x, k);
    assert rest[1..] == ds[k + 1..];
    assert ds[..k + 1] == ds[..k] + [ds[k]];
    PathSnoc(t, ds[..k], ds[k]);
    OkSub(t, ds[..k]);
    Absorbs(s, rest, x);
    GrownSub(t, ds, x, k, k);
    GrownAbove(t, ds, x, k, Rebalanced(Grown(s, rest, x, 0)));
    GrownWay(t, ds, x, k, k);
    WaySuffix(t, ds, k);
    SeqReplace(g, ds[..k], Rebalanced(Sub(g, ds[..k])));
    SeqSplit(g, ds[..k]);
  }

  // ----- Shrinking -----

  /** The tree after `kavl_erase` has put `s` in place of the subtree at `ds` and taken one off every size
      on the way; the balances are not yet touched. */
  ghost function Lowered<K>(t: Tree<K>, ds: seq<bool>, s: Tree<K>): Tree<K>
    requires Path(t, ds)
  {
    if ds == [] then s else t.With(ds[0], Lowered(t.Kid(ds[0]), ds[1..], s), t.bal, t.size - 1)
  }

  /** The height `t` had while its subtree at `ds` was one higher. */
  ghost function StaleHeight<K>(t: Tree<K>, ds: seq<bool>): nat
    requires Path(t, ds)
  {
    if ds == [] then Height(t) + 1
    else 1 + Max(StaleHeight(t.Kid(ds[0]), ds[1..]), Height(t.Kid(!ds[0])))
  }

  /** A valid tree but for the balances along `ds`, which are right for a subtree at `ds` one higher than
      the one that is there. */
  ghost predicate Stale<K>(t: Tree<K>, ds: seq<bool>)
    requires Path(t, ds)
  {
    if ds == [] then Ok(t)
    else
      Stale(t.Kid(ds[0]), ds[1..]) && Ok(t.Kid(!ds[0])) && t.size == Count(t) && -1 <= t.bal <= 1 &&
      t.bal == Lean(ds[0]) * (StaleHeight(t.Kid(ds[0]), ds[1..]) - Height(t.Kid(!ds[0])))
  }

  lemma {:induction false} LoweredPath<K>(t: Tree<K>, ds: seq<bool>, s: Tree<K>)
    requires Path(t, ds)
    ensures Path(Lowered(t, ds, s), ds) && Sub(Lowered(t, ds, s), ds) == s
    ensures Before(Lowered(t, ds, s), ds) == Before(t, ds) && After(Lowered(t, ds, s), ds) == After(t, ds)
  {
    if ds != [] {
      LoweredPath(t.Kid(ds[0]), ds[1..], s);
    }
  }

  lemma LoweredSeq<K>(t: Tree<K>, ds: seq<bool>, s: Tree<K>)
    requires Path(t, ds)
    ensures Seq(Lowered(t, ds, s)) == Before(t, ds) + Seq(s) + After(t, ds)
  {
    LoweredPath(t, ds, s);
    SeqSplit(Lowered(t, ds, s), ds);
  }

  lemma {:induction false} LoweredStale<K>(t: Tree<K>, ds: seq<bool>, s: Tree<K>, es: seq<bool>)
    requires Path(t, ds) && Ok(t)
    requires Path(s, es) && Stale(s, es) && StaleHeight(s, es) == Height(Sub(t, ds)) && Count(s) + 1 == Count(Sub(t, ds))
    ensures Path(Lowered(t, ds, s), ds + es)
    ensures Stale(Lowered(t, ds, s), ds + es)
    ensures StaleHeight(Lowered(t, ds, s), ds + es) == Height(t)
    ensures Count(Lowered(t, ds, s)) + 1 == Count(t)
    ensures Sub(Lowered(t, ds, s), ds + es) == Sub(s, es)
  {
    hide Ok, Stale, StaleHeight, Height, Count, Lowered, Sub, Path;
    LoweredParts(t, ds, s);
    if ds != [] {
      OkParts(t, ds[0]);
      LoweredStale(t.Kid(ds[0]), ds[1..], s, es);
      StaleAbove(t, ds[0], Lowered(t.Kid(ds[0]), ds[1..], s), ds[1..] + es);
      assert ds + es == [ds[0]] + (ds[1..] + es);
    } else {
      assert ds + es == es;
    }
  }

  lemma LoweredParts<K>(t: Tree<K>, ds: seq<bool>, s: Tree<K>)
    requires Path(t, ds)
    ensures if ds == [] then Lowered(t, ds, s) == s && Sub(t, ds) == t
            else t.Fork? && Path(t.Kid(ds[0]), ds[1..]) && Sub(t, ds) == Sub(t.Kid(ds[0]), ds[1..]) &&
                 Lowered(t, ds, s) == t.With(ds[0], Lowered(t.Kid(ds[0]), ds[1..], s), t.bal, t.size - 1)
  {
  }

  lemma OkParts<K>(t: Tree<K>, d: bool)
    requires t.Fork? && Ok(t)
    ensures Ok(t.Kid(d)) && Ok(t.Kid(!d)) && OkRoot(t)
  {
  }

  /** A node over a kid that has become stale. */
  lemma StaleAbove<K>(t: Tree<K>, d: bool, low: Tree<K>, es: seq<bool>)
    requires t.Fork? && Ok(t) && Path(low, es) && Stale(low, es) && StaleHeight(low, es) == Height(t.Kid(d)) && Count(low) + 1 == Count(t.Kid(d))
    ensures var u := t.With(d, low, t.bal, t.size - 1);
            Path(u, [d] + es) && Stale(u, [d] + es) && StaleHeight(u, [d] + es) == Height(t) && Count(u) + 1 == Count(t) &&
            Sub(u, [d] + es) == Sub(low, es)
  {
    OkParts(t, d);
    var u := t.With(d, low, t.bal, t.size - 1);
    assert ([d] + es)[1..] == es && u.Kid(d) == low && u.Kid(!d) == t.Kid(!d);
    assert StaleHeight(u, [d] + es) == 1 + Max(StaleHeight(low, es), Height(t.Kid(!d)));
    assert Count(u) == 1 + Count(low) + Count(t.Kid(!d));
  }

  /** `zs` leads down the left to the first node of `t`. */
  ghost predicate First<K>(t: Tree<K>, zs: seq<bool>) {
    Path(t, zs) && (forall i :: 0 <= i < |zs| ==> !zs[i]) && Sub(t, zs).Fork? && Sub(t, zs).l == Leaf
  }

  lemma {:induction false} FirstSeq<K>(t: Tree<K>, zs: seq<bool>)
    requires First(t, zs)
    ensures Before(t, zs) == [] && Seq(t) == [Sub(t, zs).n] + Seq(Sub(t, zs).r) + After(t, zs)
  {
    if zs != [] {
      assert !zs[0];
      FirstSeq(t.l, zs[1..]);
      assert Seq(t) == Seq(t.l) + [t.n] + Seq(t.r);
    } else {
      assert Seq(t) == Seq(t.l) + [t.n] + Seq(t.r) && Seq(t.l) == [];
    }
  }

  /** What `kavl_erase` puts in place of the subtree it deletes the root of: the left subtree if there is no
      right one, else the first node of the right subtree, at the end of `zs`, over the two subtrees. */
  ghost function Spliced<K>(p: Tree<K>, zs: seq<bool>): Tree<K>
    requires p.Fork? && (p.r.Fork? ==> First(p.r, zs))
  {
    if p.r.Leaf? then p.l
    else Fork(Sub(p.r, zs).n, p.bal, p.size - 1, p.l, Lowered(p.r, zs, Sub(p.r, zs).r))
  }

  /** The way from there to the place that has become one lower. */
  ghost function SplicedPath<K>(p: Tree<K>, zs: seq<bool>): seq<bool>
    requires p.Fork?
  {
    if p.r.Leaf? then [] else [true] + zs
  }

  lemma SplicedSeq<K>(p: Tree<K>, zs: seq<bool>)
    requires p.Fork? && (p.r.Fork? ==> First(p.r, zs))
    ensures Seq(Spliced(p, zs)) == Seq(p.l) + Seq(p.r)
  {
    if p.r.Fork? {
      var r, b := Sub(p.r, zs), After(p.r, zs);
      FirstSeq(p.r, zs);
      LoweredSeq(p.r, zs, r.r);
      assert Seq(Spliced(p, zs)) == Seq(p.l) + [r.n] + (Before(p.r, zs) + Seq(r.r) + b);
    } else {
      assert Seq(p.r) == [];
    }
  }

  lemma SplicedOk<K>(p: Tree<K>, zs: seq<bool>)
    requires p.Fork? && (p.r.Fork? ==> First(p.r, zs)) && Ok(p)
    ensures var (s, es) := (Spliced(p, zs), SplicedPath(p, zs));
            Path(s, es) && Stale(s, es) && StaleHeight(s, es) == Height(p) && Count(s) + 1 == Count(p)
  {
    if p.r.Fork? {
      hide Seq;
      var r := Sub(p.r, zs);
      assert Ok(r) by {
        OkSub(p.r, zs);
      }
      assert Height(r) == Height(r.r) + 1 && Count(r) == Count(r.r) + 1 && Ok(r.r);
      LoweredStale(p.r, zs, r.r, []);
      assert zs + [] == zs;
      var es := [true] + zs;
      assert es[1..] == zs && es[0];
    }
  }

  /** The children the rotation at `t` reaches for exist. */
  ghost predicate CanSettle<K>(t: Tree<K>, which: bool)
    requires t.Fork?
  {
    t.bal - Lean(which) == -2 * Lean(which) ==>
      var r := t.Kid(!which);
      r.Fork? && (r.bal == Lean(which) ==> r.Kid(which).Fork?)
  }

  /** One round of the loop that walks back up in `kavl_erase`, at a node whose subtree on side `which` has
      become one lower. */
  ghost function Settled<K>(t: Tree<K>, which: bool): Tree<K>
    requires t.Fork? && CanSettle(t, which)
  {
    var b := t.bal - Lean(which);
    var q := Fork(t.n, b, t.size, t.l, t.r);
    if b != -2 * Lean(which) then q
    else if t.Kid(!which).bal == Lean(which) then Rot2(q, which) else Single(q, which)
  }

  /** The round leaves the node's subtree valid and either as high as it was before the removal, and then
      the loop stops, or one lower, and then the loop goes on. */
  lemma SettledOk<K>(t: Tree<K>, which: bool)
    requires t.Fork? && Stale(t, [which])
    ensures CanSettle(t, which)
    ensures var s := Settled(t, which);
            Ok(s) && Count(s) == Count(t) && Seq(s) == Seq(t) &&
            StaleHeight(t, [which]) ==
              Height(s) + if t.bal == 0 || (t.bal == -Lean(which) && t.Kid(!which).bal == 0) then 0 else 1
  {
    assert [which][1..] == [];
    assert Ok(t.Kid(which)) && Ok(t.Kid(!which));
    var b := t.bal - Lean(which);
    var q := Fork(t.n, b, t.size, t.l, t.r);
    assert q.bal == Height(q.r) - Height(q.l);
    assert Height(q) == Height(t) && Count(q) == Count(t) && Seq(q) == Seq(t);
    if b == -2 * Lean(which) {
      assert Heavy(q, which);
      SingleRepairs(q, which);
      if t.Kid(!which).bal == Lean(which) {
        DoubleRepairs(q, which);
        Rot2Seq(q, which);
      } else {
        Rot1Seq(q, which);
        assert Seq(Single(q, which).Kid(which)) == Seq(Rot1(q, which).Kid(which));
      }
    } else {
      assert OkRoot(q);
    }
  }

  /** Putting back a subtree of the old height at the end of a stale path leaves a valid tree; putting back
      one that is one lower makes the path one shorter. */
  lemma {:induction false} StaleReplace<K>(t: Tree<K>, ds: seq<bool>, which: bool, s: Tree<K>)
    requires Path(t, ds + [which]) && Path(t, ds) && Stale(t, ds + [which]) && Path(Sub(t, ds), [which])
    requires Ok(s) && Count(s) == Count(Sub(t, ds))
    ensures Path(Replace(t, ds, s), ds)
    ensures Count(Replace(t, ds, s)) == Count(t)
    ensures Height(s) == StaleHeight(Sub(t, ds), [which]) ==>
              Ok(Replace(t, ds, s)) && Height(Replace(t, ds, s)) == StaleHeight(t, ds + [which])
    ensures Height(s) + 1 == StaleHeight(Sub(t, ds), [which]) ==>
              Stale(Replace(t, ds, s), ds) && StaleHeight(Replace(t, ds, s), ds) == StaleHeight(t, ds + [which])
  {
    if ds != [] {
      assert (ds + [which])[1..] == ds[1..] + [which];
      StaleReplace(t.Kid(ds[0]), ds[1..], which, s);
    } else {
      assert ds + [which] == [which];
    }
  }

  lemma {:induction false} StaleSub<K>(t: Tree<K>, ds: seq<bool>, which: bool)
    requires Path(t, ds + [which]) && Stale(t, ds + [which])
    ensures Path(t, ds) && Sub(t, ds).Fork? && Stale(Sub(t, ds), [which])
  {
    if ds != [] {
      assert (ds + [which])[1..] == ds[1..] + [which];
      StaleSub(t.Kid(ds[0]), ds[1..], which);
    } else {
      assert ds + [which] == [which];
    }
  }
}
