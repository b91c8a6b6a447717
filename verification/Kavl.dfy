/** The in-place AVL tree of `nfq2/kavl.h`: search, insertion and removal, with the fixed-depth path arrays
    of the original. */
module Kavl {
  import opened AvlTree
  import opened AvlSteps
  import opened KavlNodes
  import opened KavlErase
  import opened Wrappers

  lemma FirstCount<K>(t: Tree<K>, ds: seq<bool>)
    requires First(t, ds)
    ensures Path(t, ds) && Sub(t, ds).Fork? && |Before(t, ds)| + Sub(t, ds).l.Size() + 1 == 1
  {
    FirstSeq(t, ds);
  }

  class KavlTree<K> {
    const cmp: (K, K) -> int
    var root: Node?<K>
    ghost var tree: Tree<K>
    ghost var image: Image<K>

    ghost predicate Valid()
      reads this, Nodes(tree)
    {
      Mirrors(image, Nodes(tree)) && Linked(image, root, tree) && Distinct(tree) && Ok(tree) && Count(tree) < SizeLimit
    }

    constructor (cmp: (K, K) -> int)
      ensures Valid() && Seq(tree) == [] && this.cmp == cmp
    {
      this.cmp := cmp;
      root, tree, image := null, Leaf, map[];
    }

    /** `kavl_find`: a node that compares equal, if there is one, and how many nodes are not greater. */
    method Find(x: K) returns (p: Node?<K>, cnt: nat)
      requires Valid() && Separates(cmp, x, Seq(tree))
      ensures p == null ==> forall n :: n in Seq(tree) ==> cmp(x, n.key) != 0
      ensures p == null ==> cnt <= |Seq(tree)| && AllAbove(cmp, x, Seq(tree)[..cnt]) && AllBelow(cmp, x, Seq(tree)[cnt..])
      ensures p != null ==> NodeAt(Seq(tree), cnt, p) && cmp(x, p.key) == 0
    {
      hide Linked, Nodes, Seq, Path, Sub, Height, Before, After, AllAbove, AllBelow, At;
      ghost var t, m := tree, image;
      ghost var ds: seq<bool> := [];
      p, cnt := root, 0;
      SearchStart(cmp, x, m, p, t);
      while p != null
        invariant At(cmp, x, t, ds) && Path(t, ds) && Linked(m, p, Sub(t, ds)) && cnt == |Before(t, ds)|
        decreases Height(Sub(t, ds))
      {
        LocateFacts(cmp, x, m, p, t, ds);
        var c := cmp(x, p.key);
        if c >= 0 {
          cnt := cnt + SizeOf(p.p0) + 1;
        }
        if c < 0 {
          SearchStep(cmp, x, m, p, t, ds, false);
          p, ds := p.p0, ds + [false];
        } else if c > 0 {
          SearchStep(cmp, x, m, p, t, ds, true);
          p, ds := p.p1, ds + [true];
        } else {
          return;
        }
      }
      SearchEnd(cmp, x, m, t, ds);
    }

    /** The first loop of `kavl_insert`: the way to the place of `x` in `path`, the directions from the
        lowest unbalanced node `bp` on in `stack`, and that node's parent `bq`. */
    method Locate(x: K, path: array<Node?<K>>, stack: array<bool>)
      returns (found: Node?<K>, bp: Node?<K>, bq: Node?<K>, q: Node?<K>, which: bool, top: nat, pathLen: nat, cnt: nat,
               ghost ds: seq<bool>, ghost k: nat)
      requires Valid() && Separates(cmp, x, Seq(tree)) && path.Length == MaxDepth && stack.Length == MaxDepth
      modifies path, stack
      ensures found != null ==> NodeAt(Seq(tree), cnt, found) && cmp(x, found.key) == 0
      ensures found == null ==> At(cmp, x, tree, ds) && Sub(tree, ds) == Leaf && cnt == |Before(tree, ds)|
      ensures found == null ==> pathLen <= MaxDepth && top <= MaxDepth && Marked(image, tree, ds, k, path[..pathLen], stack[..top], bp, bq, q, which) && (ds == [] ==> bp == null)
    {
      hide Before, After, Seq, Sub, Path, Way, Height, Linked, Marked, Nodes;
      ghost var t, m := tree, image;
      LocateStart(cmp, x, m, root, t);
      ghost var gp: seq<Node?<K>>, gs: seq<bool> := [], [];
      var p := root;
      bp, bq, q, which, top, pathLen, cnt := root, null, null, false, 0, 0, 0;
      ds, k := [], 0;
      found := null;
      while p != null
        invariant Locating(cmp, x, m, t, ds, k, p, cnt, gp, gs, bp, bq, q, which)
        invariant pathLen <= MaxDepth && top <= MaxDepth && gp == path[..pathLen] && gs == stack[..top]
        decreases Height(Sub(t, ds))
      {
        LocateFacts(cmp, x, m, p, t, ds);
        var c := cmp(x, p.key);
        if c == 0 {
          cnt := cnt + SizeOf(p.p0) + 1;
          found := p;
          return;
        }
        LocateStep(cmp, x, m, t, ds, k, p, cnt, gp, gs, bp, bq, q, which, c > 0);
        if c >= 0 {
          cnt := cnt + SizeOf(p.p0) + 1;
        }
        if p.balance != 0 {
          bq, bp, top := q, p, 0;
          k, gs := |ds|, [];
          assert gs + [c > 0] == [c > 0];
        }
        which := c > 0;
        Record(path, pathLen, p, stack, top, which);
        top, pathLen, gs, gp := top + 1, pathLen + 1, gs + [which], gp + [p];
        ds := ds + [which];
        q, p := p, p.P(which);
      }
      LocateEnd(cmp, x, m, t, ds);
    }

    /** The end of `kavl_insert`: rotate at `bp` if its balance has left -1..1, and relink its parent. */
    method Rebalance(bp: Node<K>, bq: Node?<K>, ghost m: Image<K>, ghost g: Tree<K>, ghost ds: seq<bool>)
      returns (ghost m': Image<K>)
      requires Mirrors(m, Nodes(g)) && Linked(m, root, g) && Distinct(g) && Path(g, ds) && |Way(g, ds)| == |ds|
      requires Sub(g, ds).Fork? && Sub(g, ds).n == bp && CanRebalance(Sub(g, ds))
      requires bq == if ds == [] then null else Way(g, ds)[|ds| - 1]
      modifies this`root, Nodes(g)
      ensures Mirrors(m', Nodes(g)) && Linked(m', root, Replace(g, ds, Rebalanced(Sub(g, ds))))
    {
      hide Linked, Nodes, Seq, Way, Sub, Path, Replace;
      ghost var s := Sub(g, ds);
      SubLinked(m, root, g, ds);
      if -2 < bp.balance < 2 {
        ReplaceSame(g, ds);
        return m;
      }
      var r: Node<K>;
      ghost var m1;
      r, m1 := RotateHeavy(bp, s, m);
      if bq == null {
        root, m' := r, m1;
        ReplaceRoot(g, Rebalanced(s));
      } else {
        ParentLink(m, root, g, ds);
        bq.SetP(bp != bq.p0, r);
        m' := RelinkParent(m, m1, g, ds, root, bq, r, Rebalanced(s));
      }
    }

    /** `q->p[which] = x`. */
    method LinkLast(x: Node<K>, q: Node<K>, which: bool, ghost m: Image<K>, ghost r: Node?<K>, ghost t: Tree<K>,
                    ghost ds: seq<bool>, ghost k: nat)
      returns (ghost m': Image<K>)
      requires Linked(m, r, t) && Distinct(t) && Path(t, ds) && |Way(t, ds)| == |ds| > 0 && x !in Nodes(t)
      requires q == Way(t, ds)[|ds| - 1] && q in Nodes(t) && which == ds[|ds| - 1]
      requires Mirrors(m, Nodes(t)) && x.Fields() == Rec(null, null, 0, 1)
      modifies q
      ensures Mirrors(m', Nodes(t) + {x}) && Growing(m, m', t, ds, x, k, 0, k) && m'[x] == Rec(null, null, 0, 1)
    {
      hide Linked, Nodes, Seq, Way, Path, Growing;
      q.SetP(which, x);
      m' := m[x := x.Fields()][q := q.Fields()];
      LinkedLast(m, m', r, t, ds, x, q, k);
    }

    /** `kavl_insert` from the linking of `x` on. */
    method Grow(x: Node<K>, bp: Node<K>, bq: Node?<K>, path: array<Node?<K>>, pathLen: nat, stack: array<bool>,
                ghost m: Image<K>, ghost m0: Image<K>, ghost r: Node?<K>, ghost t: Tree<K>, ghost ds: seq<bool>, ghost k: nat)
      returns (ghost t': Tree<K>, ghost m': Image<K>)
      requires Linked(m, r, t) && Distinct(t) && Ok(t) && Path(t, ds) && Sub(t, ds) == Leaf && x !in Nodes(t)
      requires |Way(t, ds)| == |ds| && NoDup(Way(t, ds)) && forall n :: n in Way(t, ds) ==> n in Nodes(t)
      requires pathLen == |ds| <= path.Length && path[..pathLen] == Way(t, ds)
      requires k < |ds| && bp == Way(t, ds)[k] && bq == if k == 0 then null else Way(t, ds)[k - 1]
      requires |ds| - k <= stack.Length && stack[..|ds| - k] == ds[k..]
      requires Path(t, ds[..k + 1]) && Path(Sub(t, ds[..k + 1]), ds[k + 1..]) && Flat(Sub(t, ds[..k + 1]), ds[k + 1..])
      requires k > 0 ==> Path(t, ds[..k]) && Sub(t, ds[..k]).Fork? && Sub(t, ds[..k]).bal != 0
      requires Mirrors(m0, Nodes(t) + {x}) && Growing(m, m0, t, ds, x, k, 0, k) && m0[x] == Rec(null, null, 0, 1)
      requires Distinct(Grown(t, ds, x, k)) && Nodes(Grown(t, ds, x, k)) == Nodes(t) + {x} && root == r
      modifies this`root, Nodes(t), x
      ensures Ok(t') && Count(t') == Count(t) + 1 && Distinct(t') && Seq(t') == Seq(Grown(t, ds, x, k))
      ensures Nodes(t') == Nodes(t) + {x} && Mirrors(m', Nodes(t')) && Linked(m', root, t')
    {
      hide Linked, Nodes, Seq, Way, Sub, Path, Replace, Ok, Count, Distinct, Growing, Flat, Grown, Rebalanced, CanRebalance;
      ghost var g := Grown(t, ds, x, k);
      InsertionOk(t, ds, x, k);
      m' := CountWay(path, pathLen, m, m0, t, ds, x, k);
      m' := TiltWay(bp, x, stack, m, m', r, t, ds, k);
      LinkedNew(m', x);
      GrownLinked(m, m', r, t, ds, x, k);
      m' := Rebalance(bp, bq, m', g, ds[..k]);
      t' := Replace(g, ds[..k], Rebalanced(Sub(g, ds[..k])));
    }

    /** `kavl_insert` once the place of `x` is known. */
    method Place(x: Node<K>, path: array<Node?<K>>, stack: array<bool>, bp: Node?<K>, bq: Node?<K>, q: Node?<K>,
                 which: bool, top: nat, pathLen: nat, ghost ds: seq<bool>, ghost k: nat)
      requires Valid() && x !in Nodes(tree) && Count(tree) + 1 < SizeLimit
      requires At(cmp, x.key, tree, ds) && Sub(tree, ds) == Leaf && pathLen <= path.Length && top <= stack.Length
      requires Marked(image, tree, ds, k, path[..pathLen], stack[..top], bp, bq, q, which) && (ds == [] ==> bp == null)
      modifies this, Nodes(tree), x
      ensures Valid()
      ensures Inserted(cmp, x, old(Seq(tree)), old(|Before(tree, ds)|), Seq(tree))
    {
      hide Linked, Nodes, Seq, Way, Sub, Path, Replace, Ok, Count, Distinct, Before, After, Growing, Inserted, Marked, Flat;
      ghost var t, m, r := tree, image, root;
      LinkFacts(m, r, t, ds, k, path[..pathLen], stack[..top], bp, bq, q, which);
      InsertPlace(cmp, x, m, r, t, ds);
      x.balance, x.size, x.p0, x.p1 := 0, 1, null, null;
      if q == null {
        root := x;
        tree, image := Grown(Leaf, [], x, 0), map[x := x.Fields()];
        LinkedNew(image, x);
        assert Valid();
      } else {
        ghost var m1 := LinkLast(x, q, which, m, r, t, ds, k);
        ghost var t', m' := Grow(x, bp, bq, path, pathLen, stack, m, m1, r, t, ds, k);
        tree, image := t', m';
      }
    }

    /** `kavl_insert`: adds `x` at its place, or returns a node that compares equal and changes nothing.
        `cnt` counts the nodes of the old tree that are not greater, up to the one returned. */
    method Insert(x: Node<K>) returns (v: Node<K>, cnt: nat)
      requires Valid() && x !in Nodes(tree) && Count(tree) + 1 < 0x1_0000_0000 && Separates(cmp, x.key, Seq(tree))
      modifies this, Nodes(tree), x
      ensures Valid()
      ensures v != x ==> root == old(root) && tree == old(tree) && image == old(image) &&
                         NodeAt(Seq(tree), cnt, v) && cmp(x.key, v.key) == 0
      ensures v == x ==> Inserted(cmp, x, old(Seq(tree)), cnt, Seq(tree))
    {
      hide Linked, Nodes, Seq, Way, Sub, Path, Replace, Ok, Count, Distinct, Before, After, Growing, Inserted, Marked;
      var path := new Node?<K>[MaxDepth];
      var stack := new bool[MaxDepth];
      ghost var t, m, r := tree, image, root;
      var found, bp, bq, q, which, top, pathLen, c;
      ghost var ds, k;
      found, bp, bq, q, which, top, pathLen, c, ds, k := Locate(x.key, path, stack);
      if found != null {
        SeqMember(t, c, found);
        return found, c;
      }
      Place(x, path, stack, bp, bq, q, which, top, pathLen, ds, k);
      v, cnt := x, c;
    }

    /** `kavl_erase` once the node `p` to delete has been found. */
    method TakeOut(fake: Node<K>, p: Node<K>, path: array<Node?<K>>, dir: array<bool>, d0: nat, ghost cnt: nat, ghost ds: seq<bool>)
      requires Valid() && fake !in Nodes(tree) && fake.Fields() == Rec(root, null, 0, 1)
      requires Path(tree, ds) && Linked(image, p, Sub(tree, ds)) && cnt == |Before(tree, ds)| + Sub(tree, ds).l.Size() + 1
      requires path.Length == MaxDepth && dir.Length == MaxDepth && d0 == |ds| + 1 < 46
      requires path[..d0] == [fake] + Way(tree, ds) && dir[..d0] == [false] + ds
      modifies this, Nodes(tree), fake, path, dir
      ensures Valid() && Erased(old(Seq(tree)), cnt, p, Seq(tree))
    {
      hide Linked, Nodes, Seq, Way, Sub, Path, Ok, Count, Distinct, Height, Ready, Climbing, Lowered, Spliced, Erased, Before;
      ghost var t, m, r := tree, image, root;
      ghost var u, m' := Remove(fake, p, path, dir, d0, cnt, m, r, t, ds);
      root, tree, image := fake.p0, u, m';
    }

    /** `kavl_erase`: takes out a node that compares equal to `x`, or the first one if no key is given, and
        returns it with its position; returns null and changes nothing if there is none. */
    method Erase(x: Option<K>) returns (p: Node?<K>, cnt: nat)
      requires Valid() && (if x.Some? then Separates(cmp, x.value, Seq(tree)) else root != null)
      modifies this, Nodes(tree)
      ensures Valid()
      ensures p == null ==> x.Some? && cnt == 0 && root == old(root) && tree == old(tree) && image == old(image) &&
                            forall n :: n in Seq(tree) ==> cmp(x.value, n.key) != 0
      ensures p != null ==> Erased(old(Seq(tree)), cnt, p, Seq(tree)) &&
                            if x.Some? then cmp(x.value, p.key) == 0 else cnt == 1
    {
      hide Linked, Nodes, Seq, Way, Sub, Path, Ok, Count, Distinct, Height, Ready, Climbing, Lowered, Spliced, Erased;
      ghost var t, m, r := tree, image, root;
      var path, dir := new Node?<K>[MaxDepth], new bool[MaxDepth];
      var fake := new Node<K>(if x.Some? then x.value else root.key);
      fake.p0 := root;
      var d;
      ghost var ds;
      if x.Some? {
        p, d, cnt, ds := Seek(cmp, x.value, fake, path, dir, m, r, t);
        if p == null {
          return null, 0;
        }
      } else {
        p, d, ds := SeekFirst(fake, path, dir, m, r, t);
        cnt := 1;
        FirstCount(t, ds);
      }
      TakeOut(fake, p, path, dir, d, cnt, ds);
    }
  }
}
