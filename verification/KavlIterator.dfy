/** The iterator of `nfq2/kavl.h`: the way from the root to the current node on a stack of fixed size. */
module KavlIterator {
  import opened AvlTree
  import opened AvlSteps
  import opened KavlNodes
  import opened Kavl

  /** The nodes from the root down to the one at `ds`. */
  ghost function WayTo<K>(t: Tree<K>, ds: seq<bool>): seq<Node<K>>
    requires Path(t, ds) && Sub(t, ds).Fork?
  {
    Way(t, ds) + [Sub(t, ds).n]
  }

  /** The place in the order of the node at `ds`. */
  ghost function Pos<K>(t: Tree<K>, ds: seq<bool>): nat
    requires Path(t, ds) && Sub(t, ds).Fork?
  {
    |Before(t, ds)| + |Seq(Sub(t, ds).l)|
  }

  lemma AtPos<K>(t: Tree<K>, ds: seq<bool>)
    requires Path(t, ds) && Sub(t, ds).Fork?
    ensures Pos(t, ds) < |Seq(t)| && Seq(t)[Pos(t, ds)] == Sub(t, ds).n
  {
    hide Sub, Path, Before, After;
    var s := Sub(t, ds);
    SeqSplit(t, ds);
    InTheMiddle(Before(t, ds), Seq(s.l), s.n, Seq(s.r), After(t, ds));
  }

  /** Where the subtree at `cs` ends in direction `dir`. */
  ghost function Edge<K>(t: Tree<K>, cs: seq<bool>, dir: bool): nat
    requires Path(t, cs)
  {
    |Before(t, cs)| + if dir then |Seq(Sub(t, cs))| else 0
  }

  /** From a subtree to the one above it. */
  lemma EdgeUp<K>(t: Tree<K>, es: seq<bool>, d: bool, dir: bool)
    requires Path(t, es) && Sub(t, es).Fork?
    ensures Path(t, es + [d])
    ensures d == dir ==> Edge(t, es + [d], dir) == Edge(t, es, dir)
    ensures d != dir ==> Edge(t, es + [d], dir) == Pos(t, es) + if dir then 0 else 1
  {
    hide Sub, Path, Before, After;
    PathSnoc(t, es, d);
  }

  lemma EdgeHere<K>(t: Tree<K>, ds: seq<bool>, dir: bool)
    requires Path(t, ds) && Sub(t, ds).Fork? && Sub(t, ds).Kid(dir) == Leaf
    ensures Edge(t, ds, dir) == Pos(t, ds) + if dir then 1 else 0
  {
    hide Sub, Path, Before;
    assert Seq(Sub(t, ds).Kid(dir)) == [];
  }

  lemma EdgeTop<K>(t: Tree<K>, dir: bool)
    ensures Path(t, []) && Sub(t, []) == t && Way(t, []) == [] && Edge(t, [], dir) == if dir then |Seq(t)| else 0
  {
  }

  /** A node on the way and its child. */
  lemma KidLinked<K>(m: Image<K>, root: Node?<K>, t: Tree<K>, ds: seq<bool>, d: bool)
    requires Linked(m, root, t) && Distinct(t) && Path(t, ds) && Sub(t, ds).Fork?
    ensures var s := Sub(t, ds);
            s.n in Nodes(t) && s.n in m && Linked(m, m[s.n].P(d), s.Kid(d)) && (m[s.n].P(d) == null <==> s.Kid(d) == Leaf)
  {
    hide Sub, Path, Seq, Distinct, Nodes;
    SubLinked(m, root, t, ds);
    LinkedParts(m, Sub(t, ds).n, Sub(t, ds));
  }

  lemma {:induction false} WayLength<K>(t: Tree<K>, ds: seq<bool>)
    requires Path(t, ds)
    ensures |Way(t, ds)| == |ds|
  {
    if ds != [] {
      WayLength(t.Kid(ds[0]), ds[1..]);
    }
  }

  lemma LastStep<K>(m: Image<K>, root: Node?<K>, t: Tree<K>, cs: seq<bool>)
    requires Linked(m, root, t) && Distinct(t) && Path(t, cs) && Sub(t, cs).Fork? && cs != []
    ensures var n := |cs| - 1;
            Path(t, cs[..n]) && Sub(t, cs[..n]).Fork? && |Way(t, cs)| == |cs| && WayTo(t, cs[..n]) == Way(t, cs) &&
            var q := Sub(t, cs[..n]).n;
            q in Nodes(t) && q in m && m[q].P(cs[n]) == Sub(t, cs).n && m[q].P(!cs[n]) != Sub(t, cs).n
  {
    hide Linked, Distinct, Seq, Nodes, Sub, Path, Way;
    var n := |cs| - 1;
    WayLength(t, cs);
    PathPrefix(t, cs, n);
    assert cs == cs[..n] + [cs[n]];
    WaySnoc(t, cs[..n], cs[n]);
    ParentLink(m, root, t, cs);
  }

  /** There is room on the stack for one more node. */
  lemma Room<K>(t: Tree<K>, cs: seq<bool>)
    requires Ok(t) && Count(t) < SizeLimit && Path(t, cs)
    ensures |cs| + Height(Sub(t, cs)) <= 45
  {
    PathLength(t, cs);
    HeightBound(t);
  }

  /** `kavl_itr`; `ds` leads to the current node. */
  class Iterator<K> {
    const stack: array<Node?<K>>
    var top: int
    ghost var ds: seq<bool>

    /** On a node of the tree, or beyond its ends if `top` is -1. */
    ghost predicate On(hdr: KavlTree<K>)
      reads this, stack, hdr, Nodes(hdr.tree)
    {
      hdr.Valid() && stack.Length == MaxDepth && -1 <= top < MaxDepth &&
      (top >= 0 ==> Path(hdr.tree, ds) && Sub(hdr.tree, ds).Fork? && |ds| == top && stack[..top + 1] == WayTo(hdr.tree, ds))
    }

    /** The place of the current node. */
    ghost function Index(hdr: KavlTree<K>): nat
      requires On(hdr) && top >= 0
      reads this, stack, hdr, Nodes(hdr.tree)
    {
      Pos(hdr.tree, ds)
    }

    constructor (hdr: KavlTree<K>)
      requires hdr.Valid()
      ensures On(hdr) && top == -1 && fresh(stack)
    {
      stack, top, ds := new Node?<K>[MaxDepth](_ => null), -1, [];
    }

    /** The loop that goes down on one side. */
    method PushAll(hdr: KavlTree<K>, p0: Node<K>, side: bool, ghost cs0: seq<bool>)
      requires hdr.Valid() && stack.Length == MaxDepth && Path(hdr.tree, cs0) && Linked(hdr.image, p0, Sub(hdr.tree, cs0))
      requires top == |cs0| - 1 && top < MaxDepth && stack[..top + 1] == Way(hdr.tree, cs0)
      modifies this, stack
      ensures On(hdr) && top >= 0 && Sub(hdr.tree, ds).Kid(side) == Leaf && Edge(hdr.tree, ds, side) == Edge(hdr.tree, cs0, side)
    {
      hide Linked, Distinct, Seq, Nodes, Sub, Path, Way, Ok, Count, Height, Edge;
      ghost var t, m, cs := hdr.tree, hdr.image, cs0;
      var p: Node?<K> := p0;
      while p != null
        invariant hdr.Valid() && Path(t, cs) && Linked(m, p, Sub(t, cs)) && top == |cs| - 1 < MaxDepth
        invariant Edge(t, cs, side) == Edge(t, cs0, side) && stack[..top + 1] == Way(t, cs)
        invariant p == null ==> On(hdr) && top >= 0 && Sub(t, ds).Kid(side) == Leaf && Edge(t, ds, side) == Edge(t, cs0, side)
        decreases Height(Sub(t, cs))
      {
        Room(t, cs);
        RootFork(m, p, Sub(t, cs));
        KidLinked(m, hdr.root, t, cs, side);
        ghost var was := stack[..top + 1];
        top := top + 1;
        stack[top] := p;
        assert stack[..top] == was && stack[..top + 1] == was + [p];
        ds := cs;
        PathSnoc(t, cs, side);
        WaySnoc(t, cs, side);
        EdgeUp(t, cs, side, side);
        p, cs := p.P(side), cs + [side];
      }
    }

    /** `kavl_itr_first`. */
    method First(hdr: KavlTree<K>)
      requires hdr.Valid() && stack.Length == MaxDepth
      modifies this, stack
      ensures On(hdr) && (top >= 0 <==> Seq(hdr.tree) != [])
      ensures top >= 0 ==> Index(hdr) == 0 && stack[top] == Seq(hdr.tree)[0]
    {
      top := -1;
      EdgeTop(hdr.tree, false);
      if hdr.root != null {
        PushAll(hdr, hdr.root, false, []);
        EdgeHere(hdr.tree, ds, false);
        Current(hdr);
      }
    }

    lemma Current(hdr: KavlTree<K>)
      requires On(hdr) && top >= 0
      ensures Index(hdr) < |Seq(hdr.tree)| && stack[top] == Seq(hdr.tree)[Index(hdr)]
    {
      AtPos(hdr.tree, ds);
      assert stack[top] == stack[..top + 1][top];
    }

    /** `kavl_itr_next_bidir`: one place further in direction `dir`; `ok` tells whether there is one. */
    method Next(hdr: KavlTree<K>, dir: bool) returns (ok: bool)
      requires On(hdr)
      modifies this, stack
      ensures On(hdr) && ok == (top >= 0)
      ensures old(top) < 0 ==> !ok
      ensures old(top) >= 0 ==>
                var j := old(Index(hdr)) + if dir then 1 else -1;
                ok == (0 <= j < |Seq(hdr.tree)|) && (ok ==> Index(hdr) == j && stack[top] == Seq(hdr.tree)[j])
    {
      hide Linked, Distinct, Seq, Nodes, Sub, Path, Way, Ok, Count, Height, Edge, Before, Pos;
      if top < 0 {
        return false;
      }
      Current(hdr);
      ghost var t, m, i := hdr.tree, hdr.image, Index(hdr);
      KidLinked(m, hdr.root, t, ds, dir);
      ghost var s := Sub(t, ds);
      assert stack[top] == stack[..top + 1][top] == s.n;
      var p := stack[top].P(dir);
      if p != null {
        PathSnoc(t, ds, dir);
        WaySnoc(t, ds, dir);
        EdgeUp(t, ds, dir, !dir);
        PushAll(hdr, p, !dir, ds + [dir]);
        EdgeHere(t, ds, !dir);
        Current(hdr);
        ok := true;
      } else {
        EdgeHere(t, ds, dir);
        GoUp(hdr, dir, s);
        ok := top >= 0;
        if ok {
          Current(hdr);
        }
      }
    }

    /** The loop that goes up until it comes from the other side. */
    method GoUp(hdr: KavlTree<K>, dir: bool, ghost s: Tree<K>)
      requires On(hdr) && top >= 0 && s == Sub(hdr.tree, ds) && s.Kid(dir) == Leaf
      modifies this
      ensures On(hdr)
      ensures var e := old(Edge(hdr.tree, ds, dir));
              if top < 0 then e == if dir then |Seq(hdr.tree)| else 0 else e == Index(hdr) + if dir then 0 else 1
    {
      hide Linked, Distinct, Seq, Nodes, Sub, Path, Way, Ok, Count, Height, Edge, Before, Pos;
      ghost var t, m, cs, w := hdr.tree, hdr.image, ds, stack[..top];
      var p: Node<K> := stack[top];
      ghost var e := Edge(t, ds, dir);
      assert stack[..top + 1] == w + [p];
      top := top - 1;
      UpStep(m, hdr.root, t, cs, w, dir);
      while top >= 0 && p == stack[top].P(dir)
        invariant hdr.Valid() && -1 <= top == |cs| - 1 < MaxDepth && Path(t, cs) && Sub(t, cs).Fork? && p == Sub(t, cs).n
        invariant Edge(t, cs, dir) == e && stack[..top + 1] == w == Way(t, cs)
        invariant top >= 0 ==> stack[top] == w[top] && w[top] in Nodes(t) && w[top] in m && (m[w[top]].P(dir) == p <==> cs[top] == dir)
        decreases |cs|
      {
        UpStep(m, hdr.root, t, cs, w, dir);
        p := stack[top];
        w, cs := w[..top], cs[..top];
        top := top - 1;
        UpStep(m, hdr.root, t, cs, w, dir);
      }
      if top < 0 {
        EdgeTop(t, dir);
        assert cs == [];
      } else {
        UpStep(m, hdr.root, t, cs, w, dir);
        ds := cs[..top];
        assert w == w[..top] + [w[top]];
      }
    }

    /** Visiting from the first node on yields all nodes in order. */
    method Visit(hdr: KavlTree<K>) returns (out: seq<Node<K>>)
      requires hdr.Valid() && stack.Length == MaxDepth
      modifies this, stack
      ensures out == Seq(hdr.tree)
    {
      hide Seq;
      First(hdr);
      out := [];
      var more := top >= 0;
      while more
        invariant On(hdr) && more == (top >= 0) && out <= Seq(hdr.tree)
        invariant if more then Index(hdr) == |out| < |Seq(hdr.tree)| && stack[top] == Seq(hdr.tree)[|out|] else out == Seq(hdr.tree)
        decreases |Seq(hdr.tree)| - |out|, more
      {
        out := out + [stack[top]];
        more := Next(hdr, true);
        if more {
          Current(hdr);
        }
      }
    }
  }

  lemma RootFork<K>(m: Image<K>, p: Node<K>, s: Tree<K>)
    requires Linked(m, p, s)
    ensures s.Fork? && s.n == p && Height(s.l) < Height(s) && Height(s.r) < Height(s)
  {
  }

  /** One step up from the node at `cs`, to which the nodes `w` lead. */
  lemma UpStep<K>(m: Image<K>, root: Node?<K>, t: Tree<K>, cs: seq<bool>, w: seq<Node?<K>>, dir: bool)
    requires Linked(m, root, t) && Distinct(t) && Path(t, cs) && Sub(t, cs).Fork? && w == Way(t, cs)
    ensures |w| == |cs|
    ensures cs != [] ==>
              var (n, q) := (|cs| - 1, w[|cs| - 1]);
              q != null && q in Nodes(t) && q in m && Path(t, cs[..n]) && Sub(t, cs[..n]).Fork? && q == Sub(t, cs[..n]).n &&
              w[..n] == Way(t, cs[..n]) && (m[q].P(dir) == Sub(t, cs).n <==> cs[n] == dir) &&
              if cs[n] == dir then Edge(t, cs[..n], dir) == Edge(t, cs, dir)
              else Edge(t, cs, dir) == Pos(t, cs[..n]) + if dir then 0 else 1
  {
    hide Linked, Distinct, Seq, Nodes, Sub, Path, Way, Edge, Pos;
    WayLength(t, cs);
    if cs != [] {
      var n := |cs| - 1;
      LastStep(m, root, t, cs);
      EdgeUp(t, cs[..n], cs[n], dir);
      assert cs[..n] + [cs[n]] == cs;
      WayLength(t, cs[..n]);
    }
  }
}
