/** The value-level view of the in-place AVL tree: a tree as it is stored, with the balance and size
    fields carried along, what makes those fields right, and what one growth or shrink step does.
    A direction is `false` for p[0] (left) and `true` for p[1] (right). */
module AvlTree {
  /** A tree node: `KAVL_HEAD` and the key it is embedded in. */
  class Node<K> {
    const key: K
    var p0: Node?<K>
    var p1: Node?<K>
    var balance: int
    var size: int

    constructor (key: K)
      ensures this.key == key && Fields() == Rec(null, null, 0, 1)
    {
      this.key := key;
      p0, p1, balance, size := null, null, 0, 1;
    }

    function P(dir: bool): Node?<K>
      reads this
    {
      if dir then p1 else p0
    }

    method SetP(dir: bool, v: Node?<K>)
      modifies this
      ensures Fields() == old(Fields()).SetP(dir, v)
    {
      if dir {
        p1 := v;
      } else {
        p0 := v;
      }
    }

    ghost function Fields(): Rec<K>
      reads this
    {
      Rec(p0, p1, balance, size)
    }
  }

  /** The contents of a node's fields. */
  datatype Rec<K> = Rec(p0: Node?<K>, p1: Node?<K>, bal: int, size: int) {
    ghost function P(dir: bool): Node?<K> { if dir then p1 else p0 }

    ghost function SetP(dir: bool, v: Node?<K>): Rec<K> {
      if dir then Rec(p0, v, bal, size) else Rec(v, p1, bal, size)
    }
  }

  /** The contents of the nodes of a tree at one moment. */
  type Image<K> = map<Node<K>, Rec<K>>

  ghost predicate Mirrors<K>(m: Image<K>, s: set<Node<K>>)
    reads s
  {
    forall n :: n in s ==> n in m && m[n] == n.Fields()
  }

  /** A tree as stored in the heap: every node with the field values it holds. */
  datatype Tree<K> = Leaf | Fork(n: Node<K>, bal: int, size: int, l: Tree<K>, r: Tree<K>) {
    ghost function Kid(dir: bool): Tree<K>
      requires Fork?
    {
      if dir then r else l
    }

    /** This root over a new subtree on side `dir`. */
    ghost function With(dir: bool, kid: Tree<K>, bal: int, size: int): (t: Tree<K>)
      requires Fork?
      ensures t.Fork? && t.Kid(dir) == kid && t.Kid(!dir) == Kid(!dir)
    {
      if dir then Fork(n, bal, size, l, kid) else Fork(n, bal, size, kid, r)
    }

    /** `kavl_size`. */
    ghost function Size(): int { if Leaf? then 0 else size }
  }

  ghost function Max(a: int, b: int): int { if a < b then b else a }

  ghost function Height<K>(t: Tree<K>): nat {
    if t.Leaf? then 0 else 1 + Max(Height(t.l), Height(t.r))
  }

  ghost function Count<K>(t: Tree<K>): nat {
    if t.Leaf? then 0 else 1 + Count(t.l) + Count(t.r)
  }

  /** The nodes from left to right. */
  ghost function Seq<K>(t: Tree<K>): seq<Node<K>> {
    if t.Leaf? then [] else Seq(t.l) + [t.n] + Seq(t.r)
  }

  ghost function Nodes<K>(t: Tree<K>): set<Node<K>> {
    set n | n in Seq(t)
  }

  ghost predicate NoDup<T>(s: seq<T>) {
    forall i, j :: 0 <= i < j < |s| ==> s[i] != s[j]
  }

  /** No node occurs twice. */
  ghost predicate Distinct<K>(t: Tree<K>) {
    NoDup(Seq(t))
  }

  lemma DistinctParts<K>(t: Tree<K>)
    requires Distinct(t) && t.Fork?
    ensures Distinct(t.l) && Distinct(t.r)
    ensures t.n !in Nodes(t.l) && t.n !in Nodes(t.r) && Nodes(t.l) !! Nodes(t.r)
    ensures Nodes(t) == Nodes(t.l) + {t.n} + Nodes(t.r)
  {
    var s, a, c := Seq(t), Seq(t.l), |Seq(t.l)|;
    assert forall i :: 0 <= i < c ==> s[i] == a[i];
    assert s[c] == t.n;
    assert forall i {:trigger Seq(t.r)[i]} :: 0 <= i < |Seq(t.r)| ==> s[c + 1 + i] == Seq(t.r)[i];
  }

  /** The fields of the root are right for its two subtrees. */
  ghost predicate OkRoot<K>(t: Tree<K>)
    requires t.Fork?
  {
    t.bal == Height(t.r) - Height(t.l) && -1 <= t.bal <= 1 && t.size == Count(t)
  }

  /** The AVL invariant: every balance field is height(right) - height(left) and within -1..1, and every
      size field is the number of nodes below and including its node. */
  ghost predicate Ok<K>(t: Tree<K>) {
    t.Leaf? || (OkRoot(t) && Ok(t.l) && Ok(t.r))
  }

  lemma OkSize<K>(t: Tree<K>)
    requires Ok(t)
    ensures t.Size() == Count(t)
  {
  }

  /** The nodes as `m` has them form the tree `t` with root `p`, field by field. */
  ghost predicate Linked<K>(m: Image<K>, p: Node?<K>, t: Tree<K>) {
    match t
    case Leaf => p == null
    case Fork(n, bal, size, l, r) =>
      p == n && n in m && m[n].bal == bal && m[n].size == size && Linked(m, m[n].p0, l) && Linked(m, m[n].p1, r)
  }

  lemma {:induction false} LinkedMember<K>(m: Image<K>, p: Node?<K>, t: Tree<K>)
    requires Linked(m, p, t)
    ensures forall n :: n in Nodes(t) ==> n in m
  {
    if t.Fork? {
      LinkedMember(m, m[p].p0, t.l);
      LinkedMember(m, m[p].p1, t.r);
    }
  }

  lemma {:induction false} LinkedKept<K>(m: Image<K>, m': Image<K>, p: Node?<K>, t: Tree<K>)
    requires Linked(m, p, t)
    requires forall n :: n in Nodes(t) ==> n in m' && (n in m ==> m'[n] == m[n])
    ensures Linked(m', p, t)
  {
    if t.Fork? {
      assert t.n in Nodes(t) && Nodes(t.l) <= Nodes(t) && Nodes(t.r) <= Nodes(t);
      LinkedKept(m, m', m[p].p0, t.l);
      LinkedKept(m, m', m[p].p1, t.r);
    }
  }

  lemma LinkedParts<K>(m: Image<K>, p: Node?<K>, t: Tree<K>)
    requires Linked(m, p, t) && Distinct(t) && t.Fork?
    ensures p == t.n && p in m && Distinct(t.l) && Distinct(t.r)
    ensures Linked(m, m[p].p0, t.l) && Linked(m, m[p].p1, t.r)
    ensures p !in Nodes(t.l) && p !in Nodes(t.r) && Nodes(t.l) !! Nodes(t.r)
    ensures Nodes(t) == Nodes(t.l) + {p} + Nodes(t.r)
    ensures t.l == Leaf || (t.l.n in Nodes(t.l) && m[p].p0 == t.l.n)
    ensures t.r == Leaf || (t.r.n in Nodes(t.r) && m[p].p1 == t.r.n)
  {
    DistinctParts(t);
  }

  lemma {:induction false} SeqCount<K>(t: Tree<K>)
    ensures |Seq(t)| == Count(t)
  {
    if t.Fork? {
      SeqCount(t.l);
      SeqCount(t.r);
    }
  }

  // ----- Paths: a sequence of directions leading from the root to a subtree -----

  ghost predicate Path<K>(t: Tree<K>, ds: seq<bool>) {
    ds == [] || (t.Fork? && Path(t.Kid(ds[0]), ds[1..]))
  }

  ghost function Sub<K>(t: Tree<K>, ds: seq<bool>): Tree<K>
    requires Path(t, ds)
  {
    if ds == [] then t else Sub(t.Kid(ds[0]), ds[1..])
  }

  ghost function Replace<K>(t: Tree<K>, ds: seq<bool>, s: Tree<K>): Tree<K>
    requires Path(t, ds)
  {
    if ds == [] then s else t.With(ds[0], Replace(t.Kid(ds[0]), ds[1..], s), t.bal, t.size)
  }

  /** What lies to the left of the subtree at `ds`. */
  ghost function Before<K>(t: Tree<K>, ds: seq<bool>): seq<Node<K>>
    requires Path(t, ds)
  {
    if ds == [] then [] else (if ds[0] then Seq(t.l) + [t.n] else []) + Before(t.Kid(ds[0]), ds[1..])
  }

  /** What lies to the right of the subtree at `ds`. */
  ghost function After<K>(t: Tree<K>, ds: seq<bool>): seq<Node<K>>
    requires Path(t, ds)
  {
    if ds == [] then [] else After(t.Kid(ds[0]), ds[1..]) + (if ds[0] then [] else [t.n] + Seq(t.r))
  }

  lemma {:induction false} PathSnoc<K>(t: Tree<K>, ds: seq<bool>, d: bool)
    requires Path(t, ds) && Sub(t, ds).Fork?
    ensures Path(t, ds + [d])
    ensures Sub(t, ds + [d]) == Sub(t, ds).Kid(d)
    ensures Before(t, ds + [d]) == Before(t, ds) + if d then Seq(Sub(t, ds).l) + [Sub(t, ds).n] else []
    ensures After(t, ds + [d]) == (if d then [] else [Sub(t, ds).n] + Seq(Sub(t, ds).r)) + After(t, ds)
  {
    if ds == [] {
      assert (ds + [d])[1..] == [];
    } else {
      assert (ds + [d])[1..] == ds[1..] + [d];
      PathSnoc(t.Kid(ds[0]), ds[1..], d);
    }
  }

  lemma {:induction false} PathPrefix<K>(t: Tree<K>, ds: seq<bool>, i: nat)
    requires Path(t, ds) && i <= |ds|
    ensures Path(t, ds[..i])
    ensures i < |ds| ==> Sub(t, ds[..i]).Fork?
    ensures Path(Sub(t, ds[..i]), ds[i..]) && Sub(Sub(t, ds[..i]), ds[i..]) == Sub(t, ds)
  {
    if i > 0 {
      assert ds[..i][1..] == ds[1..][..i - 1];
      assert ds[i..] == ds[1..][i - 1..];
      PathPrefix(t.Kid(ds[0]), ds[1..], i - 1);
    } else {
      assert ds[i..] == ds;
    }
  }

  /** A path is at most as long as the tree is high. */
  lemma {:induction false} PathLength<K>(t: Tree<K>, ds: seq<bool>)
    requires Path(t, ds)
    ensures |ds| + Height(Sub(t, ds)) <= Height(t)
  {
    if ds != [] {
      PathLength(t.Kid(ds[0]), ds[1..]);
    }
  }

  lemma {:induction false} SeqSplit<K>(t: Tree<K>, ds: seq<bool>)
    requires Path(t, ds)
    ensures Seq(t) == Before(t, ds) + Seq(Sub(t, ds)) + After(t, ds)
  {
    if ds == [] {
    } else {
      hide Seq, Before, After, Sub, Path;
      var kid, es := t.Kid(ds[0]), ds[1..];
      var x, y := if ds[0] then Seq(t.l) + [t.n] else [], if ds[0] then [] else [t.n] + Seq(t.r);
      SplitParts(t, ds);
      RootSeq(t, ds[0]);
      SeqSplit(kid, es);
      Around(x, Before(kid, es), Seq(Sub(kid, es)), After(kid, es), y);
    }
  }

  lemma SplitParts<K>(t: Tree<K>, ds: seq<bool>)
    requires Path(t, ds) && ds != []
    ensures t.Fork? && Path(t.Kid(ds[0]), ds[1..]) && Sub(t, ds) == Sub(t.Kid(ds[0]), ds[1..])
    ensures Before(t, ds) == (if ds[0] then Seq(t.l) + [t.n] else []) + Before(t.Kid(ds[0]), ds[1..])
    ensures After(t, ds) == After(t.Kid(ds[0]), ds[1..]) + if ds[0] then [] else [t.n] + Seq(t.r)
  {
    hide Seq;
  }

  lemma RootSeq<K>(t: Tree<K>, d: bool)
    requires t.Fork?
    ensures Seq(t) == (if d then Seq(t.l) + [t.n] else []) + Seq(t.Kid(d)) + if d then [] else [t.n] + Seq(t.r)
  {
    hide Seq;
    SeqRoot(t);
    Sides(Seq(t.l), t.n, Seq(t.r));
  }

  lemma SeqRoot<K>(t: Tree<K>)
    requires t.Fork?
    ensures Seq(t) == Seq(t.l) + [t.n] + Seq(t.r)
  {
  }

  lemma Sides<T>(l: seq<T>, n: T, r: seq<T>)
    ensures l + [n] + r == [] + l + ([n] + r) && l + [n] + r == l + [n] + r + []
  {
  }

  lemma Around<T>(x: seq<T>, b: seq<T>, s: seq<T>, a: seq<T>, y: seq<T>)
    ensures (x + b) + s + (a + y) == x + (b + s + a) + y
  {
  }

  lemma {:induction false} OkSub<K>(t: Tree<K>, ds: seq<bool>)
    requires Path(t, ds) && Ok(t)
    ensures Ok(Sub(t, ds))
  {
    if ds != [] {
      OkSub(t.Kid(ds[0]), ds[1..]);
    }
  }

  lemma NodesSub<K>(t: Tree<K>, ds: seq<bool>)
    requires Path(t, ds)
    ensures Nodes(Sub(t, ds)) <= Nodes(t)
    ensures Distinct(t) ==> Distinct(Sub(t, ds))
  {
    SeqSplit(t, ds);
    var s, c := Seq(Sub(t, ds)), |Before(t, ds)|;
    assert forall i {:trigger s[i]} :: 0 <= i < |s| ==> Seq(t)[c + i] == s[i];
  }

  /** The nodes on the way to the subtree at `ds`. */
  ghost function Way<K>(t: Tree<K>, ds: seq<bool>): seq<Node<K>>
    requires Path(t, ds)
  {
    if ds == [] then [] else [t.n] + Way(t.Kid(ds[0]), ds[1..])
  }

  lemma {:induction false} WaySnoc<K>(t: Tree<K>, ds: seq<bool>, d: bool)
    requires Path(t, ds) && Sub(t, ds).Fork? && Path(t, ds + [d])
    ensures Way(t, ds + [d]) == Way(t, ds) + [Sub(t, ds).n]
  {
    if ds == [] {
      assert (ds + [d])[1..] == [];
    } else {
      assert (ds + [d])[1..] == ds[1..] + [d];
      WaySnoc(t.Kid(ds[0]), ds[1..], d);
    }
  }

  /** The way to a subtree is linked by the directions taken and visits no node twice. */
  lemma {:induction false} WayLinked<K>(m: Image<K>, p: Node?<K>, t: Tree<K>, ds: seq<bool>)
    requires Linked(m, p, t) && Distinct(t) && Path(t, ds)
    ensures |Way(t, ds)| == |ds| && NoDup(Way(t, ds))
    ensures forall n :: n in Way(t, ds) ==> n in Nodes(t) && n in m && n !in Nodes(Sub(t, ds))
    ensures Nodes(Sub(t, ds)) <= Nodes(t) && Distinct(Sub(t, ds))
    ensures ds != [] ==> p == Way(t, ds)[0]
    ensures forall i :: 0 <= i < |ds| - 1 ==> m[Way(t, ds)[i]].P(ds[i]) == Way(t, ds)[i + 1]
    ensures ds != [] ==> Linked(m, m[Way(t, ds)[|ds| - 1]].P(ds[|ds| - 1]), Sub(t, ds))
  {
    if ds != [] {
      LinkedParts(m, p, t);
      WayLinked(m, m[p].P(ds[0]), t.Kid(ds[0]), ds[1..]);
    }
  }

  /** Outside the subtree at `ds` only the link that led to it has changed, and now leads to `v`. */
  ghost predicate Relinked<K>(m: Image<K>, m': Image<K>, t: Tree<K>, ds: seq<bool>, v: Node?<K>)
    requires Path(t, ds) && ds != [] && |Way(t, ds)| == |ds|
  {
    var q := Way(t, ds)[|ds| - 1];
    q in m && q in m' && m'[q] == m[q].SetP(ds[|ds| - 1], v) &&
    forall n :: n in Nodes(t) && n !in Nodes(Sub(t, ds)) && n != q ==> n in m && n in m' && m'[n] == m[n]
  }

  lemma RelinkedParts<K>(m: Image<K>, m': Image<K>, t: Tree<K>, ds: seq<bool>, v: Node?<K>)
    requires Path(t, ds) && ds != [] && |Way(t, ds)| == |ds| && Distinct(t) && Relinked(m, m', t, ds, v)
    requires Way(t, ds)[|ds| - 1] == t.n || Way(t, ds)[|ds| - 1] in Nodes(t.Kid(ds[0]))
    ensures t.n in m' && forall n :: n in Nodes(t.Kid(!ds[0])) ==> n in m' && n in m && m'[n] == m[n]
    ensures |ds| > 1 && Way(t, ds)[|ds| - 1] != t.n ==>
      t.n in m && m'[t.n] == m[t.n] && Relinked(m, m', t.Kid(ds[0]), ds[1..], v)
  {
    DistinctParts(t);
    NodesSub(t.Kid(ds[0]), ds[1..]);
  }

  /** Relinking a subtree's parent to another tree puts that tree in its place. */
  lemma {:induction false} LinkedReplace<K>(m: Image<K>, m': Image<K>, p: Node?<K>, t: Tree<K>, ds: seq<bool>,
                                            v: Node?<K>, s: Tree<K>)
    requires Linked(m, p, t) && Distinct(t) && Path(t, ds) && ds != [] && Linked(m', v, s)
    requires |Way(t, ds)| == |ds| && Relinked(m, m', t, ds, v)
    ensures Linked(m', p, Replace(t, ds, s))
  {
    var d, kid := ds[0], t.Kid(ds[0]);
    assert Linked(m, m[p].P(d), kid) && Linked(m, m[p].P(!d), t.Kid(!d));
    DistinctParts(t);
    WayLinked(m, m[p].P(d), kid, ds[1..]);
    RelinkedParts(m, m', t, ds, v);
    LinkedKept(m, m', m[p].P(!d), t.Kid(!d));
    if |ds| == 1 {
      assert ds[1..] == [] && Replace(kid, [], s) == s;
    } else {
      LinkedReplace(m, m', m[p].P(d), kid, ds[1..], v, s);
    }
  }

  lemma {:induction false} PathReplace<K>(t: Tree<K>, ds: seq<bool>, s: Tree<K>)
    requires Path(t, ds)
    ensures Path(Replace(t, ds, s), ds) && Sub(Replace(t, ds, s), ds) == s
    ensures Before(Replace(t, ds, s), ds) == Before(t, ds)
    ensures After(Replace(t, ds, s), ds) == After(t, ds)
  {
    if ds != [] {
      PathReplace(t.Kid(ds[0]), ds[1..], s);
    }
  }

  lemma {:induction false} ReplaceSame<K>(t: Tree<K>, ds: seq<bool>)
    requires Path(t, ds)
    ensures Replace(t, ds, Sub(t, ds)) == t
  {
    if ds != [] {
      ReplaceSame(t.Kid(ds[0]), ds[1..]);
    }
  }

  /** Replacing a subtree changes the order nowhere else. */
  lemma SeqReplace<K>(t: Tree<K>, ds: seq<bool>, s: Tree<K>)
    requires Path(t, ds)
    ensures Seq(Replace(t, ds, s)) == Before(t, ds) + Seq(s) + After(t, ds)
  {
    PathReplace(t, ds, s);
    SeqSplit(Replace(t, ds, s), ds);
  }

  // ----- Rotations -----

  /** `kavl_rotate1`: (a,(b,c)q)p => ((a,b)p,c)q and its mirror image; balances are left to the caller. */
  ghost function Rot1<K>(t: Tree<K>, dir: bool): Tree<K>
    requires t.Fork? && t.Kid(!dir).Fork?
  {
    var q := t.Kid(!dir);
    var p' := t.With(!dir, q.Kid(dir), t.bal, t.size - (q.size - q.Kid(dir).Size()));
    q.With(dir, p', q.bal, t.size)
  }

  /** `kavl_rotate2`: (a,((b,c)r,d)q)p => ((a,b)p,(c,d)q)r and its mirror image. */
  ghost function Rot2<K>(t: Tree<K>, dir: bool): Tree<K>
    requires t.Fork? && t.Kid(!dir).Fork? && t.Kid(!dir).Kid(dir).Fork?
  {
    var q := t.Kid(!dir);
    var r := q.Kid(dir);
    var b1 := if dir then -1 else 1;
    var p' := t.With(!dir, r.Kid(dir), if r.bal == b1 then -b1 else 0, t.size - (q.size - r.Kid(dir).Size()));
    var q' := q.With(dir, r.Kid(!dir), if r.bal == b1 || r.bal == 0 then 0 else b1, q.size - (r.Kid(dir).Size() + 1));
    if dir then Fork(r.n, 0, t.size, q', p') else Fork(r.n, 0, t.size, p', q')
  }

  lemma Assoc<T>(a: seq<T>, x: T, b: seq<T>, y: T, c: seq<T>)
    ensures a + [x] + (b + [y] + c) == (a + [x] + b) + [y] + c
  {
  }

  /** Rotations keep the order. */
  lemma Rot1Seq<K>(t: Tree<K>, dir: bool)
    requires t.Fork? && t.Kid(!dir).Fork?
    ensures Seq(Rot1(t, dir)) == Seq(t)
  {
    var q := t.Kid(!dir);
    if dir {
      Assoc(Seq(q.l), q.n, Seq(q.r), t.n, Seq(t.r));
    } else {
      Assoc(Seq(t.l), t.n, Seq(q.l), q.n, Seq(q.r));
    }
  }

  lemma Rot2Seq<K>(t: Tree<K>, dir: bool)
    requires t.Fork? && t.Kid(!dir).Fork? && t.Kid(!dir).Kid(dir).Fork?
    ensures Seq(Rot2(t, dir)) == Seq(t)
  {
    var inner := t.With(!dir, Rot1(t.Kid(!dir), !dir), 0, 0);
    Rot1Seq(t.Kid(!dir), !dir);
    Rot1Seq(inner, dir);
    var outer := Rot1(inner, dir);
    assert Seq(outer.Kid(dir)) == Seq(Rot2(t, dir).Kid(dir));
    assert Seq(outer.Kid(!dir)) == Seq(Rot2(t, dir).Kid(!dir));
  }

  /** A root whose subtree on side `!dir` is two higher than the other, with everything below in order. */
  ghost predicate Heavy<K>(t: Tree<K>, dir: bool) {
    t.Fork? && Ok(t.l) && Ok(t.r) && t.size == Count(t) && t.bal == Height(t.r) - Height(t.l) &&
    t.bal == if dir then -2 else 2
  }

  /** `kavl_rotate1` with the balances its callers then write. */
  ghost function Single<K>(t: Tree<K>, dir: bool): Tree<K>
    requires t.Fork? && t.Kid(!dir).Fork?
  {
    var b := if t.Kid(!dir).bal != 0 then 0 else if dir then -1 else 1;
    var r := Rot1(t, dir);
    var p := r.Kid(dir);
    r.With(dir, Fork(p.n, b, p.size, p.l, p.r), -b, r.size)
  }

  /** A single rotation repairs a heavy root whose heavy child does not lean the other way. The result has the
      same order, and is one lower than before, except when that child was level. */
  lemma SingleRepairs<K>(t: Tree<K>, dir: bool)
    requires Heavy(t, dir)
    ensures t.Kid(!dir).Fork? && Seq(Single(t, dir)) == Seq(t)
    ensures t.Kid(!dir).bal != (if dir then 1 else -1) ==>
              Ok(Single(t, dir)) && Count(Single(t, dir)) == Count(t) &&
              Height(Single(t, dir)) == if t.Kid(!dir).bal == 0 then Height(t) else Height(t) - 1
  {
    var q := t.Kid(!dir);
    var p' := Single(t, dir).Kid(dir);
    assert Count(p') == Count(t.Kid(dir)) + 1 + Count(q.Kid(dir));
    assert Height(p') == 1 + Max(Height(t.Kid(dir)), Height(q.Kid(dir)));
    assert Ok(q) && OkRoot(q);
    OkSize(q.Kid(dir));
    assert q.bal != (if dir then 1 else -1) ==> OkRoot(p');
    Rot1Seq(t, dir);
  }

  /** A double rotation repairs a heavy root whose heavy child leans the other way. */
  lemma DoubleRepairs<K>(t: Tree<K>, dir: bool)
    requires Heavy(t, dir)
    requires t.Kid(!dir).Fork? && t.Kid(!dir).bal == if dir then 1 else -1
    ensures t.Kid(!dir).Kid(dir).Fork?
    ensures Ok(Rot2(t, dir)) && Height(Rot2(t, dir)) == Height(t) - 1 && Count(Rot2(t, dir)) == Count(t)
  {
    var q := t.Kid(!dir);
    assert Ok(q) && OkRoot(q);
    var r := q.Kid(dir);
    assert Ok(r) && OkRoot(r);
    OkSize(r.Kid(dir));
    var p', q' := Rot2(t, dir).Kid(dir), Rot2(t, dir).Kid(!dir);
    assert Count(p') == Count(t.Kid(dir)) + 1 + Count(r.Kid(dir));
    assert Count(q') == Count(r.Kid(!dir)) + 1 + Count(q.Kid(!dir));
    assert Height(p') == 1 + Max(Height(t.Kid(dir)), Height(r.Kid(dir)));
    assert Height(q') == 1 + Max(Height(r.Kid(!dir)), Height(q.Kid(!dir)));
    assert OkRoot(p') && OkRoot(q');
  }
}
