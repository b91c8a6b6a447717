/** The chained hash table of `nfq2/uthash.h` with non-fatal shortage of memory: a list in order of insertion and
    bucket chains over the same handles. */
module HashTable {
  import opened Bytes

  const InitialBuckets: nat := 32
  const InitialLog2: nat := 5
  const CapacityThresh: nat := 10

  // ----- Buckets of a hash value -----

  /** `HASH_TO_BKT`. */
  function ToBkt(hashv: nat, n: nat): nat
    requires n > 0
  {
    And(hashv, n - 1)
  }

  lemma BktInRange(hashv: nat, k: nat)
    ensures ToBkt(hashv, Pow2(k)) < Pow2(k)
  {
    MaskIsRemainder(hashv, k);
  }

  /** Doubling sends the handles of bucket `b` to the buckets `b` and `b + n`. */
  lemma BktSplits(hashv: nat, k: nat)
    ensures ToBkt(hashv, Pow2(k + 1)) == ToBkt(hashv, Pow2(k)) || ToBkt(hashv, Pow2(k + 1)) == ToBkt(hashv, Pow2(k)) + Pow2(k)
  {
    MaskIsRemainder(hashv, k);
    MaskIsRemainder(hashv, k + 1);
    HalfBlock(hashv, Pow2(k));
  }

  // ----- Handles and sequences of them -----

  /** `UT_hash_handle` of an element, with the bytes of its key and its hash value. */
  class Handle {
    const key: seq<byte>
    const hashv: nat
    var next: Handle?
    var prev: Handle?
    var hhNext: Handle?
    var hhPrev: Handle?

    constructor (key: seq<byte>, hashv: nat)
      ensures this.key == key && this.hashv == hashv
    {
      this.key, this.hashv := key, hashv;
      next, prev, hhNext, hhPrev := null, null, null, null;
    }
  }

  /** `UT_hash_bucket`. */
  datatype Bucket = Bucket(hhHead: Handle?, count: nat, expandMult: nat)

  function At(s: seq<Handle>, i: int): Handle? {
    if 0 <= i < |s| then s[i] else null
  }

  ghost function SetOf(s: seq<Handle>): set<Handle> { set h | h in s }

  ghost predicate NoRepeats(s: seq<Handle>) {
    forall i, j :: 0 <= i < j < |s| ==> s[i] != s[j]
  }

  ghost function DropAt(s: seq<Handle>, k: nat): seq<Handle>
    requires k < |s|
  {
    s[..k] + s[k + 1..]
  }

  /** No other place holds what is at `k`. */
  lemma DistinctAt(s: seq<Handle>, k: nat)
    requires NoRepeats(s) && k < |s|
    ensures forall i :: 0 <= i < |s| && i != k ==> s[i] != s[k]
  {
  }

  lemma DistinctCut(s: seq<Handle>, k: nat)
    requires NoRepeats(s) && k < |s|
    ensures NoRepeats(DropAt(s, k)) && forall i :: 0 <= i < |s| && i != k ==> s[i] != s[k]
  {
    var t := DropAt(s, k);
    forall i, j | 0 <= i < j < |t|
      ensures t[i] != t[j]
    {
      assert t[i] == s[if i < k then i else i + 1] && t[j] == s[if j < k then j else j + 1];
    }
  }

  lemma AtIs(s: seq<Handle>, i: int)
    ensures if 0 <= i < |s| then At(s, i) == s[i] else At(s, i) == null
  {
  }

  lemma AtCut(s: seq<Handle>, k: nat, i: int)
    requires k < |s|
    ensures At(DropAt(s, k), i) == At(s, if i < k then i else i + 1)
  {
  }

  /** The list of all elements in order of insertion. */
  ghost predicate ListLinked(s: seq<Handle>)
    reads s
  {
    NoRepeats(s) && forall i :: 0 <= i < |s| ==> s[i].next == At(s, i + 1) && s[i].prev == At(s, i - 1)
  }

  /** The chain of one bucket. */
  ghost predicate ChainLinked(s: seq<Handle>)
    reads s
  {
    NoRepeats(s) && forall i :: 0 <= i < |s| ==> s[i].hhNext == At(s, i + 1) && s[i].hhPrev == At(s, i - 1)
  }

  method AppendList(ghost order: seq<Handle>, tail: Handle, h: Handle)
    requires ListLinked(order) && order != [] && tail == order[|order| - 1] && h !in order
    modifies tail`next, h`next, h`prev
    ensures ListLinked(order + [h])
  {
    h.next, h.prev := null, tail;
    tail.next := h;
    ghost var s := order + [h];
    forall i | 0 <= i < |s|
      ensures s[i].next == At(s, i + 1) && s[i].prev == At(s, i - 1)
    {
      assert i < |order| ==> s[i] == order[i] && order[i] != h && (i < |order| - 1 ==> order[i] != tail);
    }
  }

  lemma ListCut(s: seq<Handle>, k: nat)
    requires k < |s| && NoRepeats(s)
    requires forall j :: 0 <= j < |s| && j != k ==>
               s[j].next == At(s, if j == k - 1 then k + 1 else j + 1) && s[j].prev == At(s, if j == k + 1 then k - 1 else j - 1)
    ensures ListLinked(DropAt(s, k))
  {
    hide NoRepeats, At;
    DistinctCut(s, k);
    var u := DropAt(s, k);
    forall i | 0 <= i < |u|
      ensures u[i].next == At(u, i + 1) && u[i].prev == At(u, i - 1)
    {
      assert u[i] == s[if i < k then i else i + 1];
      AtCut(s, k, i - 1);
      AtCut(s, k, i + 1);
    }
  }

  /** The part of `HASH_DELETE_HH` for the list; the neighbours of the deleted handle are linked. */
  method CutList(ghost order: seq<Handle>, ghost k: nat, h: Handle)
    requires ListLinked(order) && k < |order| && order[k] == h
    modifies order
    ensures ListLinked(DropAt(order, k))
    ensures forall x :: x in order ==> x.hhNext == old(x.hhNext) && x.hhPrev == old(x.hhPrev)
    ensures h.next == old(h.next) && h.prev == old(h.prev)
  {
    hide NoRepeats, DropAt, At;
    AtIs(order, k - 1);
    AtIs(order, k + 1);
    if h.prev != null {
      DistinctAt(order, k - 1);
      h.prev.next := h.next;
    }
    if h.next != null {
      DistinctAt(order, k + 1);
      h.next.prev := h.prev;
    }
    DistinctAt(order, k);
    ListCut(order, k);
  }

  /** A handle put in front of a chain. */
  method PushChain(ghost chain: seq<Handle>, first: Handle?, h: Handle)
    requires ChainLinked(chain) && first == At(chain, 0) && h !in chain
    modifies h`hhNext, h`hhPrev, chain
    ensures ChainLinked([h] + chain)
    ensures forall x :: x in chain || x == h ==> x.next == old(x.next) && x.prev == old(x.prev)
  {
    h.hhNext, h.hhPrev := first, null;
    if first != null {
      first.hhPrev := h;
    }
    ghost var s := [h] + chain;
    forall i | 0 <= i < |s|
      ensures s[i].hhNext == At(s, i + 1) && s[i].hhPrev == At(s, i - 1)
    {
      assert i > 0 ==> s[i] == chain[i - 1] && chain[i - 1] != h;
    }
  }

  lemma ChainCut(s: seq<Handle>, k: nat)
    requires k < |s| && NoRepeats(s)
    requires forall j :: 0 <= j < |s| && j != k ==>
               s[j].hhNext == At(s, if j == k - 1 then k + 1 else j + 1) && s[j].hhPrev == At(s, if j == k + 1 then k - 1 else j - 1)
    ensures ChainLinked(DropAt(s, k))
  {
    hide NoRepeats, At;
    DistinctCut(s, k);
    var u := DropAt(s, k);
    forall i | 0 <= i < |u|
      ensures u[i].hhNext == At(u, i + 1) && u[i].hhPrev == At(u, i - 1)
    {
      assert u[i] == s[if i < k then i else i + 1];
      AtCut(s, k, i - 1);
      AtCut(s, k, i + 1);
    }
  }

  /** The link part of `HASH_DEL_IN_BKT`. */
  method CutChain(ghost chain: seq<Handle>, ghost k: nat, h: Handle)
    requires ChainLinked(chain) && k < |chain| && chain[k] == h
    modifies chain
    ensures ChainLinked(DropAt(chain, k))
    ensures forall x :: x in chain ==> x.next == old(x.next) && x.prev == old(x.prev)
    ensures h.hhNext == old(h.hhNext) && h.hhPrev == old(h.hhPrev)
  {
    hide NoRepeats, DropAt, At;
    AtIs(chain, k - 1);
    AtIs(chain, k + 1);
    if h.hhPrev != null {
      DistinctAt(chain, k - 1);
      h.hhPrev.hhNext := h.hhNext;
    }
    if h.hhNext != null {
      DistinctAt(chain, k + 1);
      h.hhNext.hhPrev := h.hhPrev;
    }
    DistinctAt(chain, k);
    ChainCut(chain, k);
  }

  // ----- The table -----

  /** Handles are in the bucket of their hash value. */
  ghost predicate Placed(cs: seq<seq<Handle>>, n: nat) {
    n > 0 && |cs| == n && forall b, i :: 0 <= b < n && 0 <= i < |cs[b]| ==> ToBkt(cs[b][i].hashv, n) == b
  }

  /** All chains are linked, and the buckets point to their first handles. */
  ghost predicate AllLinked(cs: seq<seq<Handle>>, buckets: array<Bucket>, repr: set<Handle>)
    reads buckets, repr
  {
    |cs| == buckets.Length && (forall b, i :: 0 <= b < |cs| && 0 <= i < |cs[b]| ==> cs[b][i] in repr) &&
    forall b :: 0 <= b < |cs| ==> ChainLinked(cs[b]) && buckets[b].hhHead == At(cs[b], 0)
  }

  ghost predicate InChains(cs: seq<seq<Handle>>, h: Handle) {
    exists b :: 0 <= b < |cs| && h in cs[b]
  }

  ghost predicate AllIn(cs: seq<seq<Handle>>, repr: set<Handle>) {
    forall h :: h in repr ==> InChains(cs, h)
  }

  ghost predicate CountsMatch(cs: seq<seq<Handle>>, buckets: array<Bucket>)
    reads buckets
  {
    |cs| == buckets.Length && forall b :: 0 <= b < |cs| ==> buckets[b].count == |cs[b]|
  }

  /** The step of `HASH_EXPAND_BUCKETS` for one handle: it goes to the front of its new chain. */
  method MoveHandle(nb: array<Bucket>, n: nat, h: Handle, ideal: nat, ghost nc: seq<seq<Handle>>, ghost repr: set<Handle>)
    returns (nonideal: bool, ghost nc': seq<seq<Handle>>)
    requires nb.Length == n && Placed(nc, n) && AllLinked(nc, nb, repr) && CountsMatch(nc, nb) && h in repr && !InChains(nc, h)
    requires ToBkt(h.hashv, n) < n
    modifies nb, repr
    ensures Placed(nc', n) && AllLinked(nc', nb, repr) && CountsMatch(nc', nb)
    ensures nc' == nc[ToBkt(h.hashv, n) := [h] + nc[ToBkt(h.hashv, n)]]
    ensures forall x :: x in repr ==> x.next == old(x.next) && x.prev == old(x.prev)
    ensures forall x :: x in repr && x != h && !InChains(nc, x) ==> x.hhNext == old(x.hhNext)
  {
    var b := ToBkt(h.hashv, n);
    nonideal := nb[b].count + 1 > ideal;
    var mult := nb[b].expandMult + if nonideal && nb[b].count + 1 > nb[b].expandMult * ideal then 1 else 0;
    nc' := PushBkt(nb, n, b, h, mult, nc, repr);
  }

  lemma NotInChains(cs: seq<seq<Handle>>, h: Handle)
    requires !InChains(cs, h)
    ensures forall c :: 0 <= c < |cs| ==> h !in cs[c]
  {
  }

  lemma PlacedPush(cs: seq<seq<Handle>>, n: nat, b: nat, h: Handle)
    requires Placed(cs, n) && b == ToBkt(h.hashv, n) && b < n
    ensures Placed(cs[b := [h] + cs[b]], n)
  {
    hide ToBkt;
  }

  lemma PlacedCut(cs: seq<seq<Handle>>, n: nat, b: nat, k: nat)
    requires Placed(cs, n) && b < n && k < |cs[b]|
    ensures Placed(cs[b := DropAt(cs[b], k)], n)
    ensures forall i :: 0 <= i < |DropAt(cs[b], k)| ==> DropAt(cs[b], k)[i] in cs[b]
  {
    hide ToBkt;
  }

  /** Different buckets have different handles. */
  lemma Apart(cs: seq<seq<Handle>>, n: nat, b: nat)
    requires Placed(cs, n) && b < n
    ensures |cs| == n && forall c, i :: 0 <= c < n && c != b && 0 <= i < |cs[c]| ==> cs[c][i] !in cs[b]
  {
    hide ToBkt;
  }

  lemma HeadOfCut(s: seq<Handle>, k: nat)
    requires k < |s| && NoRepeats(s)
    ensures At(DropAt(s, k), 0) == if At(s, 0) == s[k] then At(s, k + 1) else At(s, 0)
  {
  }

  lemma ListDistinct(s: seq<Handle>)
    requires ListLinked(s)
    ensures NoRepeats(s)
  {
  }

  lemma NeighboursOf(s: seq<Handle>, k: nat)
    requires ListLinked(s) && k < |s|
    ensures s[k].next == At(s, k + 1) && s[k].prev == At(s, k - 1)
  {
  }

  lemma LastOfCut(s: seq<Handle>, k: nat)
    requires k < |s| && NoRepeats(s)
    ensures At(DropAt(s, k), |s| - 2) == if At(s, |s| - 1) == s[k] then At(s, k - 1) else At(s, |s| - 1)
  {
  }

  /** The links of a handle that goes to the front of bucket `b`. */
  method PushBkt(buckets: array<Bucket>, ghost n: nat, b: nat, h: Handle, mult: nat, ghost cs: seq<seq<Handle>>, ghost repr: set<Handle>)
    returns (ghost ds: seq<seq<Handle>>)
    requires Placed(cs, n) && AllLinked(cs, buckets, repr) && h in repr && !InChains(cs, h) && b == ToBkt(h.hashv, n) && b < n
    modifies buckets, repr
    ensures ds == cs[b := [h] + cs[b]] && Placed(ds, n) && AllLinked(ds, buckets, repr)
    ensures forall x :: x in repr ==> x.next == old(x.next) && x.prev == old(x.prev)
    ensures forall x :: x in repr && x != h && !InChains(cs, x) ==> x.hhNext == old(x.hhNext)
    ensures old(CountsMatch(cs, buckets)) ==> CountsMatch(ds, buckets)
  {
    ghost var chain := cs[b];
    ds := cs[b := [h] + chain];
    PlacedPush(cs, n, b, h);
    Apart(cs, n, b);
    NotInChains(cs, h);
    OldDistinct(cs, buckets, repr);
    hide Placed, InChains, ToBkt, ChainLinked, NoRepeats, AllLinked;
    label before:
    PushChain(chain, buckets[b].hhHead, h);
    forall c | 0 <= c < n && c != b
      ensures ChainLinked(cs[c])
    {
      ChainKept@before(cs[c]);
    }
    forall x | x in repr && x != h && !InChains(cs, x)
      ensures x.hhNext == old(x.hhNext)
    {
      NotInChains(cs, x);
    }
    buckets[b] := Bucket(h, buckets[b].count + 1, mult);
    AllLinkedUpdate(cs, b, [h] + chain, buckets, repr);
  }

  lemma AllLinkedUpdate(cs: seq<seq<Handle>>, b: nat, s: seq<Handle>, buckets: array<Bucket>, repr: set<Handle>)
    requires b < |cs| == buckets.Length && (forall c, i :: 0 <= c < |cs| && 0 <= i < |cs[c]| ==> cs[c][i] in repr)
    requires (forall i :: 0 <= i < |s| ==> s[i] in repr) && ChainLinked(s) && buckets[b].hhHead == At(s, 0)
    requires forall c :: 0 <= c < |cs| && c != b ==> ChainLinked(cs[c]) && buckets[c].hhHead == At(cs[c], 0)
    ensures AllLinked(cs[b := s], buckets, repr)
  {
    hide ChainLinked;
  }

  /** The links and the bucket of a handle that leaves its chain. */
  method CutBkt(buckets: array<Bucket>, ghost n: nat, b: nat, ghost k: nat, h: Handle, ghost cs: seq<seq<Handle>>, ghost repr: set<Handle>)
    returns (ghost ds: seq<seq<Handle>>)
    requires Placed(cs, n) && AllLinked(cs, buckets, repr) && b < n && k < |cs[b]| && cs[b][k] == h && CountsMatch(cs, buckets)
    modifies buckets, repr
    ensures ds == cs[b := DropAt(cs[b], k)] && Placed(ds, n) && AllLinked(ds, buckets, repr)
    ensures forall x :: x in repr ==> x.next == old(x.next) && x.prev == old(x.prev)
    ensures old(CountsMatch(cs, buckets)) ==> CountsMatch(ds, buckets)
  {
    hide Placed, ToBkt, NoRepeats, ChainLinked, AllLinked;
    PlacedSize(cs, n);
    ghost var chain := cs[b];
    ds := cs[b := DropAt(chain, k)];
    PlacedCut(cs, n, b, k);
    Apart(cs, n, b);
    OldDistinct(cs, buckets, repr);
    HeadOfCut(chain, k);
    NextOf(chain, k);
    var hd := if buckets[b].hhHead == h then h.hhNext else buckets[b].hhHead;
    label before:
    CutChain(chain, k, h);
    forall c | 0 <= c < n && c != b
      ensures ChainLinked(cs[c])
    {
      ChainKept@before(cs[c]);
    }
    buckets[b] := Bucket(hd, buckets[b].count - 1, buckets[b].expandMult);
    AllLinkedUpdate(cs, b, DropAt(chain, k), buckets, repr);
  }

  lemma NextOf(s: seq<Handle>, k: nat)
    requires ChainLinked(s) && k < |s|
    ensures s[k].hhNext == At(s, k + 1)
  {
  }

  /** The handles of the first `b` chains and of the first `j` places of the next. */
  ghost predicate MovedBefore(cs: seq<seq<Handle>>, b: nat, j: nat, h: Handle) {
    (exists c :: 0 <= c < b && c < |cs| && h in cs[c]) || (b < |cs| && exists i :: 0 <= i < j && i < |cs[b]| && cs[b][i] == h)
  }

  /** What has been moved is in the new chains, and the rest of the old chains can still be followed. */
  ghost predicate Moving(oc: seq<seq<Handle>>, n: nat, b: nat, j: nat, nc: seq<seq<Handle>>, nb: array<Bucket>, repr: set<Handle>)
    reads nb, repr
  {
    nb.Length == 2 * n && |oc| == n && Placed(nc, 2 * n) && AllLinked(nc, nb, repr) && CountsMatch(nc, nb) &&
    (forall h :: h in repr ==> (InChains(nc, h) <==> MovedBefore(oc, b, j, h))) &&
    forall c, i :: 0 <= c < n && 0 <= i < |oc[c]| && (c > b || (c == b && i >= j)) ==> oc[c][i] in repr && oc[c][i].hhNext == At(oc[c], i + 1)
  }

  lemma MovedSnoc(cs: seq<seq<Handle>>, b: nat, j: nat, h: Handle)
    requires b < |cs| && j < |cs[b]|
    ensures MovedBefore(cs, b, j + 1, h) <==> MovedBefore(cs, b, j, h) || h == cs[b][j]
  {
  }

  lemma MovedRow(cs: seq<seq<Handle>>, b: nat, h: Handle)
    requires b < |cs|
    ensures MovedBefore(cs, b + 1, 0, h) <==> MovedBefore(cs, b, |cs[b]|, h)
  {
  }

  lemma NotMoved(cs: seq<seq<Handle>>, n: nat, b: nat, j: nat, c: nat, i: nat)
    requires Placed(cs, n) && (forall d :: 0 <= d < n ==> NoRepeats(cs[d])) && b < n && c < n && i < |cs[c]| && (c > b || (c == b && i >= j))
    ensures !MovedBefore(cs, b, j, cs[c][i])
  {
  }

  lemma InChainsFront(cs: seq<seq<Handle>>, b: nat, h: Handle, x: Handle)
    requires b < |cs|
    ensures InChains(cs[b := [h] + cs[b]], x) <==> InChains(cs, x) || x == h
  {
    var ds := cs[b := [h] + cs[b]];
    if InChains(cs, x) {
      var c :| 0 <= c < |cs| && x in cs[c];
      assert x in ds[c];
    }
    assert h in ds[b];
  }

  /** Everything from `j` of chain `b` on is not yet in a new chain, and differs from what is at `j`. */
  lemma StillToMove(oc: seq<seq<Handle>>, n: nat, b: nat, j: nat, nc: seq<seq<Handle>>, repr: set<Handle>)
    requires Placed(oc, n) && (forall d :: 0 <= d < n ==> NoRepeats(oc[d])) && b < n && j < |oc[b]|
    requires forall h :: h in repr ==> (InChains(nc, h) <==> MovedBefore(oc, b, j, h))
    requires forall c, i :: 0 <= c < n && 0 <= i < |oc[c]| && (c > b || (c == b && i >= j)) ==> oc[c][i] in repr
    ensures !InChains(nc, oc[b][j])
    ensures forall c, i :: 0 <= c < n && 0 <= i < |oc[c]| && (c > b || (c == b && i >= j + 1)) ==>
              oc[c][i] != oc[b][j] && !InChains(nc, oc[c][i])
  {
    hide InChains, MovedBefore;
    NotMoved(oc, n, b, j, b, j);
    forall c, i | 0 <= c < n && 0 <= i < |oc[c]| && (c > b || (c == b && i >= j + 1))
      ensures oc[c][i] != oc[b][j] && !InChains(nc, oc[c][i])
    {
      NotMoved(oc, n, b, j, c, i);
    }
  }

  /** One step of the redistribution. */
  method MoveNext(nb: array<Bucket>, n: nat, k: nat, h: Handle, ideal: nat, ghost oc: seq<seq<Handle>>, ghost b: nat, ghost j: nat,
                     ghost nc: seq<seq<Handle>>, ghost repr: set<Handle>)
    returns (nonideal: bool, ghost nc': seq<seq<Handle>>)
    requires n == Pow2(k) && Placed(oc, n) && forall d :: 0 <= d < n ==> NoRepeats(oc[d])
    requires b < n && j < |oc[b]| && oc[b][j] == h && Moving(oc, n, b, j, nc, nb, repr)
    modifies nb, repr
    ensures Moving(oc, n, b, j + 1, nc', nb, repr)
    ensures forall x :: x in repr ==> x.next == old(x.next) && x.prev == old(x.prev)
  {
    hide ToBkt, Placed, ChainLinked, NoRepeats, MovedBefore, AllLinked, CountsMatch, InChains;
    BktInRange(h.hashv, k + 1);
    PlacedSize(nc, 2 * n);
    ghost var m := ToBkt(h.hashv, 2 * n);
    StillToMove(oc, n, b, j, nc, repr);
    nonideal, nc' := MoveHandle(nb, 2 * n, h, ideal, nc, repr);
    forall x | x in repr
      ensures InChains(nc', x) <==> MovedBefore(oc, b, j + 1, x)
    {
      InChainsFront(nc, m, h, x);
      MovedSnoc(oc, b, j, x);
    }
  }

  lemma MovingStart(oc: seq<seq<Handle>>, n: nat, nc: seq<seq<Handle>>, nb: array<Bucket>, ob: array<Bucket>, repr: set<Handle>)
    requires n > 0 && |oc| == n && AllLinked(oc, ob, repr) && nb.Length == 2 * n
    requires |nc| == 2 * n && (forall c :: 0 <= c < 2 * n ==> nc[c] == [] && nb[c] == Bucket(null, 0, 0))
    ensures Moving(oc, n, 0, 0, nc, nb, repr)
  {
  }

  lemma MovingRow(oc: seq<seq<Handle>>, n: nat, b: nat, nc: seq<seq<Handle>>, nb: array<Bucket>, repr: set<Handle>)
    requires b < n && |oc| == n && Moving(oc, n, b, |oc[b]|, nc, nb, repr)
    ensures Moving(oc, n, b + 1, 0, nc, nb, repr)
  {
    hide Placed, AllLinked, CountsMatch, InChains;
    forall h | h in repr
      ensures MovedBefore(oc, b + 1, 0, h) <==> MovedBefore(oc, b, |oc[b]|, h)
    {
      MovedRow(oc, b, h);
    }
  }

  lemma MovingEnd(oc: seq<seq<Handle>>, n: nat, nc: seq<seq<Handle>>, nb: array<Bucket>, repr: set<Handle>)
    requires Moving(oc, n, n, 0, nc, nb, repr) && forall b, i :: 0 <= b < n && 0 <= i < |oc[b]| ==> oc[b][i] in repr
    ensures Placed(nc, 2 * n) && AllLinked(nc, nb, repr) && CountsMatch(nc, nb)
    ensures forall h :: h in repr ==> (InChains(nc, h) <==> InChains(oc, h))
  {
  }

  /** A table and its head; all handles of the list and of the chains are in `repr`. */
  class Hash {
    var head: Handle?
    var tail: Handle?
    var buckets: array<Bucket>
    var numBuckets: nat
    var log2NumBuckets: nat
    var numItems: nat
    var idealChainMaxlen: nat
    var nonidealItems: nat
    var ineffExpands: nat
    var noexpand: bool
    ghost var order: seq<Handle>
    ghost var chains: seq<seq<Handle>>
    ghost var repr: set<Handle>

    /** The list. */
    ghost predicate Listed()
      reads this, repr
    {
      repr == SetOf(order) && ListLinked(order) && head == At(order, 0) && tail == At(order, |order| - 1)
    }

    /** The chains, up to their counts. */
    ghost predicate Chained()
      reads this, repr, buckets
    {
      numBuckets == Pow2(log2NumBuckets) && Placed(chains, numBuckets) && AllLinked(chains, buckets, repr)
    }

    /** List and chains hold the same elements, each in the bucket of its hash value, and all counts agree; an
        empty table has no buckets. */
    ghost predicate Valid()
      reads this, repr, buckets
    {
      Listed() && (head != null ==>
        Chained() && CountsMatch(chains, buckets) && numItems == |order| && AllIn(chains, repr))
    }

    constructor ()
      ensures Valid() && order == []
    {
      head, tail, buckets, order, chains, repr := null, null, new Bucket[0], [], [], {};
      numBuckets, log2NumBuckets, numItems, idealChainMaxlen, nonidealItems, ineffExpands, noexpand := 0, 0, 0, 0, 0, 0, false;
    }

    /** `HASH_EXPAND_BUCKETS`: doubles the buckets, if there is memory for them. */
    method ExpandBuckets(mem: bool) returns (oomed: bool)
      requires Chained() && ListLinked(order) && repr == SetOf(order) && CountsMatch(chains, buckets)
      modifies this`buckets, this`numBuckets, this`log2NumBuckets, this`idealChainMaxlen, this`nonidealItems, this`ineffExpands,
               this`noexpand, this`chains, repr
      ensures oomed == !mem && Chained() && ListLinked(order) && CountsMatch(chains, buckets)
      ensures oomed ==> buckets == old(buckets) && numBuckets == old(numBuckets) && chains == old(chains) &&
                        log2NumBuckets == old(log2NumBuckets) && noexpand == old(noexpand)
      ensures !oomed ==> fresh(buckets) && numBuckets == 2 * old(numBuckets)
      ensures forall h :: h in repr ==> (InChains(chains, h) <==> InChains(old(chains), h))
    {
      hide Placed, AllLinked, CountsMatch, InChains, IdealLen, ListLinked, SetOf;
      if !mem {
        return true;
      }
      PlacedSize(chains, numBuckets);
      var ideal := IdealLen(numItems, 2 * numBuckets);
      var nb, nonideal;
      ghost var nc;
      nb, nonideal, nc := Redistribute(buckets, numBuckets, log2NumBuckets, ideal, chains, repr, order);
      idealChainMaxlen, nonidealItems := ideal, nonideal;
      numBuckets, log2NumBuckets, buckets, chains := 2 * numBuckets, log2NumBuckets + 1, nb, nc;
      ineffExpands := if nonidealItems > numItems / 2 then ineffExpands + 1 else 0;
      if ineffExpands > 1 {
        noexpand := true;
      }
      oomed := false;
    }

    /** `HASH_MAKE_TABLE`, up to the tail. */
    method MakeTable(mem: bool) returns (oomed: bool)
      requires Valid() && head == null
      modifies this`buckets, this`numBuckets, this`log2NumBuckets, this`numItems, this`idealChainMaxlen, this`nonidealItems,
               this`ineffExpands, this`noexpand, this`chains
      ensures oomed == !mem && (oomed ==> buckets == old(buckets))
      ensures !oomed ==> fresh(buckets) && Chained() && CountsMatch(chains, buckets) && numItems == 0
      ensures !oomed ==> forall b :: 0 <= b < |chains| ==> chains[b] == []
    {
      hide ToBkt, ListLinked;
      if !mem {
        return true;
      }
      assert Pow2(5) == 32;
      HeadOf(order);
      buckets := new Bucket[InitialBuckets](_ => Bucket(null, 0, 0));
      numBuckets, log2NumBuckets, numItems := InitialBuckets, InitialLog2, 0;
      idealChainMaxlen, nonidealItems, ineffExpands, noexpand := 0, 0, 0, false;
      chains := seq(InitialBuckets, _ => []);
      oomed := false;
    }

    /** The link part of `HASH_ADD_TO_BKT`. */
    method LinkIntoBkt(b: nat, h: Handle)
      requires Chained() && h in repr && !InChains(chains, h) && b == ToBkt(h.hashv, numBuckets) && b < numBuckets
      requires ListLinked(order) && SetOf(order) <= repr && CountsMatch(chains, buckets)
      modifies this`chains, buckets, repr
      ensures Chained() && chains == old(chains)[b := [h] + old(chains)[b]] && ListLinked(order) && CountsMatch(chains, buckets)
    {
      InSetOf(order);
      PlacedSize(chains, numBuckets);
      OldDistinct(chains, buckets, repr);
      hide ListLinked, Placed, AllLinked, SetOf;
      chains := PushBkt(buckets, numBuckets, b, h, buckets[b].expandMult, chains, repr);
      ListKept(order);
    }

    /** `HASH_DEL_IN_BKT` for a handle at place `k` of its chain. */
    method DelInBkt(b: nat, ghost k: nat, h: Handle)
      requires Chained() && b < numBuckets && k < |chains[b]| && chains[b][k] == h && CountsMatch(chains, buckets)
      requires ListLinked(order) && SetOf(order) <= repr
      modifies this`chains, buckets, repr
      ensures Chained() && chains == old(chains)[b := DropAt(old(chains)[b], k)] && ListLinked(order) && CountsMatch(chains, buckets)
    {
      InSetOf(order);
      hide ListLinked, Placed, AllLinked, SetOf;
      chains := CutBkt(buckets, numBuckets, b, k, h, chains, repr);
      ListKept(order);
    }

    /** `HASH_FIND_BYHASHVALUE`: an element with the key, or none if there is none. */
    method Find(key: seq<byte>, hashv: nat) returns (out: Handle?)
      requires Valid()
      ensures out != null ==> out in order && out.hashv == hashv && out.key == key
      ensures out == null ==> forall h :: h in order ==> !(h.hashv == hashv && h.key == key)
    {
      if head == null {
        return null;
      }
      hide ToBkt, ListLinked, InChains, CountsMatch, Placed, ChainLinked, AllIn;
      BktInRange(hashv, log2NumBuckets);
      PlacedSize(chains, numBuckets);
      var b := ToBkt(hashv, numBuckets);
      out := FindInBkt(chains[b], buckets[b].hhHead, key, hashv);
      if out == null {
        NotFound(chains, numBuckets, repr, key, hashv);
      } else {
        ghost var j :| 0 <= j < |chains[b]| && chains[b][j] == out;
        assert chains[b][j] in repr;
      }
    }

    /** The list part of `HASH_DELETE_HH` for an element that is not the only one. */
    method Unlink(h: Handle, ghost k: nat)
      requires Listed() && Chained() && k < |order| && order[k] == h && |order| > 1
      modifies this`head, this`tail, this`order, repr
      ensures order == DropAt(old(order), k) && ListLinked(order) && head == At(order, 0) && tail == At(order, |order| - 1)
      ensures Chained()
      ensures h.hhNext == old(h.hhNext) && h.hhPrev == old(h.hhPrev)
    {
      hide Placed, AllLinked, NoRepeats, ListLinked, SetOf, Pow2;
      ListDistinct(order);
      NeighboursOf(order, k);
      HeadOfCut(order, k);
      LastOfCut(order, k);
      if h == tail {
        tail := h.prev;
      }
      if h.prev == null {
        head := h.next;
      }
      CutFromList(order, k, h, chains, buckets, repr);
      order := DropAt(order, k);
    }

    /** `HASH_DELETE_HH`: the element leaves the list and its chain; the table goes with its last element. */
    method Delete(h: Handle) returns (ghost k: nat)
      requires Valid() && h in order
      modifies this, buckets, repr
      ensures Valid() && k < |old(order)| && old(order)[k] == h && order == DropAt(old(order), k)
      ensures buckets == old(buckets) && repr == old(repr) - {h}
    {
      hide ListLinked, Chained, AllIn, CountsMatch;
      k :| 0 <= k < |order| && order[k] == h;
      Single(order, k, h);
      if h.prev == null && h.next == null {
        head, tail, order, repr := null, null, [], {};
        EmptyList();
      } else {
        DeleteOne(h, k);
      }
    }

    method DeleteOne(h: Handle, ghost k: nat)
      requires Valid() && k < |order| && order[k] == h && |order| > 1
      modifies this`head, this`tail, this`order, this`chains, this`numItems, this`repr, buckets, repr
      ensures Valid() && order == DropAt(old(order), k) && repr == old(repr) - {h}
    {
      hide Placed, AllLinked, CountsMatch, ListLinked, InChains, AllIn, SetOf, ToBkt, Pow2, NoRepeats, ChainLinked, DropAt;
      InSetOf(order);
      HeadOf(order);
      ghost var cs, s, r := chains, order, repr;
      BktInRange(h.hashv, log2NumBuckets);
      PlacedSize(cs, numBuckets);
      var b := ToBkt(h.hashv, numBuckets);
      ghost var j := PlaceOf(cs, numBuckets, h, r);
      OldDistinct(cs, buckets, r);
      CutSet(s, k);
      DeleteLinks(h, k, b, j, s, cs);
      ShrinkRepr(cs, numBuckets, b, j, h, buckets, r);
      Forget(h);
    }

    /** The handle that has left the list and its chain no longer belongs to the table. */
    ghost method Forget(h: Handle)
      requires SetOf(order) == repr - {h} && ListLinked(order) && head == At(order, 0) && tail == At(order, |order| - 1)
      requires numBuckets == Pow2(log2NumBuckets) && Placed(chains, numBuckets) && AllLinked(chains, buckets, repr - {h})
      requires CountsMatch(chains, buckets) && numItems == |order| && AllIn(chains, repr - {h})
      modifies this`repr
      ensures Valid() && repr == old(repr) - {h}
    {
      hide Placed, AllLinked, CountsMatch, ListLinked, AllIn, SetOf, Pow2;
      repr := repr - {h};
    }

    /** The links, bucket and number of items of `HASH_DELETE_HH` for an element that is not the only one. */
    method DeleteLinks(h: Handle, ghost k: nat, b: nat, ghost j: nat, ghost s: seq<Handle>, ghost cs: seq<seq<Handle>>)
      requires Listed() && Chained() && CountsMatch(chains, buckets) && s == order && cs == chains && k < |s| && s[k] == h && |s| > 1 && numItems > 0
      requires b < numBuckets && j < |cs[b]| && cs[b][j] == h
      modifies this`head, this`tail, this`order, this`chains, this`numItems, buckets, repr
      ensures order == DropAt(s, k) && ListLinked(order) && head == At(order, 0) && tail == At(order, |order| - 1)
      ensures numItems == old(numItems) - 1 && Chained() && chains == cs[b := DropAt(cs[b], j)] && CountsMatch(chains, buckets)
    {
      hide Placed, AllLinked, ListLinked, ToBkt, ChainLinked, SetOf, NoRepeats, DropAt, Pow2, CountsMatch;
      CutSet(s, k);
      Unlink(h, k);
      DelInBkt(b, j, h);
      numItems := numItems - 1;
    }

    /** The list part of an addition: `HASH_APPEND_LIST`, or the first element. */
    method Append(h: Handle)
      requires h !in repr && Listed() && Chained()
      modifies this`head, this`tail, this`order, this`repr, repr, h
      ensures order == old(order) + [h] && repr == old(repr) + {h} && Listed() && Chained()
    {
      hide ChainLinked, Placed, NoRepeats, ListLinked, AllLinked, SetOf;
      HeadOf(order);
      SetSnoc(order, h);
      if head == null {
        h.next, h.prev := null, null;
        EmptyRepr(chains, buckets, repr, h);
        head, tail := h, h;
        order, repr := order + [h], repr + {h};
        OneListed(h);
      } else {
        AppendToList(order, tail, h, chains, buckets, repr);
        tail, order, repr := h, order + [h], repr + {h};
      }
    }

    /** `HASH_ADD_KEYPTR_BYHASHVALUE`: the element comes last in the order and into its bucket, or, if memory is
        short, the table is as it was. */
    method Add(h: Handle, memTable: bool, memBuckets: bool) returns (ok: bool)
      requires Valid() && h !in order
      modifies this, buckets, repr, h
      ensures Valid() && order == if ok then old(order) + [h] else old(order)
      ensures !ok && old(head) != null ==> buckets == old(buckets) && chains == old(chains) && numBuckets == old(numBuckets)
      ensures memTable && memBuckets ==> ok
    {
      hide ChainLinked, Placed, NoRepeats, ListLinked, AllLinked, SetOf, CountsMatch, AllIn, InChains, Pow2;
      InSetOf(order);
      HeadOf(order);
      var oomed := false;
      if head == null {
        oomed := MakeTable(memTable);
        if oomed {
          return false;
        }
        EmptyIn(chains, repr);
      }
      FreshHandle(chains, buckets, repr, h);
      ghost var s, r := order, repr;
      Append(h);
      assert repr - {h} == r;
      assert (s + [h])[..|s|] == s;
      oomed := AddToTable(h, memBuckets);
      ok := !oomed;
    }

    /** `HASH_ADD_TO_TABLE`: the element, already in the list, goes to its bucket, which may double the buckets. If
        there is no memory for that, everything is taken back, with the count of the bucket raised before
        `HASH_DELETE_HH` lowers it again. */
    method AddToTable(h: Handle, mem: bool) returns (oomed: bool)
      requires Listed() && Chained() && CountsMatch(chains, buckets) && numItems + 1 == |order| && h in repr && !InChains(chains, h)
      requires AllIn(chains, repr - {h}) && order[|order| - 1] == h && (|order| == 1 ==> forall b :: 0 <= b < |chains| ==> chains[b] == [])
      modifies this, buckets, repr
      ensures Valid() && (mem ==> !oomed)
      ensures order == if oomed then old(order)[..|old(order)| - 1] else old(order)
      ensures repr == if oomed then old(repr) - {h} else old(repr)
      ensures oomed ==> buckets == old(buckets) && chains == old(chains) && numBuckets == old(numBuckets)
    {
      hide Placed, AllLinked, CountsMatch, ListLinked, InChains, AllIn, SetOf, ToBkt, Pow2, NoRepeats, ChainLinked;
      ghost var cs, r := chains, repr;
      BktInRange(h.hashv, log2NumBuckets);
      PlacedSize(cs, numBuckets);
      numItems := numItems + 1;
      var b := ToBkt(h.hashv, numBuckets);
      LinkIntoBkt(b, h);
      PushedIn(cs, b, h, r);
      CountIs(chains, buckets, b);
      HeadOf(order);
      oomed := false;
      if buckets[b].count >= (buckets[b].expandMult + 1) * CapacityThresh && !noexpand {
        oomed := ExpandBuckets(mem);
      }
      AllInAgain(cs[b := [h] + cs[b]], chains, repr);
      if oomed {
        Rollback(b, h, cs);
      }
    }

    /** What follows when the buckets could not be doubled: `HASH_DEL_IN_BKT`, `HASH_ROLLBACK_BKT` and
        `HASH_DELETE_HH`. */
    method Rollback(b: nat, h: Handle, ghost cs: seq<seq<Handle>>)
      requires Listed() && Chained() && numItems == |order| > 1 && order[|order| - 1] == h && h in repr && b < numBuckets == |cs|
      requires chains == cs[b := [h] + cs[b]] && !InChains(cs, h) && AllIn(cs, repr - {h}) && Placed(cs, numBuckets)
      requires CountsMatch(chains, buckets)
      modifies this`head, this`tail, this`order, this`chains, this`numItems, this`repr, buckets, repr
      ensures Valid() && order == old(order)[..|old(order)| - 1] && repr == old(repr) - {h} && chains == cs
    {
      hide Placed, AllLinked, CountsMatch, ListLinked, InChains, AllIn, SetOf, ToBkt, Pow2, NoRepeats, ChainLinked;
      ghost var s, r := order, repr;
      CutSet(s, |s| - 1);
      CutLast(s);
      InSetOf(s);
      assert DropAt([h] + cs[b], 0) == cs[b];
      DelInBkt(b, 0, h);
      assert chains == cs;
      CountIs(cs, buckets, b);
      label before:
      RaiseCount(b, h, cs, buckets, repr);
      ListKept@before(s);
      Unlink(h, |s| - 1);
      LowerCount(b, h, cs, buckets, repr);
      numItems := numItems - 1;
      Forget(h);
    }
  }

  /** Counts that match but for one more in bucket `b`. */
  ghost predicate OneMore(cs: seq<seq<Handle>>, buckets: array<Bucket>, b: nat)
    reads buckets
  {
    |cs| == buckets.Length && forall c :: 0 <= c < |cs| ==> buckets[c].count == |cs[c]| + if c == b then 1 else 0
  }

  /** `HASH_ROLLBACK_BKT`. */
  method RaiseCount(b: nat, h: Handle, ghost cs: seq<seq<Handle>>, buckets: array<Bucket>, ghost repr: set<Handle>)
    requires b < |cs| == buckets.Length && AllLinked(cs, buckets, repr) && CountsMatch(cs, buckets) && !InChains(cs, h)
    modifies buckets, h
    ensures AllLinked(cs, buckets, repr) && OneMore(cs, buckets, b) && h.hhNext == null && h.hhPrev == null
    ensures h.next == old(h.next) && h.prev == old(h.prev)
  {
    hide InChains, ChainLinked, NoRepeats, ListLinked, AllLinked;
    OldDistinct(cs, buckets, repr);
    NotInChains(cs, h);
    buckets[b] := buckets[b].(count := buckets[b].count + 1);
    label before:
    h.hhNext, h.hhPrev := null, null;
    forall c | 0 <= c < |cs|
      ensures ChainLinked(cs[c])
    {
      ChainKept@before(cs[c]);
    }
    AllLinkedAgain(cs, buckets, repr);
  }

  /** `HASH_DEL_IN_BKT` for a handle without links in no chain. */
  method LowerCount(b: nat, h: Handle, ghost cs: seq<seq<Handle>>, buckets: array<Bucket>, ghost repr: set<Handle>)
    requires b < |cs| == buckets.Length && AllLinked(cs, buckets, repr) && OneMore(cs, buckets, b) && !InChains(cs, h)
    requires h.hhNext == null && h.hhPrev == null
    modifies buckets
    ensures AllLinked(cs, buckets, repr - {h}) && CountsMatch(cs, buckets)
  {
    hide InChains, ChainLinked, NoRepeats, AllLinked;
    OldDistinct(cs, buckets, repr);
    NotInChains(cs, h);
    assert buckets[b].hhHead != h;
    buckets[b] := buckets[b].(count := buckets[b].count - 1);
    AllLinkedAgain(cs, buckets, repr - {h});
  }

  lemma CountIs(cs: seq<seq<Handle>>, buckets: array<Bucket>, b: nat)
    requires CountsMatch(cs, buckets) && b < |cs|
    ensures |cs| == buckets.Length && buckets[b].count == |cs[b]|
  {
  }

  lemma PushedIn(cs: seq<seq<Handle>>, b: nat, h: Handle, repr: set<Handle>)
    requires b < |cs| && AllIn(cs, repr - {h})
    ensures AllIn(cs[b := [h] + cs[b]], repr)
  {
    hide InChains;
    forall x | x in repr
      ensures InChains(cs[b := [h] + cs[b]], x)
    {
      InChainsFront(cs, b, h, x);
    }
  }

  lemma AllInAgain(cs: seq<seq<Handle>>, ds: seq<seq<Handle>>, repr: set<Handle>)
    requires AllIn(cs, repr) && forall h :: h in repr ==> (InChains(ds, h) <==> InChains(cs, h))
    ensures AllIn(ds, repr)
  {
  }

  lemma InSetOf(s: seq<Handle>)
    ensures forall x :: x in s <==> x in SetOf(s)
  {
  }

  lemma Single(s: seq<Handle>, k: nat, h: Handle)
    requires ListLinked(s) && k < |s| && s[k] == h
    ensures if h.prev == null && h.next == null then |s| == 1 && DropAt(s, k) == [] && SetOf(s) == {h} else |s| > 1
  {
  }

  lemma EmptyList()
    ensures ListLinked([]) && SetOf([]) == {}
  {
  }

  lemma HeadOf(s: seq<Handle>)
    ensures s != [] <==> At(s, 0) != null
  {
  }

  lemma PlaceOf(cs: seq<seq<Handle>>, n: nat, h: Handle, repr: set<Handle>) returns (j: nat)
    requires Placed(cs, n) && AllIn(cs, repr) && h in repr
    ensures ToBkt(h.hashv, n) < n && j < |cs[ToBkt(h.hashv, n)]| && cs[ToBkt(h.hashv, n)][j] == h
  {
    hide ToBkt;
    assert InChains(cs, h);
    var c :| 0 <= c < |cs| && h in cs[c];
    j :| 0 <= j < |cs[c]| && cs[c][j] == h;
  }

  lemma EmptyIn(cs: seq<seq<Handle>>, repr: set<Handle>)
    requires repr == SetOf([])
    ensures AllIn(cs, repr) && repr == {}
  {
  }

  lemma FreshHandle(cs: seq<seq<Handle>>, buckets: array<Bucket>, repr: set<Handle>, h: Handle)
    requires AllLinked(cs, buckets, repr) && h !in repr
    ensures !InChains(cs, h)
  {
  }

  lemma EmptyRepr(cs: seq<seq<Handle>>, buckets: array<Bucket>, repr: set<Handle>, h: Handle)
    requires AllLinked(cs, buckets, repr) && h !in repr
    ensures AllLinked(cs, buckets, repr + {h})
  {
    hide ChainLinked;
  }

  lemma SetSnoc(s: seq<Handle>, h: Handle)
    ensures SetOf(s + [h]) == SetOf(s) + {h}
  {
  }

  lemma OneListed(h: Handle)
    requires h.next == null && h.prev == null
    ensures ListLinked([] + [h])
  {
  }

  lemma CutLast(s: seq<Handle>)
    requires s != []
    ensures DropAt(s, |s| - 1) == s[..|s| - 1]
  {
  }

  lemma CutSet(s: seq<Handle>, k: nat)
    requires k < |s| && ListLinked(s)
    ensures SetOf(DropAt(s, k)) == SetOf(s) - {s[k]} && |DropAt(s, k)| == |s| - 1
  {
    hide NoRepeats;
    DistinctAt(s, k);
    var t := DropAt(s, k);
    forall x | x in t
      ensures x in s && x != s[k]
    {
      var i :| 0 <= i < |t| && t[i] == x;
      assert x == s[if i < k then i else i + 1];
    }
    forall x | x in s && x != s[k]
      ensures x in t
    {
      var i :| 0 <= i < |s| && s[i] == x;
      assert t[if i < k then i else i - 1] == x;
    }
  }

  lemma ShrinkRepr(cs: seq<seq<Handle>>, n: nat, b: nat, j: nat, h: Handle, buckets: array<Bucket>, repr: set<Handle>)
    requires Placed(cs, n) && b < n && j < |cs[b]| && cs[b][j] == h && NoRepeats(cs[b])
    requires AllLinked(cs[b := DropAt(cs[b], j)], buckets, repr) && AllIn(cs, repr)
    ensures AllLinked(cs[b := DropAt(cs[b], j)], buckets, repr - {h}) && AllIn(cs[b := DropAt(cs[b], j)], repr - {h})
  {
    hide ChainLinked, ToBkt;
    var ds := cs[b := DropAt(cs[b], j)];
    forall c, i | 0 <= c < n && 0 <= i < |ds[c]|
      ensures ds[c][i] != h
    {
      if c == b {
        assert ds[c][i] == cs[b][if i < j then i else i + 1];
      }
    }
    forall x | x in repr - {h}
      ensures InChains(ds, x)
    {
      assert InChains(cs, x);
      var c :| 0 <= c < |cs| && x in cs[c];
      var i :| 0 <= i < |cs[c]| && cs[c][i] == x;
      if c == b {
        assert ds[c][if i < j then i else i - 1] == x;
      }
      assert x in ds[c];
    }
  }

  /** `HASH_FIND_IN_BKT`. */
  method FindInBkt(ghost chain: seq<Handle>, first: Handle?, key: seq<byte>, hashv: nat) returns (out: Handle?)
    requires ChainLinked(chain) && first == At(chain, 0)
    ensures out != null ==> out in chain && out.hashv == hashv && out.key == key
    ensures out == null ==> forall h :: h in chain ==> !(h.hashv == hashv && h.key == key)
  {
    ghost var j := 0;
    out := first;
    while out != null && !(out.hashv == hashv && out.key == key)
      invariant j <= |chain| && out == At(chain, j)
      invariant forall i :: 0 <= i < j ==> !(chain[i].hashv == hashv && chain[i].key == key)
      decreases |chain| - j
    {
      assert chain[j] == out;
      out, j := out.hhNext, j + 1;
    }
  }

  lemma NotFound(cs: seq<seq<Handle>>, n: nat, repr: set<Handle>, key: seq<byte>, hashv: nat)
    requires Placed(cs, n) && ToBkt(hashv, n) < n && AllIn(cs, repr)
    requires forall h :: h in cs[ToBkt(hashv, n)] ==> !(h.hashv == hashv && h.key == key)
    ensures forall h :: h in repr ==> !(h.hashv == hashv && h.key == key)
  {
    hide ToBkt;
    forall h | h in repr
      ensures !(h.hashv == hashv && h.key == key)
    {
      assert InChains(cs, h);
      var c :| 0 <= c < |cs| && h in cs[c];
      var i :| 0 <= i < |cs[c]| && cs[c][i] == h;
    }
  }

  /** A handle leaves the list; the chains are not touched. */
  method CutFromList(ghost order: seq<Handle>, ghost k: nat, h: Handle, ghost cs: seq<seq<Handle>>, ghost buckets: array<Bucket>,
                        ghost repr: set<Handle>)
    requires ListLinked(order) && k < |order| && order[k] == h && AllLinked(cs, buckets, repr) && repr == SetOf(order)
    modifies repr
    ensures ListLinked(DropAt(order, k)) && AllLinked(cs, buckets, repr)
    ensures h.hhNext == old(h.hhNext) && h.hhPrev == old(h.hhPrev)
  {
    OldDistinct(cs, buckets, repr);
    hide ChainLinked, NoRepeats, ListLinked, AllLinked;
    label before:
    CutList(order, k, h);
    forall c | 0 <= c < |cs|
      ensures ChainLinked(cs[c])
    {
      ChainKept@before(cs[c]);
    }
    AllLinkedAgain(cs, buckets, repr);
  }

  /** A handle is appended to the list; the chains are not touched. */
  method AppendToList(ghost order: seq<Handle>, tail: Handle, h: Handle, ghost cs: seq<seq<Handle>>,
                         ghost buckets: array<Bucket>, ghost repr: set<Handle>)
    requires ListLinked(order) && order != [] && tail == order[|order| - 1] && AllLinked(cs, buckets, repr) && repr == SetOf(order) && h !in repr
    modifies repr, h
    ensures ListLinked(order + [h]) && AllLinked(cs, buckets, repr + {h})
  {
    OldDistinct(cs, buckets, repr);
    hide ChainLinked, NoRepeats, ListLinked, AllLinked;
    label before:
    AppendList(order, tail, h);
    forall c | 0 <= c < |cs|
      ensures ChainLinked(cs[c])
    {
      ChainKept@before(cs[c]);
    }
    AllLinkedAgain(cs, buckets, repr + {h});
  }

  lemma AllLinkedAgain(cs: seq<seq<Handle>>, buckets: array<Bucket>, repr: set<Handle>)
    requires |cs| == buckets.Length && (forall b, i :: 0 <= b < |cs| && 0 <= i < |cs[b]| ==> cs[b][i] in repr)
    requires forall b :: 0 <= b < |cs| ==> ChainLinked(cs[b]) && buckets[b].hhHead == At(cs[b], 0)
    ensures AllLinked(cs, buckets, repr)
  {
  }

  twostate lemma ChainKept(s: seq<Handle>)
    requires old(ChainLinked(s)) && forall x :: x in s ==> x.hhNext == old(x.hhNext) && x.hhPrev == old(x.hhPrev)
    ensures ChainLinked(s)
  {
  }

  /** Links that no one has changed still make a list. */
  twostate lemma ListKept(s: seq<Handle>)
    requires old(ListLinked(s)) && forall x :: x in s ==> x.next == old(x.next) && x.prev == old(x.prev)
    ensures ListLinked(s)
  {
  }

  /** The greatest length of a chain if the items spread evenly over `n` buckets. */
  function IdealLen(items: nat, n: nat): nat
    requires n > 0
  {
    items / n + if And(items, n - 1) != 0 then 1 else 0
  }

  /** All handles in twice as many new buckets. */
  method Redistribute(ob: array<Bucket>, n: nat, k: nat, ideal: nat, ghost oc: seq<seq<Handle>>, ghost repr: set<Handle>,
                         ghost order: seq<Handle>)
    returns (nb: array<Bucket>, nonideal: nat, ghost nc: seq<seq<Handle>>)
    requires n == Pow2(k) && Placed(oc, n) && AllLinked(oc, ob, repr) && ListLinked(order) && repr == SetOf(order)
    modifies repr
    ensures fresh(nb) && Placed(nc, 2 * n) && AllLinked(nc, nb, repr) && CountsMatch(nc, nb) && ListLinked(order)
    ensures forall h :: h in repr ==> (InChains(nc, h) <==> InChains(oc, h))
  {
    hide Placed, AllLinked, CountsMatch, InChains, ListLinked;
    PlacedSize(oc, n);
    OldDistinct(oc, ob, repr);
    nb, nc := new Bucket[2 * n](_ => Bucket(null, 0, 0)), seq(2 * n, _ => []);
    MovingStart(oc, n, nc, nb, ob, repr);
    hide Moving;
    label before:
    nonideal, nc := MoveAll(ob, nb, n, k, ideal, oc, nc, repr);
    ListKept@before(order);
    MovingEnd(oc, n, nc, nb, repr);
  }

  /** The loop over the buckets. */
  method MoveAll(ob: array<Bucket>, nb: array<Bucket>, n: nat, k: nat, ideal: nat, ghost oc: seq<seq<Handle>>,
                    ghost nc0: seq<seq<Handle>>, ghost repr: set<Handle>)
    returns (nonideal: nat, ghost nc: seq<seq<Handle>>)
    requires n == Pow2(k) && Placed(oc, n) && AllLinked(oc, ob, repr) && Moving(oc, n, 0, 0, nc0, nb, repr) && ob != nb
    modifies nb, repr
    ensures Moving(oc, n, n, 0, nc, nb, repr)
    ensures forall x :: x in repr ==> x.next == old(x.next) && x.prev == old(x.prev)
  {
    hide Placed, Moving;
    OldDistinct(oc, ob, repr);
    PlacedSize(oc, n);
    hide AllLinked;
    nonideal, nc := 0, nc0;
    var i := 0;
    while i < n
      invariant i <= n && Moving(oc, n, i, 0, nc, nb, repr)
      invariant forall x :: x in repr ==> x.next == old(x.next) && x.prev == old(x.prev)
    {
      nonideal, nc := MoveChain(nb, n, k, i, ob[i].hhHead, ideal, nonideal, oc, nc, repr);
      MovingRow(oc, n, i, nc, nb, repr);
      i := i + 1;
    }
  }

  /** The loop over one old chain. */
  method MoveChain(nb: array<Bucket>, n: nat, k: nat, ghost b: nat, first: Handle?, ideal: nat, nonideal0: nat,
                      ghost oc: seq<seq<Handle>>, ghost nc0: seq<seq<Handle>>, ghost repr: set<Handle>)
    returns (nonideal: nat, ghost nc: seq<seq<Handle>>)
    requires n == Pow2(k) && Placed(oc, n) && |oc| == n && b < n && (forall d :: 0 <= d < n ==> NoRepeats(oc[d])) && first == At(oc[b], 0)
    requires Moving(oc, n, b, 0, nc0, nb, repr)
    modifies nb, repr
    ensures Moving(oc, n, b, |oc[b]|, nc, nb, repr)
    ensures forall x :: x in repr ==> x.next == old(x.next) && x.prev == old(x.prev)
  {
    hide Placed, Moving, NoRepeats;
    ghost var j := 0;
    var thh := first;
    nonideal, nc := nonideal0, nc0;
    while thh != null
      invariant j <= |oc[b]| && thh == At(oc[b], j) && Moving(oc, n, b, j, nc, nb, repr)
      invariant forall x :: x in repr ==> x.next == old(x.next) && x.prev == old(x.prev)
      decreases |oc[b]| - j
    {
      MovingNext(oc, n, b, j, nc, nb, repr);
      var nxt := thh.hhNext;
      var more;
      more, nc := MoveNext(nb, n, k, thh, ideal, oc, b, j, nc, repr);
      nonideal := nonideal + if more then 1 else 0;
      thh, j := nxt, j + 1;
    }
  }

  lemma MovingNext(oc: seq<seq<Handle>>, n: nat, b: nat, j: nat, nc: seq<seq<Handle>>, nb: array<Bucket>, repr: set<Handle>)
    requires b < n == |oc| && Moving(oc, n, b, j, nc, nb, repr) && j < |oc[b]|
    ensures oc[b][j].hhNext == At(oc[b], j + 1)
  {
  }

  lemma PlacedSize(cs: seq<seq<Handle>>, n: nat)
    requires Placed(cs, n)
    ensures |cs| == n && n > 0
  {
  }

  lemma OldDistinct(cs: seq<seq<Handle>>, b: array<Bucket>, repr: set<Handle>)
    requires AllLinked(cs, b, repr)
    ensures |cs| == b.Length && forall d :: 0 <= d < |cs| ==> NoRepeats(cs[d]) && ChainLinked(cs[d]) && b[d].hhHead == At(cs[d], 0)
    ensures forall b, i :: 0 <= b < |cs| && 0 <= i < |cs[b]| ==> cs[b][i] in repr
  {
  }
}
