/** The prefix index of `nfq2/pools.c`: an AVL tree under a comparator that is only an order because the
    stored prefixes never cover one another, and the address sets kept in it. */
module PrefixIndex {
  import opened AvlTree
  import opened AvlSteps
  import opened KavlNodes
  import opened KavlErase
  import opened Kavl
  import opened Bytes
  import opened Prefix
  import opened Wrappers

  /** No prefix in the list covers another, and they are in order. */
  ghost predicate PrefixFree(s: seq<Node<Prefix>>) {
    forall i, j :: 0 <= i < j < |s| ==> BitCmp(s[i].key, s[j].key) < 0
  }

  /** On a prefix-free list any prefix at all meets the comparator as the tree needs it. */
  lemma PrefixFreeCut(cmp: (Prefix, Prefix) -> int, s: seq<Node<Prefix>>, x: Prefix)
    requires PrefixFree(s) && forall p, q :: cmp(p, q) == BitCmp(p, q)
    ensures Separates(cmp, x, s)
  {
    hide BitCmp, Lo, Hi, Nested;
    forall i, j | 0 <= i < j < |s|
      ensures (cmp(x, s[j].key) >= 0 ==> cmp(x, s[i].key) >= 0) && (cmp(x, s[j].key) > 0 ==> cmp(x, s[i].key) > 0)
    {
      CmpInterval(s[i].key, s[j].key);
      CmpInterval(s[j].key, s[j].key);
      CmpInterval(x, s[i].key);
      CmpInterval(x, s[j].key);
    }
  }

  /** Different members of a prefix-free list are not nested. */
  lemma PrefixFreeApart(s: seq<Node<Prefix>>, a: Node<Prefix>, b: Node<Prefix>)
    requires PrefixFree(s) && a in s && b in s && Nested(a.key, b.key)
    ensures a == b
  {
    hide BitCmp, Lo, Hi, Covers;
    var i :| 0 <= i < |s| && s[i] == a;
    var j :| 0 <= j < |s| && s[j] == b;
    CmpInterval(a.key, b.key);
    CmpInterval(b.key, a.key);
  }

  /** Where the elements are after an insertion. */
  lemma InsertedPlaces<K>(cmp: (K, K) -> int, x: Node<K>, s: seq<Node<K>>, cnt: nat, s': seq<Node<K>>)
    requires Inserted(cmp, x, s, cnt, s')
    ensures |s'| == |s| + 1 && cnt <= |s| && s'[cnt] == x
    ensures forall k :: 0 <= k < |s| ==> s'[if k < cnt then k else k + 1] == s[k]
    ensures forall k :: 0 <= k < |s'| && k != cnt ==> s'[k] == s[if k < cnt then k else k - 1]
    ensures forall k :: 0 <= k < |s| ==> if k < cnt then cmp(x.key, s[k].key) > 0 else cmp(x.key, s[k].key) < 0
  {
    forall k | 0 <= k < |s|
      ensures if k < cnt then cmp(x.key, s[k].key) > 0 else cmp(x.key, s[k].key) < 0
    {
      if k < cnt {
        assert s[..cnt][k] == s[k];
      } else {
        assert s[cnt..][k - cnt] == s[k];
      }
    }
  }

  lemma InsertedMembers<K>(cmp: (K, K) -> int, x: Node<K>, s: seq<Node<K>>, cnt: nat, s': seq<Node<K>>)
    requires Inserted(cmp, x, s, cnt, s')
    ensures forall n :: n in s' <==> n in s || n == x
  {
    assert s == s[..cnt] + s[cnt..];
  }

  lemma InsertKeepsPrefixFree(cmp: (Prefix, Prefix) -> int, s: seq<Node<Prefix>>, x: Node<Prefix>, cnt: nat, s': seq<Node<Prefix>>)
    requires PrefixFree(s) && Inserted(cmp, x, s, cnt, s') && forall p, q :: cmp(p, q) == BitCmp(p, q)
    ensures PrefixFree(s')
    ensures forall n :: n in s' <==> n in s || n == x
    ensures forall n :: n in s ==> !Nested(x.key, n.key)
  {
    hide BitCmp, Lo, Hi, Nested, Inserted, PrefixFree;
    InsertedMembers(cmp, x, s, cnt, s');
    InsertedPlaces(cmp, x, s, cnt, s');
    forall k | 0 <= k < |s|
      ensures !Nested(x.key, s[k].key) && if k < cnt then BitCmp(s[k].key, x.key) < 0 else BitCmp(x.key, s[k].key) < 0
    {
      assert cmp(x.key, s[k].key) == BitCmp(x.key, s[k].key);
      CmpInterval(x.key, s[k].key);
      CmpInterval(s[k].key, x.key);
    }
    WidenedPrefixFree(s, x, cnt, s');
  }

  lemma WidenedPrefixFree(s: seq<Node<Prefix>>, x: Node<Prefix>, cnt: nat, s': seq<Node<Prefix>>)
    requires PrefixFree(s) && cnt <= |s| && |s'| == |s| + 1 && s'[cnt] == x
    requires forall k :: 0 <= k < |s'| && k != cnt ==> s'[k] == s[if k < cnt then k else k - 1]
    requires forall k :: 0 <= k < |s| ==> if k < cnt then BitCmp(s[k].key, x.key) < 0 else BitCmp(x.key, s[k].key) < 0
    ensures PrefixFree(s')
  {
    hide BitCmp;
    forall i, j | 0 <= i < j < |s'|
      ensures BitCmp(s'[i].key, s'[j].key) < 0
    {
      assert i != cnt ==> s'[i] == s[if i < cnt then i else i - 1];
      assert j != cnt ==> s'[j] == s[if j < cnt then j else j - 1];
    }
  }

  lemma EraseKeepsPrefixFree(s: seq<Node<Prefix>>, cnt: nat, p: Node<Prefix>, s': seq<Node<Prefix>>)
    requires PrefixFree(s) && Erased(s, cnt, p, s')
    ensures PrefixFree(s') && |s'| == |s| - 1
    ensures forall n :: n in s' <==> n in s && n != p
  {
    hide BitCmp;
    var i := cnt - 1;
    assert forall k {:trigger s'[k]} :: 0 <= k < |s'| ==> s'[k] == s[if k < i then k else k + 1];
    forall a, b | 0 <= a < b < |s|
      ensures s[a] != s[b]
    {
      CmpInterval(s[a].key, s[a].key);
    }
    RemoveAt(s, i);
  }

  // ----- The index -----

  ghost predicate ValidIndex(hdr: KavlTree<Prefix>)
    reads hdr, Nodes(hdr.tree)
  {
    hdr.Valid() && (forall p, q :: hdr.cmp(p, q) == BitCmp(p, q)) && PrefixFree(Seq(hdr.tree))
  }

  /** `kavl_bit_get`: a stored prefix that covers `key` or is covered by it. */
  method BitGet(hdr: KavlTree<Prefix>, key: Prefix) returns (v: Node?<Prefix>)
    requires ValidIndex(hdr)
    ensures v == null ==> forall n :: n in Seq(hdr.tree) ==> !Nested(key, n.key)
    ensures v != null ==> v in Seq(hdr.tree) && Nested(key, v.key)
  {
    hide BitCmp, Lo, Hi, Nested, Seq, Nodes, PrefixFree;
    PrefixFreeCut(hdr.cmp, Seq(hdr.tree), key);
    var cnt;
    v, cnt := hdr.Find(key);
    forall n | n in Seq(hdr.tree)
      ensures BitCmp(key, n.key) == 0 <==> Nested(key, n.key)
    {
      CmpInterval(key, n.key);
    }
  }

  /** Two prefixes of the same bits. */
  ghost predicate Same(p: Prefix, q: Prefix) { Covers(p, q) && Covers(q, p) }

  /** Some stored prefix has the bits of `key`. */
  ghost predicate IsStored(s: seq<Node<Prefix>>, key: Prefix) {
    exists n :: n in s && Same(key, n.key)
  }

  /** What meets `key` in the index is `key` itself exactly if that is stored. */
  lemma MetIsStored(s: seq<Node<Prefix>>, key: Prefix, v: Node<Prefix>)
    requires PrefixFree(s) && v in s && Nested(key, v.key)
    ensures Same(key, v.key) <==> IsStored(s, key)
  {
    hide BitCmp, Covers, PrefixFree;
    if n :| n in s && Same(key, n.key) {
      CoversFacts(v.key, key, n.key);
      CoversFacts(n.key, key, v.key);
      PrefixFreeApart(s, v, n);
    }
  }

  /** `kavl_bit_delete`: takes out one stored prefix that covers `key` or is covered by it, if there is one. It is
      `key` exactly if that is stored. */
  method BitDelete(hdr: KavlTree<Prefix>, key: Prefix) returns (v: Node?<Prefix>)
    requires ValidIndex(hdr)
    modifies hdr, Nodes(hdr.tree)
    ensures ValidIndex(hdr)
    ensures v == null ==> Seq(hdr.tree) == old(Seq(hdr.tree)) && forall n :: n in Seq(hdr.tree) ==> !Nested(key, n.key)
    ensures v != null ==> v in old(Seq(hdr.tree)) && Nested(key, v.key) && |Seq(hdr.tree)| == |old(Seq(hdr.tree))| - 1 &&
                          forall n :: n in Seq(hdr.tree) <==> n in old(Seq(hdr.tree)) && n != v
    ensures v != null ==> (Same(key, v.key) <==> IsStored(old(Seq(hdr.tree)), key))
    ensures v == null ==> !IsStored(old(Seq(hdr.tree)), key)
  {
    hide BitCmp, Lo, Hi, Nested, Seq, PrefixFree, Ok, Count, Distinct, Linked, Same, IsStored;
    ghost var s := Seq(hdr.tree);
    PrefixFreeCut(hdr.cmp, s, key);
    var cnt;
    v, cnt := hdr.Erase(Some(key));
    forall n | n in s
      ensures BitCmp(key, n.key) == 0 <==> Nested(key, n.key)
    {
      CmpInterval(key, n.key);
    }
    if v != null {
      assert v in s;
      MetIsStored(s, key, v);
      EraseKeepsPrefixFree(s, cnt, v, Seq(hdr.tree));
    } else {
      NotStored(s, key);
    }
  }

  lemma NotStored(s: seq<Node<Prefix>>, key: Prefix)
    requires forall n :: n in s ==> !Nested(key, n.key)
    ensures !IsStored(s, key)
  {
    hide Covers;
  }

  /** An index that holds 10.0.0.0/8 loses it when 10.1.0.0/16 is to be deleted, which it does not hold. */
  method DeleteExample() returns (v: Node?<Prefix>, ghost left: seq<Node<Prefix>>)
    ensures v != null && v.key == PrefixData(8, [10]) && !Same(PrefixData(16, [10, 1]), v.key) && left == []
  {
    var hdr := new KavlTree<Prefix>(BitCmp);
    var key: Prefix, other: Prefix := PrefixData(8, [10]), PrefixData(16, [10, 1]);
    ExampleNested(key, other);
    hide BitCmp, Covers, PrefixFree, Same, AddedTo, Nested;
    var n := BitAdd(hdr, key);
    FirstAdded(key, n, Seq(hdr.tree));
    v := BitDelete(hdr, other);
    left := Seq(hdr.tree);
  }

  lemma FirstAdded(key: Prefix, v: Node<Prefix>, s: seq<Node<Prefix>>)
    requires AddedTo([], key, v, s)
    ensures v in s && v.key == key && forall n :: n in s ==> n == v
  {
  }

  lemma ExampleNested(key: Prefix, other: Prefix)
    requires key == PrefixData(8, [10]) && other == PrefixData(16, [10, 1])
    ensures Nested(other, key) && !Same(other, key)
  {
  }

  lemma CoversFacts(a: Prefix, b: Prefix, c: Prefix)
    ensures Covers(a, a)
    ensures Covers(a, b) && Covers(b, c) ==> Covers(a, c)
    ensures Covers(a, c) && Covers(b, c) ==> Nested(a, b)
    ensures Nested(a, b) && a.bitlen <= b.bitlen ==> Covers(a, b)
  {
    hide Bit;
  }

  /** What the rounds of `kavl_bit_add` have done so far: prefixes strictly inside `key` have been taken out. */
  ghost predicate Evicting(s0: seq<Node<Prefix>>, s: seq<Node<Prefix>>, key: Prefix) {
    (forall n :: n in s ==> n in s0) &&
    (forall n :: n in s0 && n !in s ==> Covers(key, n.key) && key.bitlen < n.key.bitlen) &&
    (s == s0 || exists n :: n in s0 && n !in s)
  }

  /** If a stored prefix covers the new one, nothing has been evicted. */
  lemma NothingEvicted(s0: seq<Node<Prefix>>, s: seq<Node<Prefix>>, key: Prefix, v: Node<Prefix>)
    requires PrefixFree(s0) && Evicting(s0, s, key) && v in s && Covers(v.key, key)
    ensures s == s0
  {
    hide BitCmp, Covers, PrefixFree;
    if s != s0 {
      var n :| n in s0 && n !in s;
      CoversFacts(v.key, key, n.key);
      PrefixFreeApart(s0, v, n);
    }
  }

  /** The outcome of an attempt to insert `e`: it is in and nothing stored is nested with it, or `v` is in its way. */
  ghost predicate Tried(s0: seq<Node<Prefix>>, s: seq<Node<Prefix>>, e: Node<Prefix>, v: Node<Prefix>) {
    if e == v then
      e in s && (forall n :: n in s ==> n == e || (n in s0 && !Nested(e.key, n.key))) &&
      forall n :: n in s0 && n !in s ==> Covers(e.key, n.key) && e.key.bitlen < n.key.bitlen
    else
      Evicting(s0, s, e.key) && v in s && Nested(e.key, v.key)
  }

  method TryInsert(hdr: KavlTree<Prefix>, e: Node<Prefix>, ghost s0: seq<Node<Prefix>>) returns (v: Node<Prefix>)
    requires ValidIndex(hdr) && |Seq(hdr.tree)| + 1 < SizeLimit && e !in Nodes(hdr.tree) && Evicting(s0, Seq(hdr.tree), e.key)
    modifies hdr, Nodes(hdr.tree), e
    ensures ValidIndex(hdr) && Nodes(hdr.tree) <= old(Nodes(hdr.tree)) + {e}
    ensures Tried(s0, Seq(hdr.tree), e, v)
    ensures if v == e then |Seq(hdr.tree)| == |old(Seq(hdr.tree))| + 1 else Seq(hdr.tree) == old(Seq(hdr.tree))
  {
    hide BitCmp, Lo, Hi, Nested, Covers, Seq, PrefixFree, Ok, Count, Distinct, Linked;
    ghost var s := Seq(hdr.tree);
    PrefixFreeCut(hdr.cmp, s, e.key);
    SeqCount(hdr.tree);
    var cnt;
    v, cnt := hdr.Insert(e);
    if v == e {
      InsertKeepsPrefixFree(hdr.cmp, s, e, cnt, Seq(hdr.tree));
    } else {
      CmpInterval(e.key, v.key);
    }
  }

  /** When the rounds have ended, a stored prefix that covers the new one was there from the start, or none
      was and exactly the covered ones are gone. */
  lemma AddDone(s0: seq<Node<Prefix>>, s: seq<Node<Prefix>>, e: Node<Prefix>, v: Node<Prefix>)
    requires PrefixFree(s0) && Tried(s0, s, e, v) && (e == v || v.key.bitlen <= e.key.bitlen) && e !in s0
    ensures AddedTo(s0, e.key, v, s)
  {
    hide BitCmp, Covers, PrefixFree;
    CoversFacts(v.key, e.key, e.key);
    CoversFacts(e.key, v.key, e.key);
    if e != v {
      NothingEvicted(s0, s, e.key, v);
    } else {
      forall n | n in s0
        ensures !Covers(n.key, e.key)
      {
        if n !in s {
          NotCovered(e.key, n.key);
        }
      }
    }
  }

  lemma NotCovered(a: Prefix, b: Prefix)
    requires a.bitlen < b.bitlen
    ensures !Covers(b, a)
  {
  }

  /** Nothing changes if a stored prefix covers the new one; otherwise the new one replaces the stored ones it
      covers. Either way `v` is the stored prefix that covers it. */
  ghost predicate AddedTo(s: seq<Node<Prefix>>, key: Prefix, v: Node<Prefix>, s': seq<Node<Prefix>>) {
    v in s' && Covers(v.key, key) &&
    if exists n :: n in s && Covers(n.key, key) then s' == s
    else
      v.key == key && v !in s && (forall n :: n in s' ==> n == v || (n in s && !Covers(key, n.key))) &&
      forall n :: n in s && !Covers(key, n.key) ==> n in s'
  }

  /** `kavl_bit_add`, which takes out stored prefixes that are in the way one by one. */
  method BitAdd(hdr: KavlTree<Prefix>, key: Prefix) returns (v: Node<Prefix>)
    requires ValidIndex(hdr) && |Seq(hdr.tree)| + 1 < 0x1_0000_0000
    modifies hdr, Nodes(hdr.tree)
    ensures ValidIndex(hdr) && fresh(Nodes(hdr.tree) - old(Nodes(hdr.tree)))
    ensures AddedTo(old(Seq(hdr.tree)), key, v, Seq(hdr.tree))
  {
    hide BitCmp, Lo, Hi, Nested, Covers, Seq, PrefixFree, Ok, Count, Distinct, Linked;
    ghost var s0 := Seq(hdr.tree);
    var e := new Node<Prefix>(key);
    EvictingNone(s0, key);
    v := TryInsert(hdr, e, s0);
    while e != v && e.key.bitlen < v.key.bitlen
      invariant ValidIndex(hdr) && Nodes(hdr.tree) <= old(Nodes(hdr.tree)) + {e}
      invariant |Seq(hdr.tree)| <= |s0| + (if e == v then 1 else 0) && (e != v ==> e !in Nodes(hdr.tree))
      invariant Tried(s0, Seq(hdr.tree), e, v)
      decreases |Seq(hdr.tree)|, if e == v then 0 else 1
    {
      ghost var s := Seq(hdr.tree);
      ghost var w := BitDelete(hdr, v.key);
      EvictOne(s0, s, Seq(hdr.tree), e, v, w);
      v := TryInsert(hdr, e, s0);
    }
    AddDone(s0, Seq(hdr.tree), e, v);
  }

  lemma EvictingNone(s0: seq<Node<Prefix>>, key: Prefix)
    ensures Evicting(s0, s0, key)
  {
  }

  lemma EvictOne(s0: seq<Node<Prefix>>, s: seq<Node<Prefix>>, s': seq<Node<Prefix>>, e: Node<Prefix>, v: Node<Prefix>, w: Node?<Prefix>)
    requires PrefixFree(s) && Tried(s0, s, e, v) && e != v && e.key.bitlen < v.key.bitlen
    requires w == null ==> forall n :: n in s ==> !Nested(v.key, n.key)
    requires w != null ==> w in s && Nested(v.key, w.key) && forall n :: n in s' <==> n in s && n != w
    ensures w == v && Evicting(s0, s', e.key)
  {
    hide BitCmp, Covers, PrefixFree;
    CoversFacts(v.key, v.key, v.key);
    CoversFacts(e.key, v.key, e.key);
    assert w != null;
    PrefixFreeApart(s, v, w);
    assert v in s0 && v !in s';
  }

  // ----- The address sets -----

  /** The prefix of the first `preflen` bits of an address, in as many bytes as they need. */
  function Cidr(a: seq<byte>, preflen: nat): Prefix
    requires preflen <= 8 * |a| && |a| <= 16
  {
    PrefixData(preflen, a[..(preflen + 7) / 8])
  }

  /** The address itself, with only its first `preflen` bits to be looked at. */
  function Address(a: seq<byte>, preflen: nat): Prefix
    requires preflen <= 8 * |a| && |a| <= 16
  {
    PrefixData(preflen, a)
  }

  /** Some stored prefix covers `k`. */
  ghost predicate CoveredByStored(s: seq<Node<Prefix>>, k: Prefix) {
    exists n :: n in s && Covers(n.key, k)
  }

  /** The stored prefixes are among those added, and each of those added is covered by a stored one. */
  ghost predicate StandsFor(s: seq<Node<Prefix>>, added: seq<Prefix>, bits: nat) {
    |s| <= |added| && (forall n :: n in s ==> n.key in added) && (forall k :: k in added ==> k.bitlen <= bits) &&
    forall k {:trigger CoveredByStored(s, k)} :: k in added ==> CoveredByStored(s, k)
  }

  /** The prefix an entry is stored as. */
  ghost function Key(e: (seq<byte>, nat)): Prefix {
    if e.1 <= 8 * |e.0| && |e.0| <= 16 then Cidr(e.0, e.1) else PrefixData(0, [])
  }

  ghost function Keys(added: seq<(seq<byte>, nat)>): seq<Prefix> {
    seq(|added|, i requires 0 <= i < |added| => Key(added[i]))
  }

  ghost predicate Entries(added: seq<(seq<byte>, nat)>, bytes: nat) {
    forall e :: e in added ==> |e.0| == bytes && e.1 <= 8 * bytes
  }

  lemma KeysSnoc(added: seq<(seq<byte>, nat)>, a: seq<byte>, preflen: nat)
    requires Entries(added, |a|) && |a| <= 16 && preflen <= 8 * |a|
    ensures Entries(added + [(a, preflen)], |a|) && Keys(added + [(a, preflen)]) == Keys(added) + [Cidr(a, preflen)]
    ensures |Keys(added)| == |added| && Cidr(a, preflen).bitlen == preflen
  {
  }

  /** The first bits that an address with `preflen` bits and an entry both have are the same, in network order. */
  ghost predicate Meets(a: seq<byte>, preflen: nat, e: (seq<byte>, nat))
    requires preflen <= 8 * |a| && e.1 <= 8 * |e.0|
  {
    var m := if preflen <= e.1 then preflen else e.1;
    Leading(a, m) == Leading(e.0, m)
  }

  /** The prefixes stand for the addresses. */
  lemma MeetsNested(a: seq<byte>, preflen: nat, e: (seq<byte>, nat))
    requires |a| == |e.0| <= 16 && preflen <= 8 * |a| && e.1 <= 8 * |a|
    ensures Meets(a, preflen, e) <==> Nested(Address(a, preflen), Key(e))
  {
    hide Val, Leading, Nested;
    var m := if preflen <= e.1 then preflen else e.1;
    NestedVal(Address(a, preflen), Key(e));
    assert a[..|a|] == a;
    ValLeading(Address(a, preflen), a, |a|, m);
    ValLeading(Key(e), e.0, (e.1 + 7) / 8, m);
  }

  /** A linear scan over the entries and one over their prefixes. */
  lemma MeetsSome(added: seq<(seq<byte>, nat)>, a: seq<byte>, preflen: nat)
    requires Entries(added, |a|) && |a| <= 16 && preflen <= 8 * |a|
    ensures (exists e :: e in added && Meets(a, preflen, e)) <==> exists k :: k in Keys(added) && Nested(Address(a, preflen), k)
  {
    hide Meets, Nested, Address, Key;
    if e :| e in added && Meets(a, preflen, e) {
      MeetsNested(a, preflen, e);
      var i :| 0 <= i < |added| && added[i] == e;
      assert Keys(added)[i] == Key(e);
    }
    if k :| k in Keys(added) && Nested(Address(a, preflen), k) {
      var i :| 0 <= i < |added| && Keys(added)[i] == k;
      MeetsNested(a, preflen, added[i]);
      assert added[i] in added;
    }
  }

  /** An `ipset` of addresses of `bytes` bytes, with the CIDRs ever added to it: addresses and lengths. */
  class IpSet {
    const bytes: nat
    const hdr: KavlTree<Prefix>
    ghost var added: seq<(seq<byte>, nat)>

    ghost predicate Valid()
      reads this, hdr, Nodes(hdr.tree)
    {
      bytes <= 16 && ValidIndex(hdr) && Entries(added, bytes) && StandsFor(Seq(hdr.tree), Keys(added), 8 * bytes)
    }

    constructor (bytes: nat)
      requires bytes <= 16
      ensures Valid() && added == [] && this.bytes == bytes
      ensures fresh(hdr) && fresh(Nodes(hdr.tree))
    {
      this.bytes := bytes;
      hdr := new KavlTree<Prefix>(BitCmp);
      added := [];
    }

    /** `ipset4Add` and `ipset6Add`, over `ipset_kavl_add`. */
    method Add(a: seq<byte>, preflen: nat) returns (ok: bool)
      requires Valid() && |a| == bytes && |added| + 1 < 0x1_0000_0000
      modifies this, hdr, Nodes(hdr.tree)
      ensures Valid() && fresh(Nodes(hdr.tree) - old(Nodes(hdr.tree)))
      ensures ok == (preflen <= 8 * bytes)
      ensures added == if ok then old(added) + [(a, preflen)] else old(added)
    {
      hide BitCmp, Covers, PrefixFree, Seq, ValidIndex, StandsFor, Nodes, AddedTo, Entries, Keys, Cidr;
      if preflen > 8 * bytes {
        return false;
      }
      var key := Cidr(a, preflen);
      ghost var keys := Keys(added);
      KeysSnoc(added, a, preflen);
      IndexFree(hdr);
      FewStored(Seq(hdr.tree), keys, 8 * bytes);
      ghost var s := Seq(hdr.tree);
      var v := BitAdd(hdr, key);
      IndexFree(hdr);
      AddKeeps(s, Seq(hdr.tree), keys, 8 * bytes, key, v);
      added := added + [(a, preflen)];
      ok := true;
    }

    /** `ipset4Check` and `ipset6Check`: the answer of a linear scan over all the CIDRs ever added. An address is found
        exactly if it has the first bits of one of them, as many as that one has. */
    method Check(a: seq<byte>, preflen: nat) returns (found: bool)
      requires Valid() && |a| == bytes && preflen <= 8 * bytes
      ensures found <==> exists e :: e in added && Meets(a, preflen, e)
      ensures preflen == 8 * bytes ==> (found <==> exists e :: e in added && Leading(a, e.1) == Leading(e.0, e.1))
    {
      hide BitCmp, Covers, Nested, PrefixFree, Seq, ValidIndex, StandsFor, Nodes, Leading;
      var x := Address(a, preflen);
      var v := BitGet(hdr, x);
      found := v != null;
      LinearScan(Seq(hdr.tree), Keys(added), 8 * bytes, x);
      MeetsSome(added, a, preflen);
      assert preflen == 8 * bytes ==> forall e :: e in added ==> (Meets(a, preflen, e) <==> Leading(a, e.1) == Leading(e.0, e.1));
    }
  }

  /** A search of the stored prefixes and a scan of all those added find the same. */
  lemma LinearScan(s: seq<Node<Prefix>>, added: seq<Prefix>, bits: nat, x: Prefix)
    requires StandsFor(s, added, bits)
    ensures (exists n :: n in s && Nested(x, n.key)) <==> (exists k :: k in added && Nested(x, k))
  {
    hide Covers;
    if k :| k in added && Nested(x, k) {
      assert CoveredByStored(s, k);
      var n :| n in s && Covers(n.key, k);
      CoversFacts(n.key, k, x);
      CoversFacts(n.key, x, k);
      CoversFacts(x, n.key, k);
      assert Nested(x, n.key);
    }
  }

  /** The stored prefixes still stand for all those added, after one more. */
  lemma AddKeeps(s: seq<Node<Prefix>>, s': seq<Node<Prefix>>, added: seq<Prefix>, bits: nat, key: Prefix, v: Node<Prefix>)
    requires StandsFor(s, added, bits) && PrefixFree(s) && PrefixFree(s') && key.bitlen <= bits
    requires AddedTo(s, key, v, s')
    ensures StandsFor(s', added + [key], bits)
  {
    if s' != s {
      AtMostOneMore(s, s', v);
    }
    hide BitCmp, Covers, PrefixFree;
    forall k | k in added + [key]
      ensures CoveredByStored(s', k)
    {
      if k in added {
        assert CoveredByStored(s, k);
        var n :| n in s && Covers(n.key, k);
        if n !in s' {
          CoversFacts(key, n.key, k);
          assert v in s' && Covers(v.key, k);
        }
      } else {
        assert v in s' && Covers(v.key, k);
      }
    }
  }

  lemma IndexFree(hdr: KavlTree<Prefix>)
    requires ValidIndex(hdr)
    ensures PrefixFree(Seq(hdr.tree))
  {
  }

  lemma FewStored(s: seq<Node<Prefix>>, added: seq<Prefix>, bits: nat)
    requires StandsFor(s, added, bits)
    ensures |s| <= |added|
  {
  }

  lemma PrefixFreeNoDup(s: seq<Node<Prefix>>)
    requires PrefixFree(s)
    ensures NoDup(s)
  {
    hide BitCmp;
    forall i, j | 0 <= i < j < |s|
      ensures s[i] != s[j]
    {
      CmpInterval(s[i].key, s[i].key);
    }
  }

  lemma AtMostOneMore(s: seq<Node<Prefix>>, s': seq<Node<Prefix>>, v: Node<Prefix>)
    requires PrefixFree(s) && PrefixFree(s') && forall n :: n in s' ==> n == v || n in s
    ensures |s'| <= |s| + 1
  {
    hide BitCmp, PrefixFree;
    PrefixFreeNoDup(s);
    PrefixFreeNoDup(s');
    SetSize(s);
    SetSize(s');
    var a, b := (set n | n in s), (set n | n in s');
    assert b <= a + {v};
    Smaller(b, a + {v});
  }

  lemma {:induction false} SetSize<T>(s: seq<T>)
    requires NoDup(s)
    ensures |set n | n in s| == |s|
  {
    if s != [] {
      var l, x := s[..|s| - 1], s[|s| - 1];
      SetSize(l);
      assert (set n | n in s) == (set n | n in l) + {x};
    }
  }

  lemma {:induction false} Smaller<T>(a: set<T>, b: set<T>)
    requires a <= b
    ensures |a| <= |b|
  {
    if a != {} {
      var x :| x in a;
      Smaller(a - {x}, b - {x});
    }
  }
}
