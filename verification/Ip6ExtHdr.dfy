/** IPv6 extension headers (section 4 of RFC 8200): the builder of `nfq2/lua.c` and the three walkers of
    `nfq2/lua.c` and `nfq2/darkmagic.c`. */
module Ip6ExtHdr {
  import opened Bytes
  import opened Wrappers

  const BaseLen: nat := 40
  const Fragment: byte := 44
  const Auth: byte := 51
  const NoNext: byte := 59

  /** HOPOPTS, ROUTING, DSTOPTS, MH, HIP and SHIM6, with a length byte in units of eight bytes. */
  predicate IsOption(t: byte) { t in {0, 43, 60, 135, 139, 140} }

  predicate Known(t: byte) { IsOption(t) || t == Fragment || t == Auth }

  /** One header: its own type, the type it announces and the bytes after the first two. */
  datatype Hdr = Hdr(typ: byte, next: byte, data: seq<byte>)

  // ----- What the walkers see -----

  /** The length of a header of type `t`, if it is a complete extension header. */
  function HdrLen(t: byte, s: seq<byte>): (r: Option<nat>)
    requires s != []
    ensures r.Some? ==> Known(t) && 8 <= r.value <= |s|
  {
    if t == Fragment then if |s| < 8 then None else Some(8)
    else if !Known(t) || |s| < 2 then None
    else
      var n := if t == Auth then 8 + 4 * (s[1] as int) else 8 + 8 * (s[1] as int);
      if |s| < n then None else Some(n)
  }

  /** `ntohs(ip6f_offlg & IP6F_OFF_MASK)` of a fragment header, given the bytes after the first two. */
  function FragOff(data: seq<byte>): nat
    requires |data| >= 2
  {
    256 * (data[0] as int) + data[1] - data[1] % 8
  }

  function MoreFrag(data: seq<byte>): bool
    requires |data| >= 2
  {
    data[1] % 2 == 1
  }

  /** A fragment other than the first: nothing behind its header is a header. */
  predicate LaterFragment(h: Hdr) { h.typ == Fragment && |h.data| >= 2 && FragOff(h.data) != 0 }

  /** The headers found from type `t` on in `s`, where the walk ends and with which type, and whether it was
      stopped by a later fragment. */
  datatype Walked = Walked(hs: seq<Hdr>, at: nat, typ: byte, stopped: bool)

  ghost function Walk(t: byte, s: seq<byte>): (w: Walked)
    ensures w.at <= |s|
    decreases |s|
  {
    if s == [] || HdrLen(t, s).None? then Walked([], 0, t, false)
    else
      var n := HdrLen(t, s).value;
      var h := Hdr(t, s[0], s[2..n]);
      if LaterFragment(h) then Walked([h], n, s[0], true)
      else
        var w := Walk(s[0], s[n..]);
        Walked([h] + w.hs, n + w.at, w.typ, w.stopped)
  }

  /** The bytes of a packet behind the base header, up to its payload length. */
  function Behind40(pkt: seq<byte>): seq<byte>
    requires |pkt| >= BaseLen
  {
    var plen := 256 * (pkt[4] as int) + pkt[5];
    if plen < |pkt| - BaseLen then pkt[BaseLen..BaseLen + plen] else pkt[BaseLen..]
  }

  ghost function WalkPacket(pkt: seq<byte>): Walked
    requires |pkt| >= BaseLen
  {
    Walk(pkt[6], Behind40(pkt))
  }

  /** The whole walk, of which `hs` has been seen up to `at`. */
  ghost function Ahead(hs: seq<Hdr>, stop: bool, t: byte, s: seq<byte>, at: nat): Walked
    requires at <= |s|
  {
    var w := if stop then Walked([], 0, t, true) else Walk(t, s[at..]);
    Walked(hs + w.hs, at + w.at, w.typ, w.stopped)
  }

  lemma AheadStart(t: byte, s: seq<byte>)
    ensures Ahead([], false, t, s, 0) == Walk(t, s)
  {
    var w := Walk(t, s);
    assert s[0..] == s && [] + w.hs == w.hs;
  }

  /** One step of a walk. */
  lemma AheadStep(hs: seq<Hdr>, t: byte, s: seq<byte>, at: nat)
    requires at < |s|
    ensures HdrLen(t, s[at..]).None? ==> Ahead(hs, false, t, s, at) == Walked(hs, at, t, false)
    ensures HdrLen(t, s[at..]).Some? ==>
              var n := HdrLen(t, s[at..]).value;
              var h := Hdr(t, s[at], s[at + 2..at + n]);
              Ahead(hs, false, t, s, at) == Ahead(hs + [h], LaterFragment(h), s[at], s, at + n)
  {
    hide HdrLen, LaterFragment;
    if HdrLen(t, s[at..]).Some? {
      var n := HdrLen(t, s[at..]).value;
      var h := Hdr(t, s[at], s[at + 2..at + n]);
      assert s[at..][2..n] == s[at + 2..at + n] && s[at..][n..] == s[at + n..];
      var w := if LaterFragment(h) then Walked([], 0, s[at], true) else Walk(s[at], s[at + n..]);
      assert Walk(t, s[at..]) == Walked([h] + w.hs, n + w.at, w.typ, w.stopped);
      assert hs + ([h] + w.hs) == hs + [h] + w.hs;
    } else {
      assert hs + [] == hs;
    }
  }

  lemma AheadEnd(hs: seq<Hdr>, stop: bool, t: byte, s: seq<byte>, at: nat)
    requires at <= |s| && (stop || at == |s|)
    ensures Ahead(hs, stop, t, s, at) == Walked(hs, at, t, stop)
  {
    assert hs + [] == hs;
  }

  /** What has been seen stays seen. */
  lemma AheadSeen(hs: seq<Hdr>, h: Hdr, stop: bool, t: byte, s: seq<byte>, at: nat)
    requires at <= |s|
    ensures var all := Ahead(hs + [h], stop, t, s, at).hs; |hs| < |all| && all[|hs|] == h && all[..|hs|] == hs
  {
    hide Walk;
  }

  /** `lua_pushf_ip6exthdr`: the list of headers. */
  method PushExtHdrs(pkt: seq<byte>) returns (hs: seq<Hdr>)
    ensures hs == if |pkt| < BaseLen then [] else WalkPacket(pkt).hs
  {
    hide Walk, HdrLen, LaterFragment, Behind40, Ahead;
    hs := [];
    if |pkt| < BaseLen {
      return;
    }
    var s, t, at, stop := Behind40(pkt), pkt[6], 0, false;
    ghost var all := Walk(t, s);
    AheadStart(t, s);
    while at < |s| && !stop
      invariant at <= |s| && all == Ahead(hs, stop, t, s, at)
      decreases |s| - at, !stop
    {
      AheadStep(hs, t, s, at);
      var n := HdrLen(t, s[at..]);
      if n == None {
        return;
      }
      var h := Hdr(t, s[at], s[at + 2..at + n.value]);
      hs := hs + [h];
      t, at, stop := s[at], at + n.value, LaterFragment(h);
    }
    AheadEnd(hs, stop, t, s, at);
  }

  /** Whether the walk has come to the transport payload. */
  ghost predicate AtPayload(w: Walked, s: seq<byte>) {
    w.at < |s| && !w.stopped && !Known(w.typ) && w.typ != NoNext
  }

  /** The last fragment header of a list. */
  ghost function LastFragment(hs: seq<Hdr>): Option<Hdr> {
    if hs == [] then None
    else if hs[|hs| - 1].typ == Fragment then Some(hs[|hs| - 1]) else LastFragment(hs[..|hs| - 1])
  }

  /** `proto_skip_ipv6`: goes behind all headers that the list has. The type is that of the payload if there is
      one, and otherwise still that of the first header, which is 0 only for a hop-by-hop header. */
  method SkipIpv6(pkt: seq<byte>) returns (data: nat, len: nat, proto: byte, frag: bool, fragOff: nat)
    requires |pkt| >= BaseLen
    ensures var (w, s) := (WalkPacket(pkt), Behind40(pkt));
            data == BaseLen + w.at && len == |s| - w.at && proto == (if AtPayload(w, s) then w.typ else pkt[6]) &&
            (proto == 0 <==> !AtPayload(w, s) && pkt[6] == 0) &&
            var f := LastFragment(w.hs);
            fragOff == (if f.Some? && |f.value.data| >= 2 then FragOff(f.value.data) else 0) &&
            frag == (f.Some? && |f.value.data| >= 2 && (FragOff(f.value.data) != 0 || MoreFrag(f.value.data)))
  {
    hide Walk, HdrLen, Behind40, Ahead, FragOff, MoreFrag, LastFragment;
    var s, t, at := Behind40(pkt), pkt[6], 0;
    proto, frag, fragOff, data, len := t, false, 0, BaseLen, |s|;
    ghost var all, hs := Walk(t, s), [];
    AheadStart(t, s);
    LastFragmentSnoc([], Hdr(0, 0, []));
    var stop := false;
    while at < |s| && !stop
      invariant at <= |s| && data == BaseLen + at && len == |s| - at && proto == pkt[6]
      invariant all == Ahead(hs, stop, t, s, at)
      invariant var f := LastFragment(hs);
                fragOff == (if f.Some? && |f.value.data| >= 2 then FragOff(f.value.data) else 0) &&
                frag == (f.Some? && |f.value.data| >= 2 && (FragOff(f.value.data) != 0 || MoreFrag(f.value.data)))
      decreases |s| - at, !stop
    {
      AheadStep(hs, t, s, at);
      var n := HdrLen(t, s[at..]);
      if n == None {
        if !Known(t) && t != NoNext {
          proto := t;
        } else {
        }
        return;
      }
      ghost var h := Hdr(t, s[at], s[at + 2..at + n.value]);
      if t == Fragment {
        fragOff := FragOff(s[at + 2..at + n.value]);
        frag := fragOff != 0 || MoreFrag(s[at + 2..at + n.value]);
        stop := frag && fragOff != 0;
      }
      LastFragmentSnoc(hs, h);
      hs := hs + [h];
      t, at := s[at], at + n.value;
      data, len := BaseLen + at, |s| - at;
    }
    AheadEnd(hs, stop, t, s, at);
  }

  /** A base header that announces TCP with nothing behind it: there is no payload, and the type that is left is
      that of the header and not 0. */
  lemma BareHeader(pkt: seq<byte>)
    requires |pkt| == BaseLen && pkt[6] == 6
    ensures !AtPayload(WalkPacket(pkt), Behind40(pkt)) && pkt[6] != 0
  {
    assert Behind40(pkt) == [];
  }

  lemma LastFragmentSnoc(hs: seq<Hdr>, h: Hdr)
    ensures LastFragment(hs + [h]) == if h.typ == Fragment then Some(h) else LastFragment(hs)
    ensures LastFragment([]) == None
  {
    assert (hs + [h])[..|hs|] == hs;
  }

  /** The length of the headers in memory. */
  ghost function Total(hs: seq<Hdr>): nat {
    if hs == [] then 0 else Total(hs[..|hs| - 1]) + |hs[|hs| - 1].data| + 2
  }

  ghost predicate FirstAt(hs: seq<Hdr>, typ: byte, i: int) {
    0 <= i < |hs| && hs[i].typ == typ && forall j :: 0 <= j < i ==> hs[j].typ != typ
  }

  lemma IsFirst(all: seq<Hdr>, hs: seq<Hdr>, typ: byte)
    requires |hs| < |all| && all[..|hs|] == hs && all[|hs|].typ == typ && forall j :: 0 <= j < |hs| ==> hs[j].typ != typ
    ensures FirstAt(all, typ, |hs|)
  {
    assert forall j :: 0 <= j < |hs| ==> all[j] == hs[j];
  }

  /** What a search for the type gives after the walk `w` through `s`. */
  ghost predicate FoundIn(w: Walked, s: seq<byte>, typ: byte, r: Option<nat>) {
    if exists i :: 0 <= i < |w.hs| && w.hs[i].typ == typ then
      exists i :: FirstAt(w.hs, typ, i) && r == Some(BaseLen + Total(w.hs[..i]))
    else r == if w.at < |s| && !w.stopped && w.typ == typ then Some(BaseLen + w.at) else None
  }

  /** `proto_find_ip6_exthdr`: the first header of the list with the type, or the place where the list ends if
      what begins there is announced with this type. */
  method FindExtHdr(pkt: seq<byte>, proto: byte) returns (r: Option<nat>)
    ensures |pkt| < BaseLen ==> r == None
    ensures |pkt| >= BaseLen ==> FoundIn(WalkPacket(pkt), Behind40(pkt), proto, r)
  {
    hide Walk, Total, HdrLen, LaterFragment, Behind40, Ahead, FirstAt;
    if |pkt| < BaseLen {
      return None;
    }
    var s, t, at, stop := Behind40(pkt), pkt[6], 0, false;
    ghost var all, hs := Walk(t, s), [];
    AheadStart(t, s);
    TotalSnoc([], Hdr(0, 0, []));
    while at < |s| && !stop
      invariant at <= |s| && at == Total(hs) && forall j :: 0 <= j < |hs| ==> hs[j].typ != proto
      invariant all == Ahead(hs, stop, t, s, at)
      decreases |s| - at, !stop
    {
      AheadStep(hs, t, s, at);
      var n := HdrLen(t, s[at..]);
      if t == proto {
        if n.Some? {
          var h := Hdr(t, s[at], s[at + 2..at + n.value]);
          AheadSeen(hs, h, LaterFragment(h), s[at], s, at + n.value);
          IsFirst(all.hs, hs, proto);
        }
        return Some(BaseLen + at);
      }
      if n == None {
        return None;
      }
      var h := Hdr(t, s[at], s[at + 2..at + n.value]);
      TotalSnoc(hs, h);
      hs := hs + [h];
      t, at, stop := s[at], at + n.value, LaterFragment(h);
    }
    AheadEnd(hs, stop, t, s, at);
    r := None;
  }

  lemma TotalSnoc(hs: seq<Hdr>, h: Hdr)
    ensures Total(hs + [h]) == Total(hs) + |h.data| + 2 && Total([]) == 0
  {
    assert (hs + [h])[..|hs|] == hs;
  }

  // ----- What the builder writes -----

  /** An entry of the `exthdr` table, whose fields may be missing or of the wrong type. */
  datatype Entry = Entry(typ: Option<byte>, next: Option<byte>, data: Option<seq<byte>>)

  /** The length is a multiple of the unit of the type and can be written in one byte. */
  predicate Sized(typ: byte, l: nat) {
    l >= 6 && if typ == Auth then l < 1024 && (l + 2) % 4 == 0 else l < 2048 && (l + 2) % 8 == 0
  }

  ghost predicate Buildable(e: Entry) {
    e.typ.Some? && e.data.Some? && Sized(e.typ.value, |e.data.value|)
  }

  /** The length byte of a header of `l` bytes. */
  function LenByte(typ: byte, l: nat): int {
    if typ == Auth then l / 4 - 2 else l / 8 - 1
  }

  /** The header of an entry; a missing `next` counts as no next header. */
  function Core(e: Entry): Hdr {
    Hdr(if e.typ.Some? then e.typ.value else 0, if e.next.Some? then e.next.value else NoNext,
        if e.data.Some? then e.data.value else [])
  }

  ghost function Cores(es: seq<Entry>): seq<Hdr> {
    seq(|es|, i requires 0 <= i < |es| => Core(es[i]))
  }

  ghost predicate Buildables(es: seq<Entry>) {
    forall i :: 0 <= i < |es| ==> Buildable(es[i])
  }

  /** The type of the header after the one at `i`, and behind the last one `final`. */
  ghost function NextTyp(hs: seq<Hdr>, i: nat, final: byte): byte {
    if i + 1 < |hs| then hs[i + 1].typ else final
  }

  /** Each header announces the type of the next, the last one `final`. */
  ghost function Relink(hs: seq<Hdr>, final: byte): seq<Hdr> {
    seq(|hs|, i requires 0 <= i < |hs| => hs[i].(next := NextTyp(hs, i, final)))
  }

  ghost predicate SizedHdrs(hs: seq<Hdr>) {
    forall i :: 0 <= i < |hs| ==> Sized(hs[i].typ, |hs[i].data|)
  }

  /** The length byte never overflows, and gives back the length. */
  lemma LenByteFits(typ: byte, l: nat)
    requires Sized(typ, l)
    ensures 0 <= LenByte(typ, l + 2) < 256
    ensures l + 2 == if typ == Auth then 8 + 4 * LenByte(typ, l + 2) else 8 + 8 * LenByte(typ, l + 2)
  {
  }

  ghost function HdrBytes(h: Hdr): (s: seq<byte>)
    requires Sized(h.typ, |h.data|)
    ensures |s| == |h.data| + 2 && s[0] == h.next && s[2..] == h.data
  {
    LenByteFits(h.typ, |h.data|);
    [h.next, LenByte(h.typ, |h.data| + 2)] + h.data
  }

  ghost function ChainBytes(hs: seq<Hdr>): (s: seq<byte>)
    requires SizedHdrs(hs)
    ensures |s| == Total(hs)
  {
    if hs == [] then [] else ChainBytes(hs[..|hs| - 1]) + HdrBytes(hs[|hs| - 1])
  }

  lemma ChainSnoc(hs: seq<Hdr>, h: Hdr)
    requires SizedHdrs(hs) && Sized(h.typ, |h.data|)
    ensures SizedHdrs(hs + [h]) && ChainBytes(hs + [h]) == ChainBytes(hs) + HdrBytes(h) && ChainBytes([]) == []
  {
    assert (hs + [h])[..|hs|] == hs;
  }

  lemma {:induction false} SameTotal(hs: seq<Hdr>, gs: seq<Hdr>)
    requires |hs| == |gs| && forall i :: 0 <= i < |hs| ==> hs[i].data == gs[i].data
    ensures Total(hs) == Total(gs)
  {
    if hs != [] {
      SameTotal(hs[..|hs| - 1], gs[..|hs| - 1]);
    } else {
    }
  }

  /** Where the type byte that announces what follows a list of headers is, counted from behind the base header;
      for the empty list it is in the base header. */
  ghost function LastOff(hs: seq<Hdr>): int {
    if hs == [] then -34 else Total(hs[..|hs| - 1])
  }

  /** The list with `t` announced by its last header. */
  ghost function Announce(hs: seq<Hdr>, t: byte): seq<Hdr> {
    if hs == [] then [] else hs[..|hs| - 1] + [hs[|hs| - 1].(next := t)]
  }

  lemma AnnounceHdr(h: Hdr, t: byte)
    requires Sized(h.typ, |h.data|)
    ensures HdrBytes(h.(next := t)) == HdrBytes(h)[0 := t]
  {
  }

  lemma AnnounceBytes(hs: seq<Hdr>, t: byte)
    requires SizedHdrs(hs) && hs != []
    ensures SizedHdrs(Announce(hs, t)) && 0 <= LastOff(hs) < |ChainBytes(hs)| && Total(Announce(hs, t)) == Total(hs)
    ensures ChainBytes(Announce(hs, t)) == ChainBytes(hs)[LastOff(hs) := t]
  {
    hide Sized, ChainBytes, HdrBytes, Total;
    var u, h := hs[..|hs| - 1], hs[|hs| - 1];
    assert hs == u + [h];
    ChainSnoc(u, h);
    ChainSnoc(u, h.(next := t));
    TotalSnoc(u, h);
    TotalSnoc(u, h.(next := t));
    AnnounceHdr(h, t);
    assert (ChainBytes(u) + HdrBytes(h))[|ChainBytes(u)| := t] == ChainBytes(u) + HdrBytes(h)[0 := t];
  }

  lemma RelinkSnoc(hs: seq<Hdr>, h: Hdr)
    ensures Relink(hs + [h], h.next) == Relink(hs, h.typ) + [h]
  {
  }

  lemma RelinkAnnounce(hs: seq<Hdr>, t: byte, u: byte)
    ensures Announce(Relink(hs, t), u) == Relink(hs, u)
  {
  }

  /** The headers that are written. */
  ghost function Written(es: seq<Entry>, proto: byte, preserve: bool): seq<Hdr> {
    if preserve then Cores(es) else Relink(Cores(es), proto)
  }

  /** What the loop has written of the first entries. */
  ghost predicate Building(es: seq<Entry>, i: nat, preserve: bool, hs: seq<Hdr>)
    requires i <= |es|
  {
    SizedHdrs(hs) && Buildables(es[..i]) && |hs| == i && Total(hs) == Total(Cores(es[..i])) &&
    hs == if preserve || i == 0 then Cores(es[..i]) else Relink(Cores(es[..i]), Core(es[i - 1]).next)
  }

  ghost predicate AllBuildable(es: seq<Entry>, left: nat) {
    Buildables(es) && Total(Cores(es)) <= left
  }

  lemma BuildStep(es: seq<Entry>, i: nat, preserve: bool, hs: seq<Hdr>)
    requires i < |es| && Building(es, i, preserve, hs) && Buildable(es[i])
    ensures var h := Core(es[i]);
            var next := (if preserve then hs else Announce(hs, h.typ)) + [h];
            Building(es, i + 1, preserve, next) && Total(next) == Total(hs) + |h.data| + 2
  {
    hide Sized, HdrBytes, ChainBytes, Total;
    var h := Core(es[i]);
    assert es[..i + 1] == es[..i] + [es[i]];
    assert Cores(es[..i + 1]) == Cores(es[..i]) + [h];
    TotalSnoc(Cores(es[..i]), h);
    var a := if preserve then hs else Announce(hs, h.typ);
    if !preserve {
      RelinkSnoc(Cores(es[..i]), h);
      if i > 0 {
        RelinkAnnounce(Cores(es[..i]), Core(es[i - 1]).next, h.typ);
        AnnounceBytes(hs, h.typ);
      } else {
        assert Announce(hs, h.typ) == hs;
      }
    }
    TotalSnoc(a, h);
    ChainSnoc(a, h);
  }

  lemma BuildRefused(es: seq<Entry>, i: nat, preserve: bool, hs: seq<Hdr>, left: nat)
    requires i < |es| && Building(es, i, preserve, hs)
    requires Buildable(es[i]) ==> Total(hs) + |Core(es[i]).data| + 2 > left
    ensures !AllBuildable(es, left)
  {
    hide Total, ChainBytes, HdrBytes, Sized;
    if Buildable(es[i]) {
      var h := Core(es[i]);
      TotalSnoc(Cores(es[..i]), h);
      assert Cores(es[..i + 1]) == Cores(es[..i]) + [h];
      TotalPrefix(Cores(es), i + 1);
      assert Cores(es)[..i + 1] == Cores(es[..i + 1]);
    }
  }

  lemma {:induction false} TotalPrefix(hs: seq<Hdr>, n: nat)
    requires n <= |hs|
    ensures Total(hs[..n]) <= Total(hs)
  {
    if n < |hs| {
      TotalPrefix(hs[..|hs| - 1], n);
      assert hs[..|hs| - 1][..n] == hs[..n];
    } else {
      assert hs[..n] == hs;
    }
  }

  /** The packet up to the end of the chain, with the type in the base header. */
  ghost predicate Laid(pkt: seq<byte>, was: seq<byte>, hs: seq<Hdr>, first: byte) {
    SizedHdrs(hs) && |pkt| == |was| && BaseLen + Total(hs) <= |pkt| && pkt[6] == first && pkt[..6] == was[..6] &&
    pkt[7..BaseLen] == was[7..BaseLen] && pkt[BaseLen..BaseLen + Total(hs)] == ChainBytes(hs)
  }

  lemma LaidAnnounce(pkt: seq<byte>, now: seq<byte>, was: seq<byte>, hs: seq<Hdr>, first: byte, t: byte)
    requires Laid(pkt, was, hs, first) && 0 <= BaseLen + LastOff(hs) < |pkt| && now == pkt[BaseLen + LastOff(hs) := t]
    ensures Laid(now, was, Announce(hs, t), if hs == [] then t else first)
  {
    if hs != [] {
      AnnounceBytes(hs, t);
      assert now[BaseLen..BaseLen + Total(hs)] == pkt[BaseLen..BaseLen + Total(hs)][LastOff(hs) := t];
    } else {
    }
    assert now[..6] == pkt[..6] && now[7..BaseLen] == pkt[7..BaseLen];
  }

  lemma LaidSnoc(pkt: seq<byte>, now: seq<byte>, was: seq<byte>, hs: seq<Hdr>, first: byte, h: Hdr)
    requires Laid(pkt, was, hs, first) && Sized(h.typ, |h.data|) && |now| == |pkt| && BaseLen + Total(hs) + |h.data| + 2 <= |pkt|
    requires forall i :: 0 <= i < BaseLen + Total(hs) ==> now[i] == pkt[i]
    requires now[BaseLen + Total(hs)..BaseLen + Total(hs) + |h.data| + 2] == HdrBytes(h)
    ensures Laid(now, was, hs + [h], first)
  {
    hide Sized, HdrBytes, ChainBytes, Total, SizedHdrs;
    ChainSnoc(hs, h);
    TotalSnoc(hs, h);
    var a, b := BaseLen + Total(hs), BaseLen + Total(hs) + |h.data| + 2;
    SliceGrown(pkt, now, a, b);
    assert now[BaseLen..b] == ChainBytes(hs + [h]);
  }

  lemma SliceGrown(pkt: seq<byte>, now: seq<byte>, a: nat, b: nat)
    requires BaseLen <= a <= b <= |pkt| == |now| && forall i :: 0 <= i < a ==> now[i] == pkt[i]
    ensures now[BaseLen..b] == pkt[BaseLen..a] + now[a..b] && now[..6] == pkt[..6] && now[7..BaseLen] == pkt[7..BaseLen]
  {
    assert now[BaseLen..a] == pkt[BaseLen..a];
  }

  /** The bytes of one header. */
  method WriteHeader(pkt: array<byte>, at: nat, h: Hdr)
    requires at + |h.data| + 2 <= pkt.Length && Sized(h.typ, |h.data|)
    modifies pkt
    ensures pkt[at..at + |h.data| + 2] == HdrBytes(h)
    ensures forall i :: 0 <= i < pkt.Length && !(at <= i < at + |h.data| + 2) ==> pkt[i] == old(pkt[i])
  {
    forall i | 0 <= i < |h.data| {
      pkt[at + 2 + i] := h.data[i];
    }
    LenByteFits(h.typ, |h.data|);
    pkt[at + 1] := LenByte(h.typ, |h.data| + 2);
    pkt[at] := h.next;
    assert pkt[at + 2..at + |h.data| + 2] == h.data;
  }

  /** `lua_reconstruct_ip6exthdr`: succeeds exactly if all entries can be written into the `len` bytes, and then
      leaves the chain behind the base header, which announces the first type unless types are preserved. */
  method Reconstruct(es: seq<Entry>, pkt: array<byte>, len: nat, proto: byte, preserve: bool) returns (ok: bool, newLen: nat)
    requires len <= pkt.Length
    modifies pkt
    ensures ok <==> len >= BaseLen && AllBuildable(es, len - BaseLen)
    ensures ok ==> var hs := Written(es, proto, preserve);
                   newLen == BaseLen + Total(hs) &&
                   Laid(pkt[..], old(pkt[..]), hs, if preserve then old(pkt[6]) else if es == [] then proto else hs[0].typ) &&
                   pkt[newLen..] == old(pkt[..])[newLen..]
    ensures !ok ==> newLen == len
  {
    hide Total, ChainBytes, Building, Laid, AllBuildable, Sized, HdrBytes, Cores, Relink, Announce, LastOff;
    ok, newLen := false, len;
    if len < BaseLen {
      return;
    }
    ghost var was, hs: seq<Hdr> := pkt[..], [];
    ghost var first: byte := pkt[6];
    var lastProto, filled, left, i := 6, BaseLen, len - BaseLen, 0;
    BuildStart(es, was, preserve);
    while i < |es|
      invariant i <= |es| && |hs| == i && Building(es, i, preserve, hs) && Laid(pkt[..], was, hs, first)
      invariant filled == BaseLen + Total(hs) && left == len - filled && filled <= len
      invariant lastProto == BaseLen + LastOff(hs) < filled
      invariant first == if preserve || i == 0 then was[6] else hs[0].typ
      invariant forall k :: filled <= k < |was| ==> pkt[k] == was[k]
    {
      var e := es[i];
      if !(e.typ.Some? && e.data.Some?) || !Sized(e.typ.value, |e.data.value|) || |e.data.value| + 2 > left {
        BuildRefused(es, i, preserve, hs, len - BaseLen);
        return;
      }
      var h := Core(e);
      BuildStep(es, i, preserve, hs);
      ghost var p0 := pkt[..];
      if !preserve {
        LastBefore(hs);
        pkt[lastProto] := h.typ;
        LaidAnnounce(p0, pkt[..], was, hs, first, h.typ);
        AnnounceTotal(hs, h.typ);
        first := if hs == [] then h.typ else first;
        hs := Announce(hs, h.typ);
      }
      ghost var p1 := pkt[..];
      WriteHeader(pkt, filled, h);
      LaidSnoc(p1, pkt[..], was, hs, first, h);
      LastOffSnoc(hs, h);
      lastProto, left, filled := filled, left - (|h.data| + 2), filled + |h.data| + 2;
      hs, i := hs + [h], i + 1;
    }
    ghost var built := hs;
    if !preserve {
      ghost var p0 := pkt[..];
      LastBefore(hs);
      pkt[lastProto] := proto;
      LaidAnnounce(p0, pkt[..], was, hs, first, proto);
      AnnounceTotal(hs, proto);
      first := if hs == [] then proto else first;
      hs := Announce(hs, proto);
    }
    BuildEnd(es, preserve, proto, built, hs, len - BaseLen);
    newLen, ok := filled, true;
  }

  lemma BuildStart(es: seq<Entry>, was: seq<byte>, preserve: bool)
    requires |was| >= BaseLen
    ensures Building(es, 0, preserve, []) && Laid(was, was, [], was[6]) && Total([]) == 0 && LastOff([]) == -34
  {
    assert es[..0] == [];
  }

  lemma LastBefore(hs: seq<Hdr>)
    ensures LastOff(hs) < Total(hs) && (hs != [] ==> LastOff(hs) >= 0)
  {
  }

  lemma AnnounceTotal(hs: seq<Hdr>, t: byte)
    ensures Total(Announce(hs, t)) == Total(hs) && |Announce(hs, t)| == |hs|
    ensures forall i :: 0 <= i < |hs| ==> Announce(hs, t)[i].typ == hs[i].typ
  {
    SameTotal(hs, Announce(hs, t));
  }

  lemma LastOffSnoc(hs: seq<Hdr>, h: Hdr)
    ensures LastOff(hs + [h]) == Total(hs) && Total(hs + [h]) == Total(hs) + |h.data| + 2
  {
    TotalSnoc(hs, h);
  }

  lemma BuildEnd(es: seq<Entry>, preserve: bool, proto: byte, built: seq<Hdr>, hs: seq<Hdr>, left: nat)
    requires Building(es, |es|, preserve, built) && Total(built) <= left
    requires hs == if preserve then built else Announce(built, proto)
    ensures AllBuildable(es, left) && hs == Written(es, proto, preserve)
  {
    assert es[..|es|] == es;
    if !preserve && es != [] {
      RelinkAnnounce(Cores(es), Core(es[|es| - 1]).next, proto);
    }
  }

  // ----- Walking what was built -----

  /** Headers a walker can follow: known types, fragment headers of eight bytes, and a later fragment only as
      the last. */
  ghost predicate Walkable(hs: seq<Hdr>) {
    forall i :: 0 <= i < |hs| ==>
      Known(hs[i].typ) && (hs[i].typ == Fragment ==> |hs[i].data| == 6) && (i < |hs| - 1 ==> !LaterFragment(hs[i]))
  }

  /** Each header announces the type of the next. */
  ghost predicate IsLinked(hs: seq<Hdr>, final: byte) {
    forall i :: 0 <= i < |hs| ==> hs[i].next == NextTyp(hs, i, final)
  }

  ghost function Continue(hs: seq<Hdr>, final: byte, rest: seq<byte>): Walked {
    if hs != [] && LaterFragment(hs[|hs| - 1]) then Walked([], 0, final, true) else Walk(final, rest)
  }

  lemma {:induction false} ChainFront(hs: seq<Hdr>)
    requires SizedHdrs(hs) && hs != []
    ensures ChainBytes(hs) == HdrBytes(hs[0]) + ChainBytes(hs[1..])
  {
    hide Sized, HdrBytes, ChainBytes, Total;
    var n := |hs| - 1;
    ChainSnoc(hs[..n], hs[n]);
    assert hs == hs[..n] + [hs[n]];
    if n == 0 {
      assert hs[..0] == [] && hs[1..] == [];
    } else {
      var t := hs[..n][1..];
      ChainFront(hs[..n]);
      ChainSnoc(t, hs[n]);
      assert hs[1..] == t + [hs[n]];
      assert HdrBytes(hs[0]) + ChainBytes(t) + HdrBytes(hs[n]) == HdrBytes(hs[0]) + (ChainBytes(t) + HdrBytes(hs[n]));
    }
  }

  lemma HdrWalked(h: Hdr, rest: seq<byte>)
    requires Sized(h.typ, |h.data|) && Known(h.typ) && (h.typ == Fragment ==> |h.data| == 6)
    ensures HdrLen(h.typ, HdrBytes(h) + rest) == Some(|h.data| + 2)
  {
    LenByteFits(h.typ, |h.data|);
    assert (HdrBytes(h) + rest)[1] == HdrBytes(h)[1];
  }

  lemma HdrTail(hs: seq<Hdr>, final: byte)
    requires SizedHdrs(hs) && Walkable(hs) && IsLinked(hs, final) && hs != []
    ensures SizedHdrs(hs[1..]) && Walkable(hs[1..]) && IsLinked(hs[1..], final)
    ensures var h := hs[0];
            Sized(h.typ, |h.data|) && Known(h.typ) && (h.typ == Fragment ==> |h.data| == 6) &&
            h.next == (if |hs| > 1 then hs[1].typ else final) && (|hs| > 1 ==> !LaterFragment(h))
  {
    var t := hs[1..];
    assert forall i :: 0 <= i < |t| ==> t[i] == hs[i + 1];
    forall i | 0 <= i < |t|
      ensures t[i].next == NextTyp(t, i, final)
    {
      assert t[i] == hs[i + 1];
    }
  }

  /** The first header of what is walked. */
  lemma WalkFront(h: Hdr, t: seq<byte>)
    requires Sized(h.typ, |h.data|) && Known(h.typ) && (h.typ == Fragment ==> |h.data| == 6)
    ensures var w := if LaterFragment(h) then Walked([], 0, h.next, true) else Walk(h.next, t);
            Walk(h.typ, HdrBytes(h) + t) == Walked([h] + w.hs, |h.data| + 2 + w.at, w.typ, w.stopped)
  {
    hide HdrLen, Sized, LaterFragment;
    var s := HdrBytes(h) + t;
    HdrWalked(h, t);
    assert s[2..|h.data| + 2] == HdrBytes(h)[2..] && s[|h.data| + 2..] == t && s[0] == HdrBytes(h)[0];
  }

  /** Walking a chain and whatever follows gives its headers first. */
  lemma {:induction false} WalkChain(hs: seq<Hdr>, final: byte, rest: seq<byte>)
    requires SizedHdrs(hs) && Walkable(hs) && IsLinked(hs, final)
    ensures var w := Continue(hs, final, rest);
            Walk(if hs == [] then final else hs[0].typ, ChainBytes(hs) + rest) ==
              Walked(hs + w.hs, |ChainBytes(hs)| + w.at, w.typ, w.stopped)
    decreases |hs|
  {
    hide Walk, HdrBytes, Sized, LaterFragment, Walkable, IsLinked, SizedHdrs, ChainBytes, Total, Continue;
    ChainSnocEmpty();
    if hs == [] {
      ContinueNone(final, rest);
    } else {
      HdrTail(hs, final);
      var h, t := hs[0], ChainBytes(hs[1..]) + rest;
      ChainFront(hs);
      assert ChainBytes(hs) + rest == HdrBytes(h) + t;
      WalkFront(h, t);
      ContinueStep(hs, final, rest);
      Regrouped(hs, Continue(hs, final, rest).hs);
      if |hs| > 1 {
        WalkChain(hs[1..], final, rest);
      } else {
        assert hs[1..] == [] && [] + rest == rest;
      }
    }
  }

  lemma ContinueNone(final: byte, rest: seq<byte>)
    ensures var w := Continue([], final, rest); w == Walk(final, rest) && [] + w.hs == w.hs && [] + rest == rest
  {
    hide Walk;
  }

  /** Where the walk over a chain goes on after the first header. */
  lemma ContinueStep(hs: seq<Hdr>, final: byte, rest: seq<byte>)
    requires hs != []
    ensures |hs| > 1 ==> Continue(hs[1..], final, rest) == Continue(hs, final, rest)
    ensures |hs| == 1 ==> Continue(hs, final, rest) == if LaterFragment(hs[0]) then Walked([], 0, final, true) else Walk(final, rest)
  {
    hide Walk, LaterFragment;
  }

  lemma Regrouped(hs: seq<Hdr>, gs: seq<Hdr>)
    requires hs != []
    ensures [hs[0]] + (hs[1..] + gs) == hs + gs && (|hs| == 1 ==> [hs[0]] + gs == hs + gs)
  {
  }

  lemma ChainSnocEmpty()
    ensures SizedHdrs([]) && ChainBytes([]) == []
  {
  }

  /** Only headers that a walker can follow are found by a walk. */
  lemma {:induction false} WalkFinds(t: byte, s: seq<byte>)
    ensures Walkable(Walk(t, s).hs)
    decreases |s|
  {
    if s != [] && HdrLen(t, s).Some? {
      var n := HdrLen(t, s).value;
      if !LaterFragment(Hdr(t, s[0], s[2..n])) {
        WalkFinds(s[0], s[n..]);
      }
    }
  }

  /** Walking gives back what was built exactly if the headers can be followed and nothing behind them looks like
      another header. */
  lemma RoundTrip(hs: seq<Hdr>, final: byte, rest: seq<byte>)
    requires SizedHdrs(hs) && IsLinked(hs, final)
    ensures Walk(if hs == [] then final else hs[0].typ, ChainBytes(hs) + rest).hs == hs <==>
              Walkable(hs) && Continue(hs, final, rest).hs == []
  {
    hide Walk;
    var s := ChainBytes(hs) + rest;
    WalkFinds(if hs == [] then final else hs[0].typ, s);
    if Walkable(hs) {
      WalkChain(hs, final, rest);
      assert hs + Continue(hs, final, rest).hs == hs <==> Continue(hs, final, rest).hs == [];
    }
  }

  lemma RelinkLinked(es: seq<Entry>, proto: byte, left: nat)
    requires AllBuildable(es, left)
    ensures SizedHdrs(Written(es, proto, false)) && IsLinked(Written(es, proto, false), proto)
  {
  }

  // ----- Packets byte by byte -----

  /** A fragment header (section 4.5 of RFC 8200): 13 bits of an offset in units of eight bytes, two reserved ones, and
      whether more fragments follow. */
  lemma FragmentField(data: seq<byte>)
    requires |data| >= 2
    ensures var field := 256 * (data[0] as int) + data[1];
            FragOff(data) == 8 * (field / 8) && (FragOff(data) != 0 <==> data[0] != 0 || data[1] >= 8) &&
            (MoreFrag(data) <==> field % 2 == 1)
  {
    var field := 256 * (data[0] as int) + data[1];
    DivUnique(field, 8, 32 * (data[0] as int) + data[1] / 8, data[1] % 8);
  }

  /** The bytes of a chain: each header starts with the type of the next one and its own length, in units of eight
      bytes without the first eight, and for an authentication header (section 2.2 of RFC 4302) in units of four bytes
      without the first eight. */
  lemma {:induction false} ChainLayout(hs: seq<Hdr>, i: nat)
    requires SizedHdrs(hs) && i < |hs|
    ensures var (s, o, h) := (ChainBytes(hs), Total(hs[..i]), hs[i]);
            o + 2 + |h.data| <= |s| && s[o] == h.next && s[o + 2..o + 2 + |h.data|] == h.data &&
            |h.data| + 2 == if h.typ == 51 then 4 * (s[o + 1] as int) + 8 else 8 * (s[o + 1] as int) + 8
  {
    hide Total, Sized, ChainBytes, HdrBytes;
    var u, g := hs[..|hs| - 1], hs[|hs| - 1];
    assert hs == u + [g];
    ChainSnoc(u, g);
    if i < |hs| - 1 {
      ChainLayout(u, i);
      assert u[..i] == hs[..i];
      var o := Total(hs[..i]);
      FrontKept(ChainBytes(u), HdrBytes(g), o, o + 2 + |hs[i].data|);
    } else {
      assert hs[..i] == u;
      HdrLayout(g);
      BackKept(ChainBytes(u), HdrBytes(g));
    }
  }

  lemma HdrLayout(h: Hdr)
    requires Sized(h.typ, |h.data|)
    ensures var s := HdrBytes(h);
            |s| == |h.data| + 2 && s[0] == h.next && s[2..] == h.data &&
            |h.data| + 2 == if h.typ == 51 then 4 * (s[1] as int) + 8 else 8 * (s[1] as int) + 8
  {
    LenByteFits(h.typ, |h.data|);
  }

  lemma FrontKept(s: seq<byte>, t: seq<byte>, a: nat, b: nat)
    requires a + 2 <= b <= |s|
    ensures (s + t)[a] == s[a] && (s + t)[a + 1] == s[a + 1] && (s + t)[a + 2..b] == s[a + 2..b]
  {
  }

  lemma BackKept(s: seq<byte>, t: seq<byte>)
    requires |t| >= 2
    ensures (s + t)[|s|] == t[0] && (s + t)[|s| + 1] == t[1] && (s + t)[|s| + 2..|s| + |t|] == t[2..]
  {
  }

  /** A packet with a chain that was built for it and a transport payload of at least one byte, as the bytes of the
      base header say; bytes behind the payload length do not matter. */
  ghost predicate Assembled(pkt: seq<byte>, es: seq<Entry>, proto: byte, payload: seq<byte>) {
    AllBuildable(es, |pkt|) && payload != [] && proto !in {0, 43, 44, 51, 59, 60, 135, 139, 140} &&
    (forall i :: 0 <= i < |es| ==>
      es[i].typ.value in {0, 43, 44, 51, 60, 135, 139, 140} &&
      (es[i].typ.value == 44 ==>
        |es[i].data.value| == 6 && (i < |es| - 1 ==> es[i].data.value[0] == 0 && es[i].data.value[1] < 8))) &&
    var chain := ChainBytes(Written(es, proto, false));
    var n := |chain| + |payload|;
    40 + n <= |pkt| && 256 * (pkt[4] as int) + pkt[5] == n && pkt[40..40 + n] == chain + payload &&
    pkt[6] == if es == [] then proto else es[0].typ.value
  }

  /** The last entry is a fragment header with an offset. */
  ghost predicate EndsLater(es: seq<Entry>)
    requires Buildables(es)
  {
    es != [] && es[|es| - 1].typ.value == 44 && |es[|es| - 1].data.value| >= 2 &&
    (es[|es| - 1].data.value[0] != 0 || es[|es| - 1].data.value[1] >= 8)
  }

  /** The walkers can follow it. */
  lemma AssembledWalkable(pkt: seq<byte>, es: seq<Entry>, proto: byte, payload: seq<byte>)
    requires Assembled(pkt, es, proto, payload)
    ensures |pkt| >= BaseLen && Walkable(Written(es, proto, false)) && !Known(proto) && proto != NoNext
    ensures Behind40(pkt) == ChainBytes(Written(es, proto, false)) + payload
    ensures var hs := Written(es, proto, false);
            pkt[6] == (if es == [] then proto else hs[0].typ) && (hs != [] && LaterFragment(hs[|hs| - 1]) <==> EndsLater(es))
  {
    hide Total, ChainBytes, Sized, FragOff;
    var hs := Written(es, proto, false);
    BuiltTypes(es, proto, |pkt|);
    forall i | 0 <= i < |hs|
      ensures Known(hs[i].typ) && (hs[i].typ == Fragment ==> |hs[i].data| == 6) && (i < |hs| - 1 ==> !LaterFragment(hs[i]))
    {
      assert hs[i].data == es[i].data.value;
      if hs[i].typ == 44 {
        FragmentField(hs[i].data);
      }
    }
    if hs != [] && hs[|hs| - 1].typ == 44 {
      FragmentField(hs[|hs| - 1].data);
    }
  }

  lemma WalkBuilt(pkt: seq<byte>, es: seq<Entry>, proto: byte, payload: seq<byte>)
    requires |pkt| >= BaseLen && AllBuildable(es, |pkt|) && Walkable(Written(es, proto, false))
    requires Behind40(pkt) == ChainBytes(Written(es, proto, false)) + payload && payload != []
    requires !Known(proto) && proto != NoNext && pkt[6] == if es == [] then proto else Written(es, proto, false)[0].typ
    ensures var (hs, w) := (Written(es, proto, false), WalkPacket(pkt));
            w.hs == hs && |hs| == |es| && (forall i :: 0 <= i < |es| ==> hs[i].typ == Core(es[i]).typ && hs[i].data == Core(es[i]).data) &&
            w.at == Total(hs) && w.typ == proto && w.stopped == (hs != [] && LaterFragment(hs[|hs| - 1])) &&
            (AtPayload(w, Behind40(pkt)) <==> !w.stopped) && Behind40(pkt)[w.at..] == payload
  {
    hide Sized;
    var hs := Written(es, proto, false);
    RelinkLinked(es, proto, |pkt|);
    WalkChain(hs, proto, payload);
    assert HdrLen(proto, payload).None?;
    assert hs + [] == hs;
    assert (ChainBytes(hs) + payload)[Total(hs)..] == payload;
  }

  /** In an assembled packet the list has the entries back, and the transport is found with its type and its bytes,
      unless a later fragment comes last. */
  lemma BuiltPacket(pkt: seq<byte>, es: seq<Entry>, proto: byte, payload: seq<byte>)
    requires Assembled(pkt, es, proto, payload)
    ensures |pkt| >= BaseLen
    ensures var w := WalkPacket(pkt);
            |w.hs| == |es| && (forall i :: 0 <= i < |es| ==> Some(w.hs[i].typ) == es[i].typ && Some(w.hs[i].data) == es[i].data) &&
            w.typ == proto && w.stopped == EndsLater(es) && (AtPayload(w, Behind40(pkt)) <==> !EndsLater(es)) &&
            Behind40(pkt)[w.at..] == payload && BaseLen + w.at + |payload| <= |pkt| &&
            pkt[BaseLen + w.at..BaseLen + w.at + |payload|] == payload
  {
    hide Total, ChainBytes, Sized, LaterFragment, Walk, Walkable, EndsLater;
    AssembledWalkable(pkt, es, proto, payload);
    WalkBuilt(pkt, es, proto, payload);
    BuiltTypes(es, proto, |pkt|);
    var (w, s) := (WalkPacket(pkt), Behind40(pkt));
    assert s == pkt[BaseLen..BaseLen + |s|];
    assert s[w.at..] == pkt[BaseLen + w.at..BaseLen + |s|];
  }

  /** In such a packet a type is found exactly if it is listed, at the place of its first header, or is that of a
      transport that is not behind a later fragment, at its first byte. */
  lemma BuiltFound(pkt: seq<byte>, es: seq<Entry>, proto: byte, payload: seq<byte>, typ: byte, r: Option<nat>)
    requires Assembled(pkt, es, proto, payload) && |pkt| >= BaseLen && FoundIn(WalkPacket(pkt), Behind40(pkt), typ, r)
    ensures var hs := Written(es, proto, false);
            (r.Some? <==> (exists i :: 0 <= i < |es| && es[i].typ == Some(typ)) || (typ == proto && !EndsLater(es))) &&
            (r.Some? && typ != proto ==> exists i :: FirstAt(hs, typ, i) && r.value == BaseLen + Total(hs[..i])) &&
            (r.Some? && typ == proto ==> r.value == BaseLen + Total(hs))
  {
    AssembledWalkable(pkt, es, proto, payload);
    WalkBuilt(pkt, es, proto, payload);
    var hs := Written(es, proto, false);
    BuiltTypes(es, proto, |pkt|);
    hide Walk, Total, Written, LaterFragment, ChainBytes, HdrBytes, Sized, EndsLater, Behind40, Known, IsOption, Assembled, FoundIn, FirstAt;
    FoundListed(hs, WalkPacket(pkt), Behind40(pkt), proto, typ, r);
  }

  lemma FoundListed(hs: seq<Hdr>, w: Walked, s: seq<byte>, proto: byte, typ: byte, r: Option<nat>)
    requires FoundIn(w, s, typ, r) && w.hs == hs && w.typ == proto && w.at == Total(hs) && w.at < |s|
    requires !Known(proto) && Walkable(hs)
    ensures r.Some? <==> (exists i :: 0 <= i < |hs| && hs[i].typ == typ) || (typ == proto && !w.stopped)
    ensures r.Some? && typ != proto ==> exists i :: FirstAt(hs, typ, i) && r.value == BaseLen + Total(hs[..i])
    ensures r.Some? && typ == proto ==> r.value == BaseLen + Total(hs)
  {
    hide Total, FirstAt, LaterFragment;
    assert forall i :: 0 <= i < |hs| ==> Known(hs[i].typ);
  }

  lemma BuiltTypes(es: seq<Entry>, proto: byte, left: nat)
    requires AllBuildable(es, left)
    ensures |Written(es, proto, false)| == |es| && forall i :: 0 <= i < |es| ==> es[i].typ == Some(Written(es, proto, false)[i].typ)
    ensures forall i :: 0 <= i < |es| ==> es[i].data == Some(Written(es, proto, false)[i].data)
  {
  }
}
