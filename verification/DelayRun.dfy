/** Whole client hellos that come in several packets: what the play functions of `DelayQueue` do with all of them. */
module DelayRun {
  import opened Bytes
  import opened Wrappers
  import opened QuicFrames
  import opened QuicDefrag
  import opened QuicHello
  import opened Reassembly
  import opened DelayQueue

  // ----- TCP -----

  /** A segment of the record `s`, whose bytes from place `o` on it holds; `sn0` is the sequence number of the first
      byte. */
  ghost predicate Arrives(s: seq<byte>, sn0: nat, p: Packet, o: nat) {
    p.payload != [] && o + |p.payload| <= |s| && p.payload == s[o..o + |p.payload|] && p.sn == (sn0 + o) % 0x1_0000_0000
  }

  /** The packet belongs to a track, comes from the client and finds memory, and reassembly is switched on. */
  ghost predicate Tracked(v: Probe) {
    v.known && v.tracked && !v.reverse && !v.disabled && v.mem
  }

  /** How far the first `n` segments reach. */
  ghost function Reached(ps: seq<Packet>, places: seq<nat>, n: nat): nat
    requires n <= |ps| == |places|
  {
    if n == 0 then 0
    else
      var r, e := Reached(ps, places, n - 1), places[n - 1] + |ps[n - 1].payload|;
      if e > r then e else r
  }

  /** Segments without a gap, of which only the last one completes the record. */
  ghost predicate Segments(s: seq<byte>, ps: seq<Packet>, places: seq<nat>) {
    0 < |ps| == |places| <= 64 && |s| <= 16384 && places[0] == 0 && ps[0].sn < 0x1_0000_0000 &&
    (forall i :: 0 <= i < |ps| ==> Arrives(s, ps[0].sn, ps[i], places[i]) && places[i] <= Reached(ps, places, i)) &&
    (forall i :: 0 <= i < |ps| ==> Reached(ps, places, i) < |s|) && Reached(ps, places, |ps|) == |s|
  }

  /** The session after the first `n` of them. */
  ghost predicate Underway(t: Track, s: seq<byte>, ps: seq<Packet>, places: seq<nat>, n: nat)
    requires 0 < n <= |ps| == |places|
    reads t, t.reasm, t.reasm.packet, t.delayed
  {
    t.Valid() && t.delayed.q == ps[..n] && PartOf(|s|, s, t.reasm.log) && t.payloadType == DelayQueue.TlsHello &&
    t.reasm.size == |s| && t.reasm.start == ps[0].sn && MaxEnd(t.reasm.log) == Reached(ps, places, n)
  }

  /** A segment goes on with the session. */
  lemma NextFed(s: seq<byte>, log: seq<Piece>, start: nat, now: nat, p: Packet, o: nat)
    requires |s| <= 16384 && PartOf(|s|, s, log) && start < 0x1_0000_0000 && now == Wrap(start + MaxEnd(log)) && MaxEnd(log) <= |s|
    requires Arrives(s, start, p, o) && o <= MaxEnd(log)
    ensures Feedable(now, MaxEnd(log), |s|, p.sn, |p.payload|)
    ensures [Trim(Offset(now, MaxEnd(log), p.sn), p.payload)] == [Piece(o, p.payload)]
    ensures var e := o + |p.payload|;
            PartOf(|s|, s, log + [Piece(o, p.payload)]) && MaxEnd(log + [Piece(o, p.payload)]) == if e > MaxEnd(log) then e else MaxEnd(log)
  {
    hide PartOf, Behind, MaxEnd, Kept;
    TruePlace(start, MaxEnd(log), now, o, p.sn);
    Snoc(log, Piece(o, p.payload));
    PartSnoc(|s|, s, log, Piece(o, p.payload));
  }

  lemma FirstFed(s: seq<byte>, p: Packet, sn0: nat)
    requires Arrives(s, sn0, p, 0)
    ensures PartOf(|s|, s, [Piece(0, p.payload)]) && MaxEnd([Piece(0, p.payload)]) == |p.payload|
    ensures |p.payload| == |s| ==> p.payload == s
  {
    hide Kept, ByteAt;
    EmptyPart(|s|, s);
    MaxEndNone();
    PartSnoc(|s|, s, [], Piece(0, p.payload));
    Snoc([], Piece(0, p.payload));
    assert [] + [Piece(0, p.payload)] == [Piece(0, p.payload)];
    assert s[0..|s|] == s;
  }

  lemma WholeThere(s: seq<byte>, log: seq<Piece>)
    requires PartOf(|s|, s, log) && MaxEnd(log) == |s|
    ensures Overlay(log) == s && |Overlay(log)| == |s|
  {
    hide PartOf, Overlay, MaxEnd;
    Reassembly.PartRestored(|s|, s, log);
    assert s[..|s|] == s;
  }

  lemma LogLength(log: seq<Piece>)
    ensures |Overlay(log)| == MaxEnd(log)
  {
  }

  lemma SegmentAt(s: seq<byte>, ps: seq<Packet>, places: seq<nat>, i: nat)
    requires Segments(s, ps, places) && i < |ps|
    ensures Arrives(s, ps[0].sn, ps[i], places[i]) && places[i] <= Reached(ps, places, i) < |s| <= 16384 && ps[i].payload != [] && places[i] + |ps[i].payload| <= |s|
    ensures ps[0].sn < 0x1_0000_0000 && ps[i].sn < 0x1_0000_0000 && |ps| <= 64 && places[0] == 0
    ensures Reached(ps, places, i + 1) == (var (r, e) := (Reached(ps, places, i), places[i] + |ps[i].payload|); if e > r then e else r)
    ensures Reached(ps, places, i + 1) == |s| <==> i + 1 == |ps|
    ensures Reached(ps, places, 0) == 0
  {
    hide Arrives;
    assert Arrives(s, ps[0].sn, ps[i], places[i]);
    ArrivesFacts(s, ps[0].sn, ps[i], places[i]);
  }

  lemma ArrivesFacts(s: seq<byte>, sn0: nat, p: Packet, o: nat)
    requires Arrives(s, sn0, p, o)
    ensures p.sn < 0x1_0000_0000 && p.payload != [] && o + |p.payload| <= |s|
  {
  }

  lemma NotNone(s: seq<byte>, ps: seq<Packet>, places: seq<nat>)
    requires Segments(s, ps, places)
    ensures ps != [] && |places| == |ps|
  {
  }

  method FirstSegment(t: Track, s: seq<byte>, ps: seq<Packet>, places: seq<nat>, v: Probe, replays: nat -> Probe) returns (verdict: Verdict)
    requires t.Valid() && t.tcp && t.reasm.IsEmpty() && Segments(s, ps, places)
    requires Tracked(v) && !v.syn && v.hello && !v.full && !v.retrans && v.record == |s| <= v.window
    modifies t, t.reasm, t.reasm.packet, t.delayed
    ensures t.Valid() && verdict == Drop && t.delayed.entered == old(t.delayed.entered) + [ps[0]]
    ensures fresh(t.reasm.packet) || t.reasm.packet == old(t.reasm.packet)
    ensures |ps| > 1 ==> Underway(t, s, ps, places, 1) && t.exits == old(t.exits)
    ensures |ps| == 1 ==> t.reasm.IsEmpty() && t.delayed.q == [] && t.exits == old(t.exits) + Replays(true, ps, s, replays)
  {
    hide Replays, Sents, Trim, Behind, Overlay, Gapless, MaxEnd, Feedable, Offset, PostnatFix, PartOf, Segments, Arrives, Reached, Kept, ByteAt;
    NotNone(s, ps, places);
    SegmentAt(s, ps, places, 0);
    FirstFed(s, ps[0], ps[0].sn);
    ghost var how, whole, seen;
    assert [] + [ps[0]] == [ps[0]] == ps[..1];
    verdict, how, whole, seen := t.TcpPacket(ps[0], v, replays, 0);
    assert |ps| == 1 ==> ps == [ps[0]];
  }

  method NextSegment(t: Track, s: seq<byte>, ps: seq<Packet>, places: seq<nat>, n: nat, v: Probe, replays: nat -> Probe) returns (verdict: Verdict)
    requires t.tcp && Segments(s, ps, places) && 0 < n < |ps| && Underway(t, s, ps, places, n) && Tracked(v) && !v.syn
    modifies t, t.reasm, t.reasm.packet, t.delayed
    ensures t.Valid() && verdict == Drop && t.delayed.entered == old(t.delayed.entered) + [ps[n]]
    ensures fresh(t.reasm.packet) || t.reasm.packet == old(t.reasm.packet)
    ensures n + 1 < |ps| ==> Underway(t, s, ps, places, n + 1) && t.exits == old(t.exits)
    ensures n + 1 == |ps| ==> t.reasm.IsEmpty() && t.delayed.q == [] && t.exits == old(t.exits) + Replays(true, ps, s, replays)
  {
    hide Replays, Sents, Trim, Behind, Overlay, Gapless, MaxEnd, Feedable, Offset, PostnatFix, PartOf, Segments, Arrives, Reached, Kept, ByteAt;
    NotNone(s, ps, places);
    SegmentAt(s, ps, places, n);
    SegmentAt(s, ps, places, 0);
    ghost var log, p, o := t.reasm.log, ps[n], places[n];
    NextFed(s, log, ps[0].sn, t.reasm.seqNext, p, o);
    ghost var next := log + [Piece(o, p.payload)];
    LogLength(next);
    if n + 1 == |ps| {
      WholeThere(s, next);
    }
    assert ps[..n + 1] == ps[..n] + [p];
    assert n + 1 == |ps| ==> ps[..n + 1] == ps;
    ghost var how, whole, seen;
    verdict, how, whole, seen := t.TcpPacket(ps[n], v, replays, 0);
  }

  /** A record of a client hello, of at most 16384 bytes, in any segments that leave no gap: each of them is dropped and
      waits, and when the last one has come all are replayed in order, each with the whole record. */
  method RecordArrives(t: Track, s: seq<byte>, ps: seq<Packet>, places: seq<nat>, vs: seq<Probe>, replays: nat -> Probe)
    returns (verdicts: seq<Verdict>)
    requires t.Valid() && t.tcp && t.reasm.IsEmpty() && Segments(s, ps, places)
    requires |vs| == |ps| && (forall v :: v in vs ==> Tracked(v) && !v.syn)
    requires vs[0].hello && !vs[0].full && !vs[0].retrans && vs[0].record == |s| <= vs[0].window
    modifies t, t.reasm, t.reasm.packet, t.delayed
    ensures t.Valid() && t.reasm.IsEmpty() && t.delayed.q == [] && t.delayed.entered == old(t.delayed.entered) + ps
    ensures t.exits == old(t.exits) + Replays(true, ps, s, replays)
    ensures verdicts == seq(|ps|, _ => Drop)
  {
    hide Replays, Segments, Underway;
    NotNone(s, ps, places);
    var verdict := FirstSegment(t, s, ps, places, vs[0], replays);
    var i := 1;
    verdicts := [verdict];
    while i < |ps|
      invariant 1 <= i <= |ps| && t.Valid() && (fresh(t.reasm.packet) || t.reasm.packet == old(t.reasm.packet))
      invariant verdicts == seq(i, _ => Drop) && t.delayed.entered == old(t.delayed.entered) + ps[..i]
      invariant i < |ps| ==> Underway(t, s, ps, places, i) && t.exits == old(t.exits)
      invariant i == |ps| ==> t.reasm.IsEmpty() && t.delayed.q == [] && t.exits == old(t.exits) + Replays(true, ps, s, replays)
    {
      assert vs[i] in vs && ps[..i + 1] == ps[..i] + [ps[i]];
      verdict := NextSegment(t, s, ps, places, i, vs[i], replays);
      verdicts := verdicts + [verdict];
      i := i + 1;
    }
    assert ps[..|ps|] == ps;
  }
  // ----- QUIC -----

  /** Parts of the client hello `s` in the frames of at least two packets, in any order and cut in any way, with room for
      all of them: no beginning of them is refused, the first packet has not only the first bytes and fewer than six,
      and only the last one completes the hello. */
  ghost predicate Initials(s: seq<byte>, pkts: seq<seq<Frame>>) {
    IsClientHello(s) && HandshakeLen(s) == |s| && 2 <= |pkts| <= 64 && (forall fs :: fs in pkts ==> ValidFrames(fs)) &&
    |Stream(pkts)| <= 16384 && (forall n :: 0 < n <= |pkts| ==> Beginning(s, pkts[..n])) &&
    (forall n :: 0 < n < |pkts| ==> !Cuts(s, Pieces(Frames(pkts[..n])))) && Cuts(s, Pieces(Frames(pkts))) &&
    (Complete(Kept(Pieces(pkts[0]))) ==> MaxEnd(Pieces(pkts[0])) >= 6)
  }

  ghost predicate Beginning(s: seq<byte>, pkts: seq<seq<Frame>>) {
    (forall fs :: fs in pkts ==> ValidFrames(fs)) && Accepted(Stream(pkts), 16374) &&
    forall p :: p in Pieces(Frames(pkts)) ==> p.End() <= |s| && p.data == s[p.off..p.End()]
  }

  lemma {:induction false} StreamPrefix(pkts: seq<seq<Frame>>, n: nat)
    requires (forall fs :: fs in pkts ==> ValidFrames(fs)) && n < |pkts|
    ensures forall fs :: fs in pkts[..n] ==> ValidFrames(fs)
    ensures Stream(pkts[..n + 1]) == Stream(pkts[..n]) + EncodeAll(pkts[n]) && |Stream(pkts[..n + 1])| <= |Stream(pkts)|
    decreases |pkts| - n
  {
    assert pkts[..n + 1][..n] == pkts[..n];
    if n + 1 < |pkts| {
      StreamPrefix(pkts, n + 1);
    } else {
      assert pkts[..n + 1] == pkts;
    }
  }

  /** What the bytes up to packet `n` show. */
  lemma InitialAt(s: seq<byte>, pkts: seq<seq<Frame>>, n: nat)
    requires Initials(s, pkts) && n < |pkts|
    ensures 2 <= |pkts| <= 64 && ValidFrames(pkts[n]) && (forall fs :: fs in pkts ==> ValidFrames(fs))
    ensures var (w, now) := (EncodeAll(pkts[n]), Stream(pkts[..n + 1]));
            now == Stream(pkts[..n]) + w && |now| <= 16384 && |w| <= 16384 && View(now).defragged &&
            (View(now).complete <==> n + 1 == |pkts|)
    ensures n == 0 ==> Lacks(View(EncodeAll(pkts[0]))) && Stream(pkts[..0]) == [] && Stream(pkts[..1]) == EncodeAll(pkts[0])
  {
    hide Accepted, Cuts, View, IsClientHello, HandshakeLen, Frames, Stream, Pieces, EncodeAll, ValidFrames, Lacks, Complete, Kept, MaxEnd;
    StreamPrefix(pkts, n);
    assert Beginning(s, pkts[..n + 1]);
    HelloComplete(s, pkts[..n + 1]);
    Defragged(Stream(pkts[..n + 1]));
    assert pkts[..|pkts|] == pkts;
    if n == 0 {
      FirstStream(pkts);
      StartsSession(s, pkts[0]);
    }
  }

  lemma Defragged(clean: seq<byte>)
    requires Accepted(clean, 16374)
    ensures View(clean).defragged
  {
    hide Accepted;
    AcceptedSome(clean, 16374);
  }

  lemma FirstStream(pkts: seq<seq<Frame>>)
    requires pkts != [] && forall fs :: fs in pkts ==> ValidFrames(fs)
    ensures Frames(pkts[..1]) == pkts[0] && Stream(pkts[..0]) == [] && Stream(pkts[..1]) == EncodeAll(pkts[0])
  {
    hide EncodeAll, ValidFrames;
    assert pkts[..1] == [pkts[0]] && [pkts[0]][..0] == [];
    assert [] + EncodeAll(pkts[0]) == EncodeAll(pkts[0]);
    assert [] + pkts[0] == pkts[0];
  }

  ghost predicate Collecting(t: Track, pkts: seq<seq<Frame>>, ps: seq<Packet>, n: nat)
    requires n <= |pkts| == |ps| && forall fs :: fs in pkts ==> ValidFrames(fs)
    reads t, t.reasm, t.reasm.packet, t.delayed
  {
    t.Valid() && t.delayed.q == ps[..n] && t.reasm.size == (if n == 0 then 0 else 16384) && Overlay(t.reasm.log) == Stream(pkts[..n])
  }

  /** A packet of a track that is a QUIC initial with these decrypted bytes. */
  ghost predicate Decrypted(p: Packet, v: Probe, clean: seq<byte>) {
    Tracked(v) && v.quic && v.clean == Some(clean) && p.payload != [] && p.sn < 0x1_0000_0000
  }

  method NextInitial(t: Track, ghost s: seq<byte>, ghost pkts: seq<seq<Frame>>, ps: seq<Packet>, n: nat, v: Probe, replays: nat -> Probe)
    returns (verdict: Verdict)
    requires !t.tcp && Initials(s, pkts) && |ps| == |pkts| && n < |ps| && Collecting(t, pkts, ps, n)
    requires Decrypted(ps[n], v, EncodeAll(pkts[n]))
    modifies t, t.reasm, t.reasm.packet, t.delayed
    ensures t.Valid() && (fresh(t.reasm.packet) || t.reasm.packet == old(t.reasm.packet))
    ensures verdict == PostnatFix(true, false, v) && t.delayed.entered == old(t.delayed.entered) + [ps[n]]
    ensures n + 1 < |ps| ==> Collecting(t, pkts, ps, n + 1) && t.exits == old(t.exits)
    ensures n + 1 == |ps| ==> t.reasm.IsEmpty() && t.delayed.q == [] && t.exits == old(t.exits) + Replays(false, ps, Stream(pkts), replays)
  {
    hide Replays, Sents, Behind, Overlay, Gapless, MaxEnd, PostnatFix, Initials, View, Lacks, Stream, EncodeAll, ValidFrames;
    InitialAt(s, pkts, n);
    assert ps[..n + 1] == ps[..n] + [ps[n]];
    assert n + 1 == |ps| ==> ps[..n + 1] == ps && pkts[..n + 1] == pkts;
    ghost var how, whole, seen;
    verdict, how, whole, seen := t.UdpPacket(ps[n], v, replays, 0);
  }

  /** A client hello in the initials of a connection: each of them waits, and is dropped or, on Linux the first of the
      connection, changed; and when the last one has come all are replayed in order, each with the hello. */
  method HelloArrives(t: Track, ghost s: seq<byte>, ghost pkts: seq<seq<Frame>>, ps: seq<Packet>, vs: seq<Probe>, replays: nat -> Probe)
    returns (verdicts: seq<Verdict>)
    requires t.Valid() && !t.tcp && t.reasm.IsEmpty() && Initials(s, pkts) && |vs| == |ps| == |pkts|
    requires forall i :: 0 <= i < |ps| ==> Decrypted(ps[i], vs[i], EncodeAll(pkts[i]))
    modifies t, t.reasm, t.reasm.packet, t.delayed
    ensures t.Valid() && t.reasm.IsEmpty() && t.delayed.q == [] && t.delayed.entered == old(t.delayed.entered) + ps
    ensures t.exits == old(t.exits) + Replays(false, ps, Stream(pkts), replays)
    ensures |verdicts| == |ps| && forall i :: 0 <= i < |ps| ==>
              verdicts[i] == if vs[i].linux && vs[i].first && vs[i].room then Modify else Drop
    ensures forall p: Packet, v: Probe :: v.known && !v.reverse && v.quic && p.payload != [] ==> Seen(false, p, v, Stream(pkts)) == s
  {
    hide Replays, Initials, Collecting, Decrypted, Seen, Stream, EncodeAll;
    CollectingNone(t, s, pkts, ps);
    verdicts := [];
    var i := 0;
    while i < |ps|
      invariant i <= |ps| && t.Valid() && (fresh(t.reasm.packet) || t.reasm.packet == old(t.reasm.packet))
      invariant |verdicts| == i && t.delayed.entered == old(t.delayed.entered) + ps[..i]
      invariant forall j :: 0 <= j < i ==> verdicts[j] == if vs[j].linux && vs[j].first && vs[j].room then Modify else Drop
      invariant i < |ps| ==> Collecting(t, pkts, ps, i) && t.exits == old(t.exits)
      invariant i == |ps| ==> t.reasm.IsEmpty() && t.delayed.q == [] && t.exits == old(t.exits) + Replays(false, ps, Stream(pkts), replays)
    {
      assert ps[..i + 1] == ps[..i] + [ps[i]];
      var verdict := NextInitial(t, s, pkts, ps, i, vs[i], replays);
      verdicts := verdicts + [verdict];
      i := i + 1;
    }
    assert ps[..|ps|] == ps;
    forall p: Packet, v: Probe | v.known && !v.reverse && v.quic && p.payload != []
      ensures Seen(false, p, v, Stream(pkts)) == s
    {
      SeenHello(s, pkts, p, v);
    }
  }

  lemma CollectingNone(t: Track, s: seq<byte>, pkts: seq<seq<Frame>>, ps: seq<Packet>)
    requires t.Valid() && !t.tcp && t.reasm.IsEmpty() && Initials(s, pkts) && |ps| == |pkts|
    ensures |ps| >= 2 && (forall fs :: fs in pkts ==> ValidFrames(fs)) && Collecting(t, pkts, ps, 0)
  {
    hide Overlay, MaxEnd, ValidFrames, EncodeAll;
    InitialAt(s, pkts, 0);
    NothingThere(t.reasm.log);
    assert ps[..0] == [];
  }

  lemma SeenHello(s: seq<byte>, pkts: seq<seq<Frame>>, p: Packet, v: Probe)
    requires Initials(s, pkts) && v.known && !v.reverse && v.quic && p.payload != []
    ensures (forall fs :: fs in pkts ==> ValidFrames(fs)) && Seen(false, p, v, Stream(pkts)) == s
  {
    hide View, IsClientHello, HandshakeLen, Frames, Stream, Pieces, Seen, Cuts, Accepted, ValidFrames;
    var n := |pkts|;
    assert pkts[..n] == pkts;
    assert Beginning(s, pkts[..n]);
    HelloComplete(s, pkts);
    HelloReplayed(p, v, s, pkts);
  }
}
