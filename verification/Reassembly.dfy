/** TCP reassembly of `nfq2/conntrack.c` in the sequence space modulo 2^32 (section 3.4 of RFC 9293). */
module Reassembly {
  import opened Bytes
  import opened QuicFrames

  const SeqMod: nat := 0x1_0000_0000
  const MaxNeg: nat := 0x10_0000

  function Wrap(x: int): (r: nat)
    ensures r < SeqMod
  {
    x % SeqMod
  }

  /** How far `sn` lies behind `now`, modulo 2^32. */
  function Behind(now: nat, sn: nat): nat { Wrap(now - sn) }

  /** Where a segment belongs in the stream, if it lies behind; negative if before the start. */
  function Offset(now: nat, present: nat, sn: nat): int { present - Behind(now, sn) }

  /** The part of a segment that does not lie before the start. */
  ghost function Trim(o: int, data: seq<byte>): Piece {
    if o >= 0 then Piece(o, data) else if o + |data| <= 0 then Piece(0, []) else Piece(0, data[-o..])
  }

  /** The bytes at places from 0 on, each at its place. */
  lemma TrimBytes(o: int, data: seq<byte>, k: nat)
    ensures Trim(o, data).Covers(k) <==> o <= k < o + |data|
    ensures o <= k < o + |data| ==> Trim(o, data).data[k - Trim(o, data).off] == data[k - o]
  {
  }

  /** What is fed: no gap, not too far behind, and no byte beyond the size. */
  ghost predicate Feedable(now: nat, present: nat, size: nat, sn: nat, len: nat) {
    Behind(now, sn) <= MaxNeg && Offset(now, present, sn) + len <= size
  }

  /** A segment less than 2^32 behind and 2^32 - 2^20 ahead of the end passes the checks for gaps exactly if it
      starts there or up to 2^20 before, and is then put at its true place, however often the sequence numbers
      have wrapped around. */
  lemma TruePlace(start: nat, present: nat, now: nat, o: int, sn: nat)
    requires now == Wrap(start + present) && sn == Wrap(start + o)
    requires present - 0x1_0000_0000 < o < present + 0x1_0000_0000 - 0x10_0000
    ensures (Behind(now, sn) <= 0x10_0000 <==> present - 0x10_0000 <= o <= present) && (o <= present ==> Offset(now, present, sn) == o)
  {
    var a, b := (start + present) / SeqMod, (start + o) / SeqMod;
    assert start + present == a * SeqMod + now && start + o == b * SeqMod + sn;
    var d := present - o;
    assert now - sn == d + (b - a) * SeqMod;
    if d >= 0 {
      DivUnique(now - sn, SeqMod, b - a, d);
    } else {
      DivUnique(now - sn, SeqMod, b - a - 1, d + SeqMod);
    }
  }

  /** A run of accepted segments: each starts at or before the end of what is there. */
  ghost predicate Gapless(log: seq<Piece>) {
    forall i :: 0 <= i < |log| ==> log[i].off <= MaxEnd(log[..i])
  }

  lemma GaplessSnoc(log: seq<Piece>, p: Piece)
    requires Gapless(log) && p.off <= MaxEnd(log)
    ensures Gapless(log + [p])
  {
    var l := log + [p];
    forall i | 0 <= i < |l|
      ensures l[i].off <= MaxEnd(l[..i])
    {
      assert l[..i] == log[..i];
      assert log[..|log|] == log;
    }
  }

  lemma {:induction false} GaplessComplete(log: seq<Piece>)
    requires Gapless(log)
    ensures Complete(log)
  {
    hide Covered, MaxEnd;
    MaxEndNone();
    if log != [] {
      var u, p := log[..|log| - 1], log[|log| - 1];
      forall i | 0 <= i < |u|
        ensures u[i].off <= MaxEnd(u[..i])
      {
        assert u[..i] == log[..i];
      }
      GaplessComplete(u);
      assert log == u + [p];
      assert p.off <= MaxEnd(u);
      Snoc(u, p);
      forall k: nat | k < MaxEnd(log)
        ensures Covered(log, k)
      {
        CoveredSnoc(u, p, k);
      }
    }
  }

  /** Segments of a stream put together its beginning, whatever their order, overlaps and repetitions. */
  lemma StreamRestored(s: seq<byte>, log: seq<Piece>)
    requires Gapless(log) && forall p :: p in log ==> p.End() <= |s| && p.data == s[p.off..p.End()]
    ensures MaxEnd(log) <= |s| && Overlay(log) == s[..MaxEnd(log)]
  {
    GaplessComplete(log);
    if log != [] {
      var i := MaxEndReached(log);
      assert log[i] in log;
    }
    forall k: nat | k < MaxEnd(log)
      ensures ByteAt(log, k) == s[k]
    {
      SliceBytes(s, log, k);
    }
  }

  /** A segment as it arrives. */
  datatype Segment = Segment(sn: nat, data: seq<byte>)

  /** The log after one feed; see `Reassemble.Feed`. */
  ghost function FeedOne(start: nat, size: nat, log: seq<Piece>, g: Segment): seq<Piece> {
    var present := MaxEnd(log);
    var now := Wrap(start + present);
    if Feedable(now, present, size, g.sn, |g.data|) then log + [Trim(Offset(now, present, g.sn), g.data)] else log
  }

  ghost function FeedAll(start: nat, size: nat, segs: seq<Segment>): seq<Piece> {
    if segs == [] then [] else FeedOne(start, size, FeedAll(start, size, segs[..|segs| - 1]), segs[|segs| - 1])
  }

  /** A segment of the stream `s` at a place `o`, with its number modulo 2^32. */
  ghost predicate SegmentOf(start: nat, s: seq<byte>, g: Segment, o: nat) {
    o + |g.data| <= |s| && g.data == s[o..o + |g.data|] && g.sn == Wrap(start + o)
  }

  ghost predicate PartOf(size: nat, s: seq<byte>, log: seq<Piece>) {
    Gapless(log) && MaxEnd(log) <= size && forall p :: p in log ==> p.End() <= |s| && p.data == s[p.off..p.End()]
  }

  lemma FeedTrue(start: nat, size: nat, s: seq<byte>, log: seq<Piece>, g: Segment, o: nat)
    requires |s| < SeqMod - MaxNeg && MaxEnd(log) <= |s| && SegmentOf(start, s, g, o)
    ensures FeedOne(start, size, log, g) ==
              if MaxEnd(log) - MaxNeg <= o <= MaxEnd(log) && o + |g.data| <= size then log + [Piece(o, g.data)] else log
  {
    hide MaxEnd, Behind;
    TruePlace(start, MaxEnd(log), Wrap(start + MaxEnd(log)), o, g.sn);
  }

  lemma FeedStep(start: nat, size: nat, s: seq<byte>, log: seq<Piece>, g: Segment, o: nat)
    requires |s| < SeqMod - MaxNeg && |g.data| <= MaxNeg && PartOf(size, s, log) && SegmentOf(start, s, g, o)
    ensures var r, n, e := FeedOne(start, size, log, g), MaxEnd(log), o + |g.data|;
            PartOf(size, s, r) && MaxEnd(r) == if o <= n < e <= size then e else n
  {
    hide FeedOne, PartOf, SegmentOf, MaxEnd;
    PartRestored(size, s, log);
    FeedTrue(start, size, s, log, g, o);
    SegmentPiece(start, s, g, o);
    Snoc(log, Piece(o, g.data));
    if MaxEnd(log) - MaxNeg <= o <= MaxEnd(log) && o + |g.data| <= size {
      PartSnoc(size, s, log, Piece(o, g.data));
    }
  }

  lemma SegmentPiece(start: nat, s: seq<byte>, g: Segment, o: nat)
    requires SegmentOf(start, s, g, o)
    ensures o + |g.data| <= |s| && g.data == s[o..o + |g.data|]
  {
  }

  lemma PartSnoc(size: nat, s: seq<byte>, log: seq<Piece>, p: Piece)
    requires PartOf(size, s, log) && p.off <= MaxEnd(log) && p.End() <= size && p.End() <= |s| && p.data == s[p.off..p.End()]
    ensures PartOf(size, s, log + [p])
  {
    Snoc(log, p);
    GaplessSnoc(log, p);
  }

  /** Any run of segments of a stream, lost, repeated, reordered and overlapping, across any wrap-around of the
      sequence numbers, puts together a beginning of the stream, and each segment that fits and leaves no gap
      extends it to its end. Only a stream too long for its places to be told apart modulo 2^32 is excluded, and
      a segment longer than 2^20 bytes. */
  lemma {:induction false} RunRestores(start: nat, size: nat, s: seq<byte>, segs: seq<Segment>, places: seq<nat>)
    requires |s| < 0x1_0000_0000 - 0x10_0000 && |places| == |segs|
    requires forall i :: 0 <= i < |segs| ==> SegmentOf(start, s, segs[i], places[i]) && |segs[i].data| <= 0x10_0000
    ensures var log := FeedAll(start, size, segs);
            PartOf(size, s, log) && MaxEnd(log) <= |s| && Overlay(log) == s[..MaxEnd(log)]
    ensures segs != [] ==>
              var (n, i) := (MaxEnd(FeedAll(start, size, segs[..|segs| - 1])), |segs| - 1);
              var e := places[i] + |segs[i].data|;
              MaxEnd(FeedAll(start, size, segs)) == if places[i] <= n < e <= size then e else n
  {
    hide FeedOne, PartOf, SegmentOf, MaxEnd, Overlay;
    if segs == [] {
      EmptyPart(size, s);
    } else {
      var i := |segs| - 1;
      RunRestores(start, size, s, segs[..i], places[..i]);
      FeedStep(start, size, s, FeedAll(start, size, segs[..i]), segs[i], places[i]);
    }
    PartRestored(size, s, FeedAll(start, size, segs));
  }

  lemma EmptyPart(size: nat, s: seq<byte>)
    ensures PartOf(size, s, [])
  {
  }

  lemma PartRestored(size: nat, s: seq<byte>, log: seq<Piece>)
    requires PartOf(size, s, log)
    ensures MaxEnd(log) <= |s| && Overlay(log) == s[..MaxEnd(log)]
  {
    StreamRestored(s, log);
  }

  /** `t_reassemble`; `start` and `log` record the session for the specification. */
  class Reassemble {
    var packet: array<byte>
    var size: nat
    var sizePresent: nat
    var seqNext: nat
    ghost var start: nat
    ghost var log: seq<Piece>

    ghost predicate Valid()
      reads this, packet
    {
      packet.Length == size && seqNext == Wrap(start + sizePresent) && Gapless(log) &&
      sizePresent == MaxEnd(log) <= size && packet[..sizePresent] == Overlay(log)
    }

    /** A zeroed structure. */
    constructor ()
      ensures Valid() && fresh(packet) && IsEmpty() && log == []
    {
      packet := new byte[0];
      size, sizePresent, seqNext, start, log := 0, 0, 0, 0, [];
    }

    /** `ReasmInit`. */
    method Init(sizeRequested: nat, seqStart: nat)
      requires seqStart < SeqMod
      modifies this
      ensures Valid() && fresh(packet) && size == sizeRequested && log == [] && start == seqStart && sizePresent == 0
    {
      packet := new byte[sizeRequested];
      size, sizePresent, seqNext, start, log := sizeRequested, 0, seqStart, seqStart, [];
    }

    /** `ReasmClear`. */
    method Clear()
      requires Valid()
      modifies this
      ensures Valid() && fresh(packet) && IsEmpty() && log == [] && seqNext == old(seqNext)
    {
      packet := new byte[0];
      size, sizePresent, start, log := 0, 0, seqNext, [];
    }

    predicate IsEmpty()
      reads this
    {
      size == 0
    }

    predicate IsFull()
      reads this
    {
      !IsEmpty() && size == sizePresent
    }

    /** `ReasmHasSpace`. */
    predicate HasSpace(len: nat)
      reads this
    {
      sizePresent + len <= size
    }

    /** `ReasmFeed`: takes exactly the segments that leave no gap and fit, and then overlays them at their place;
        otherwise nothing changes. */
    method Feed(sn: nat, payload: seq<byte>) returns (ok: bool)
      requires Valid() && sn < SeqMod
      modifies this, packet
      ensures Valid() && packet == old(packet) && size == old(size) && start == old(start)
      ensures ok <==> Feedable(old(seqNext), old(sizePresent), size, sn, |payload|)
      ensures log == if ok then old(log) + [Trim(Offset(old(seqNext), old(sizePresent), sn), payload)] else old(log)
      ensures ok ==> Wrap(start + Offset(old(seqNext), old(sizePresent), sn)) == sn
      ensures !ok ==> packet[..] == old(packet[..]) && sizePresent == old(sizePresent) && seqNext == old(seqNext)
      ensures sizePresent >= old(sizePresent) && packet[sizePresent..] == old(packet[..])[sizePresent..]
    {
      hide Gapless, ByteAt, MaxEnd, Kept, Behind, Wrap, Overlay, Trim, Feedable, Offset;
      var len := |payload|;
      var dseq, negOverlap := Behind(sn, seqNext), Behind(seqNext, sn);
      FeedPlaces(seqNext, sizePresent, size, sn, len);
      if 0 < dseq < MaxNeg {
        return false;
      }
      if negOverlap > MaxNeg {
        return false;
      }
      ghost var o := Offset(seqNext, sizePresent, sn);
      PlaceOf(start, sizePresent, seqNext, sn);
      TrimFacts(o, payload);
      var szignore := if negOverlap > sizePresent then negOverlap - sizePresent else 0;
      if szignore >= len {
        Empty(log, Trim(o, payload));
        log := log + [Trim(o, payload)];
        return true;
      }
      var szcopy := len - szignore;
      negOverlap := negOverlap - szignore;
      if sizePresent - negOverlap + szcopy > size {
        return false;
      }
      Store(payload[szignore..], negOverlap);
      ok := true;
    }

    /** The end of `ReasmFeed`: the bytes are copied, and the counters advance by what is new. */
    method Store(data: seq<byte>, negOverlap: nat)
      requires Valid() && negOverlap <= sizePresent && sizePresent - negOverlap + |data| <= size
      modifies this`sizePresent, this`seqNext, this`log, packet
      ensures Valid() && log == old(log) + [Piece(old(sizePresent) - negOverlap, data)]
      ensures sizePresent >= old(sizePresent) && packet[sizePresent..] == old(packet[..])[sizePresent..]
    {
      hide Gapless, ByteAt, MaxEnd, Kept, Wrap, Overlay;
      ghost var (was, p, n) := (packet[..], Piece(sizePresent - negOverlap, data), if |data| > negOverlap then |data| - negOverlap else 0);
      CopyAt(packet, sizePresent - negOverlap, data);
      Overlaid(was, packet[..], log, p);
      GaplessSnoc(log, p);
      Snoc(log, p);
      Advance(start, sizePresent, seqNext, n);
      TailKept(was, packet[..], p.End(), sizePresent + n);
      if |data| > negOverlap {
        sizePresent := sizePresent + (|data| - negOverlap);
        seqNext := Wrap(seqNext + (|data| - negOverlap));
      }
      log := log + [p];
    }
  }

  /** `memcpy`. */
  method CopyAt(buf: array<byte>, p: nat, data: seq<byte>)
    requires p + |data| <= buf.Length
    modifies buf
    ensures forall i :: 0 <= i < buf.Length ==> buf[..][i] == if p <= i < p + |data| then data[i - p] else old(buf[..])[i]
    ensures buf[p + |data|..] == old(buf[..])[p + |data|..]
  {
    forall i | 0 <= i < |data| {
      buf[p + i] := data[i];
    }
  }

  lemma TailKept(was: seq<byte>, now: seq<byte>, a: nat, b: nat)
    requires a <= b <= |was| == |now| && was[a..] == now[a..]
    ensures now[b..] == was[b..]
  {
    assert was[b..] == was[a..][b - a..] && now[b..] == now[a..][b - a..];
  }

  lemma TrimFacts(o: int, data: seq<byte>)
    ensures var p := Trim(o, data);
            if |data| == 0 || o + |data| <= 0 then p.data == [] && p.off == (if o >= 0 then o else 0)
            else if o >= 0 then p == Piece(o, data) else p == Piece(0, data[-o..])
  {
  }

  lemma BehindBoth(a: nat, b: nat)
    requires a < SeqMod && b < SeqMod
    ensures Behind(a, b) == if a >= b then a - b else a - b + SeqMod
    ensures Behind(b, a) == if b >= a then b - a else b - a + SeqMod
  {
  }

  lemma FeedPlaces(now: nat, present: nat, size: nat, sn: nat, len: nat)
    requires now < SeqMod && sn < SeqMod
    ensures var (a, b) := (Behind(sn, now), Behind(now, sn));
            a + b in {0, SeqMod} && a >= 0 && b >= 0 && Offset(now, present, sn) == present - b &&
            (Feedable(now, present, size, sn, len) <==> b <= MaxNeg && present - b + len <= size)
  {
    BehindBoth(now, sn);
    hide Behind;
  }

  lemma PlaceOf(start: nat, present: nat, now: nat, sn: nat)
    requires now == Wrap(start + present) && sn < SeqMod
    ensures Wrap(start + Offset(now, present, sn)) == sn
  {
    BehindBoth(now, sn);
    var a := (start + present) / SeqMod;
    assert start + present == a * SeqMod + now;
    if now >= sn {
      DivUnique(start + Offset(now, present, sn), SeqMod, a, sn);
    } else {
      DivUnique(start + Offset(now, present, sn), SeqMod, a - 1, sn);
    }
  }

  lemma Advance(start: nat, present: nat, now: nat, n: nat)
    requires now == Wrap(start + present)
    ensures Wrap(start + (present + n)) == Wrap(now + n)
  {
    var a := (start + present) / SeqMod;
    assert start + present == a * SeqMod + now;
    var b, r := (now + n) / SeqMod, (now + n) % SeqMod;
    assert start + (present + n) == (a + b) * SeqMod + r;
    DivUnique(start + (present + n), SeqMod, a + b, r);
  }

  /** Nothing of the piece is left. */
  lemma Empty(log: seq<Piece>, p: Piece)
    requires Gapless(log) && p.data == [] && p.off <= MaxEnd(log)
    ensures Gapless(log + [p]) && MaxEnd(log + [p]) == MaxEnd(log) && Overlay(log + [p]) == Overlay(log)
  {
    Snoc(log, p);
    GaplessSnoc(log, p);
  }

  lemma Overlaid(was: seq<byte>, buf: seq<byte>, log: seq<Piece>, p: Piece)
    requires MaxEnd(log) <= |was| && was[..MaxEnd(log)] == Overlay(log) && |buf| == |was| && p.End() <= |was|
    requires p.off <= MaxEnd(log)
    requires forall i :: 0 <= i < |was| ==> buf[i] == if p.off <= i < p.End() then p.data[i - p.off] else was[i]
    ensures buf[..MaxEnd(log + [p])] == Overlay(log + [p])
  {
    hide ByteAt, MaxEnd, Kept;
    Snoc(log, p);
    var m, n := MaxEnd(log), MaxEnd(log + [p]);
    forall k: nat | k < n
      ensures buf[k] == ByteAt(log + [p], k)
    {
      if k < m {
        assert was[k] == was[..m][k];
      }
    }
    assert buf[..n] == Overlay(log + [p]);
  }
}
