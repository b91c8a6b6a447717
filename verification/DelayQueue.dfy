/** The packets a connection delays while a client hello is put together: `nfq2/packet_queue.c` and the queueing
    branches of `nfq2/desync.c`. */
module DelayQueue {
  import opened Bytes
  import opened Wrappers
  import opened QuicFrames
  import opened QuicHello
  import opened Reassembly

  const DelayedMax: nat := 64

  /** A packet with the sequence number of its payload. */
  datatype Packet = Packet(id: nat, sn: nat, payload: seq<byte>)

  datatype Verdict = Pass | Modify | Drop

  /** How a delayed packet leaves: sent as it is, replayed as one of `count` pieces at an offset, with `seen` in
      place of its payload, or freed with its track. */
  datatype Exit = Sent | Replayed(piece: nat, count: nat, offset: nat, seen: seq<byte>, verdict: Verdict) | Destroyed

  /** `struct rawpacket_queue`; `entered` and `left` record all packets for the specification. */
  class RawPacketQueue {
    var q: seq<Packet>
    const maxPackets: nat
    ghost var entered: seq<Packet>
    ghost var left: seq<Packet>

    /** Every packet that has entered has left exactly once or is waiting, all in the order of entry. */
    ghost predicate Valid()
      reads this
    {
      entered == left + q && (maxPackets > 0 ==> |q| <= maxPackets)
    }

    constructor (maxPackets: nat)
      ensures Valid() && q == entered == left == [] && this.maxPackets == maxPackets
    {
      q, entered, left := [], [], [];
      this.maxPackets := maxPackets;
    }

    /** `rawpacket_queue`; `mem` says whether memory can be allocated. */
    method Queue(p: Packet, mem: bool) returns (ok: bool)
      requires Valid()
      modifies this
      ensures Valid() && ok == ((maxPackets == 0 || |old(q)| < maxPackets) && mem)
      ensures q == (if ok then old(q) + [p] else old(q)) && left == old(left)
      ensures entered == if ok then old(entered) + [p] else old(entered)
    {
      if maxPackets > 0 && |q| >= maxPackets {
        return false;
      }
      if !mem {
        return false;
      }
      q, entered, ok := q + [p], entered + [p], true;
    }

    /** `rawpacket_dequeue`. */
    method Dequeue() returns (r: Option<Packet>)
      requires Valid()
      modifies this
      ensures Valid() && entered == old(entered)
      ensures old(q) == [] ==> r == None && q == [] && left == old(left)
      ensures old(q) != [] ==> r == Some(old(q)[0]) && q == old(q)[1..] && left == old(left) + [old(q)[0]]
    {
      if q == [] {
        return None;
      }
      r, q, left := Some(q[0]), q[1..], left + [q[0]];
    }
  }

  ghost function Sents(n: nat): seq<Exit> { seq(n, _ => Sent) }

  function PayloadBefore(q: seq<Packet>, i: nat): nat
    requires i <= |q|
  {
    if i == 0 then 0 else PayloadBefore(q, i - 1) + |q[i - 1].payload|
  }

  /** The payloads of packets one after the other. */
  ghost function Payloads(q: seq<Packet>): seq<byte> {
    if q == [] then [] else Payloads(q[..|q| - 1]) + q[|q| - 1].payload
  }

  /** For a UDP session the offset is the place of the payload behind those of the packets before. */
  lemma {:induction false} PayloadPlace(q: seq<Packet>, i: nat)
    requires i < |q|
    ensures PayloadBefore(q, i) == |Payloads(q[..i])|
    ensures Payloads(q[..i + 1]) == Payloads(q[..i]) + q[i].payload
  {
    assert q[..i + 1][..i] == q[..i];
    if i > 0 {
      PayloadPlace(q, i - 1);
    } else {
      assert q[..0] == [];
    }
  }

  /** The offset a replayed piece is given. */
  ghost function ReplayOffset(tcp: bool, q: seq<Packet>, i: nat): nat
    requires i < |q|
  {
    if tcp then Behind(q[i].sn, q[0].sn) else PayloadBefore(q, i)
  }

  /** What is known of a packet besides its bytes: the results of probes, of decryption, of the search for its track
      and its profile and of the Lua strategy, here arbitrary. */
  datatype Probe = Probe(known: bool, tracked: bool, reverse: bool, reverseFixed: bool, syn: bool, opening: bool, first: bool,
                         room: bool, linux: bool, hello: bool, full: bool, disabled: bool, retrans: bool,
                         record: nat, window: nat, quic: bool, clean: Option<seq<byte>>,
                         rediscovered: bool, verdict: Verdict, mem: bool)

  /** `ct_new_postnat_fix`: on Linux the first packet of a connection is made invalid instead of being dropped, if
      it fits the buffer. */
  function PostnatFix(ctrack: bool, tcp: bool, v: Probe): Verdict {
    if v.linux && (if ctrack then v.first else tcp && v.opening) && v.room then Modify else Drop
  }

  /** The verdict on a packet that is not delayed. */
  function FinalVerdict(ctrack: bool, tcp: bool, v: Probe): Verdict {
    var d := if v.known && v.rediscovered then v.verdict else Pass;
    if v.known && !v.reverseFixed && d == Drop then PostnatFix(ctrack, tcp, v) else d
  }

  /** The three verdicts on a packet that is not delayed. It is dropped only if the strategy says so, and the first
      packet of a connection on Linux not even then, if it fits the buffer; it is changed if the strategy says so or
      instead of such a drop; and it passes if nothing is known of it or the strategy lets it. */
  lemma Verdicts(ctrack: bool, tcp: bool, v: Probe)
    ensures var (f, first) := (FinalVerdict(ctrack, tcp, v), if ctrack then v.first else tcp && v.opening);
            var asked := v.known && v.rediscovered;
            (f == Drop <==> asked && v.verdict == Drop && (v.reverseFixed || !v.linux || !first || !v.room)) &&
            (f == Modify <==> asked && (v.verdict == Modify || (v.verdict == Drop && !v.reverseFixed && v.linux && first && v.room))) &&
            (f == Pass <==> !asked || v.verdict == Pass)
  {
  }

  /** What a replayed packet is processed with, if `whole` has been put together: for QUIC the hello in it. */
  ghost function Seen(tcp: bool, p: Packet, v: Probe, whole: seq<byte>): seq<byte> {
    if tcp then if v.known && !v.reverse && !v.syn && p.payload != [] then whole else p.payload
    else if v.known && !v.reverse && v.quic && p.payload != [] then HelloBytes(View(whole)) else []
  }

  function HelloBytes(w: QuicView): seq<byte> { if w.hello.Some? then w.hello.value else [] }

  /** The exits of a whole queue that is replayed when `whole` has been put together. */
  ghost function Replays(tcp: bool, q: seq<Packet>, whole: seq<byte>, replays: nat -> Probe): seq<Exit> {
    seq(|q|, i requires 0 <= i < |q| =>
      Replayed(i, |q|, ReplayOffset(tcp, q, i), Seen(tcp, q[i], replays(i), whole), FinalVerdict(false, tcp, replays(i))))
  }

  /** The payload of a packet starts `o` bytes behind that of the first one. */
  ghost predicate PlacedAt(q: seq<Packet>, i: nat, o: nat) {
    i < |q| && o < SeqMod && q[i].sn == Wrap(q[0].sn + o)
  }

  /** For a TCP session the offset is the place of the payload in the stream that is put together. */
  lemma ReplayPlace(start: nat, q: seq<Packet>, i: nat, o: nat)
    requires PlacedAt(q, i, o) && q[0].sn == start < SeqMod
    ensures ReplayOffset(true, q, i) == o
  {
    var b := (start + o) / SeqMod;
    assert start + o == b * SeqMod + q[i].sn;
    DivUnique(q[i].sn - start, SeqMod, -b, o);
  }

  datatype PayloadType = Unknown | TlsHello | QuicInitial

  /** What one packet does to the queue. */
  datatype Outcome = Untouched | Queued | Completed | Cancelled | Restarted | RestartedCompleted

  /** The queue and the exits before and after a packet `p`; a replay is of `whole`. */
  ghost predicate Happened(how: Outcome, tcp: bool, p: Packet, whole: seq<byte>, replays: nat -> Probe,
                           q: seq<Packet>, exits: seq<Exit>, q': seq<Packet>, exits': seq<Exit>)
  {
    match how
    case Untouched => q' == q && exits' == exits
    case Queued => q' == q + [p] && exits' == exits
    case Completed => q' == [] && exits' == exits + Replays(tcp, q + [p], whole, replays)
    case Cancelled => q' == [] && exits' == exits + Sents(|q|)
    case Restarted => q' == [p] && exits' == exits + Sents(|q|)
    case RestartedCompleted => q' == [] && exits' == exits + Sents(|q|) + Replays(tcp, [p], whole, replays)
  }

  /** The part of `t_ctrack` that delays packets; `exits` tells how the packets that left have left. */
  class Track {
    const tcp: bool
    const reasm: Reassemble
    const delayed: RawPacketQueue
    var payloadType: PayloadType
    ghost var exits: seq<Exit>

    ghost predicate Sound()
      reads this, reasm, reasm.packet, delayed
    {
      reasm.Valid() && delayed.Valid() && delayed.maxPackets == DelayedMax && |exits| == |delayed.left| &&
      (tcp && delayed.q != [] ==> reasm.start == delayed.q[0].sn) &&
      reasm.size <= MaxReasm && (!tcp && !reasm.IsEmpty() ==> reasm.start == 0) && forall p :: p in delayed.q ==> p.sn < SeqMod
    }

    /** Between two packets of the connection: packets wait exactly during a session, at most 64, and a TCP
        session starts at the first of them. */
    ghost predicate Valid()
      reads this, reasm, reasm.packet, delayed
    {
      Sound() && (delayed.q != [] <==> !reasm.IsEmpty())
    }

    constructor (tcp: bool)
      ensures Valid() && this.tcp == tcp && delayed.entered == [] && fresh(reasm) && fresh(delayed) && fresh(reasm.packet)
    {
      this.tcp := tcp;
      reasm := new Reassemble();
      delayed := new RawPacketQueue(DelayedMax);
      payloadType, exits := Unknown, [];
    }

    /** The loops of `rawsend_queue`, which sends the packets, and of `rawpacket_queue_destroy`, which does not. */
    method Flush(ghost e: Exit)
      requires delayed.Valid() && |exits| == |delayed.left|
      modifies delayed, this`exits
      ensures delayed.Valid() && delayed.q == [] && delayed.entered == old(delayed.entered)
      ensures exits == old(exits) + seq(|old(delayed.q)|, _ => e) && |exits| == |delayed.left|
    {
      ghost var q := delayed.q;
      while delayed.q != []
        invariant delayed.Valid() && delayed.entered == old(delayed.entered) && |delayed.q| <= |q|
        invariant exits == old(exits) + seq(|q| - |delayed.q|, _ => e) && |exits| == |delayed.left|
        decreases |delayed.q|
      {
        var r := delayed.Dequeue();
        exits := exits + [e];
      }
    }

    /** `send_delayed`: sends the queue as it is. */
    method SendDelayed()
      requires delayed.Valid() && |exits| == |delayed.left|
      modifies delayed, this`exits
      ensures delayed.Valid() && delayed.q == [] && delayed.entered == old(delayed.entered)
      ensures exits == old(exits) + Sents(|old(delayed.q)|) && |exits| == |delayed.left|
    {
      Flush(Sent);
      assert exits == old(exits) + Sents(|old(delayed.q)|);
    }

    /** `ConntrackClearTrack`, when the track is freed or starts again. */
    method Destroy()
      requires Valid()
      modifies this, reasm, delayed
      ensures Valid() && delayed.q == [] && delayed.entered == old(delayed.entered) && fresh(reasm.packet)
      ensures exits == old(exits) + seq(|old(delayed.q)|, _ => Destroyed)
    {
      reasm.Clear();
      payloadType := Unknown;
      Flush(Destroyed);
    }

    /** One replayed packet, through the play function of its protocol. */
    method ReplayOne(rp: Packet, v: Probe, replays: nat -> Probe, count: nat) returns (verdict: Verdict, ghost seen: seq<byte>)
      requires reasm.Valid() && rp.sn < SeqMod && count > 0
      modifies this, reasm, reasm.packet, delayed
      ensures unchanged(this, reasm, delayed) && reasm.packet[..] == old(reasm.packet[..])
      ensures verdict == FinalVerdict(false, tcp, v) && seen == Seen(tcp, rp, v, Overlay(reasm.log))
      decreases 2
    {
      hide Replays, Overlay, Gapless, MaxEnd, View;
      ghost var how, whole;
      if tcp {
        verdict, how, whole, seen := TcpPacket(rp, v, replays, count);
      } else {
        verdict, how, whole, seen := UdpPacket(rp, v, replays, count);
      }
    }

    /** `replay_queue`: each packet goes through the play function again, which gets no track to queue it on. The
        pieces are numbered from 0, all with the same count; for TCP the offset is the place in the stream. */
    method ReplayQueue(replays: nat -> Probe)
      requires delayed.Valid() && |exits| == |delayed.left| && reasm.Valid() && forall p :: p in delayed.q ==> p.sn < SeqMod
      modifies this, reasm, reasm.packet, delayed
      ensures delayed.Valid() && delayed.q == [] && delayed.entered == old(delayed.entered) && |exits| == |delayed.left|
      ensures exits == old(exits) + Replays(tcp, old(delayed.q), Overlay(reasm.log), replays)
      ensures unchanged(reasm) && unchanged(this`payloadType) && reasm.packet[..] == old(reasm.packet[..])
      ensures tcp ==> forall i: nat, o: nat :: PlacedAt(old(delayed.q), i, o) ==> exits[|old(exits)| + i].offset == o
      decreases 3
    {
      hide Behind, Replays, Overlay, Gapless, MaxEnd, ReplayOffset, FinalVerdict, Seen, PlacedAt;
      ghost var q, whole, exits0 := delayed.q, Overlay(reasm.log), exits;
      ghost var all := Replays(tcp, q, whole, replays);
      ReplaysLength(tcp, q, whole, replays);
      var i, offset, seq0, count := 0, 0, 0, |delayed.q|;
      while i < count
        invariant i <= count == |q| == |all| && delayed.Valid() && delayed.entered == old(delayed.entered) && delayed.q == q[i..]
        invariant exits == exits0 + all[..i] && |exits| == |delayed.left|
        invariant unchanged(reasm) && unchanged(this`payloadType) && reasm.packet[..] == old(reasm.packet[..])
        invariant (i > 0 ==> tcp ==> seq0 == q[0].sn) && (!tcp ==> offset == PayloadBefore(q, i)) && (i == 0 ==> offset == 0)
      {
        var r := delayed.Dequeue();
        var rp := r.value;
        assert rp == q[i] && rp in q;
        if tcp {
          if i > 0 {
            offset := Behind(rp.sn, seq0);
          } else {
            seq0 := rp.sn;
            SameBehind(seq0);
          }
        }
        OffsetIs(tcp, q, i, offset);
        ghost var seen;
        var verdict;
        verdict, seen := ReplayOne(rp, replays(i), replays, count);
        ghost var e := Replayed(i, count, offset, seen, verdict);
        ReplaysAt(tcp, q, whole, replays, i);
        assert all[i] == e && all[..i + 1] == all[..i] + [e];
        exits := exits + [e];
        if !tcp {
          offset := offset + |rp.payload|;
        }
        i := i + 1;
      }
      assert all[..i] == all;
      if tcp {
        ReplayPlaces(q, whole, replays);
        assert forall i: nat :: i < |q| ==> exits[|exits0| + i] == all[i];
      }
    }

    /** `reasm_client_stop`, for a cancelled and for a finished session. */
    method Stop()
      requires Sound()
      modifies this, reasm, delayed
      ensures Valid() && delayed.q == [] && delayed.entered == old(delayed.entered)
      ensures exits == old(exits) + Sents(|old(delayed.q)|)
      ensures fresh(reasm.packet) || reasm.packet == old(reasm.packet)
    {
      if !reasm.IsEmpty() {
        reasm.Clear();
        payloadType := Unknown;
      }
      SendDelayed();
    }

    /** `reasm_client_feed`. */
    method ClientFeed(sn: nat, data: seq<byte>)
      requires Valid() && sn < SeqMod
      modifies this, reasm, reasm.packet, delayed
      ensures Valid() && delayed.entered == old(delayed.entered) && (fresh(reasm.packet) || reasm.packet == old(reasm.packet))
      ensures payloadType == old(payloadType)
      ensures var failed := old(!reasm.IsEmpty() && !Feedable(reasm.seqNext, reasm.sizePresent, reasm.size, sn, |data|));
              if failed then delayed.q == [] && exits == old(exits) + Sents(|old(delayed.q)|)
              else delayed.q == old(delayed.q) && exits == old(exits)
      ensures old(!reasm.IsEmpty() && Feedable(reasm.seqNext, reasm.sizePresent, reasm.size, sn, |data|)) ==>
                reasm.log == old(reasm.log) + [Trim(old(Offset(reasm.seqNext, reasm.sizePresent, sn)), data)] &&
                reasm.size == old(reasm.size)
    {
      if !reasm.IsEmpty() {
        var ok := reasm.Feed(sn, data);
        if !ok {
          reasm.Clear();
          SendDelayed();
        }
      }
    }

    /** `reasm_client_start`, with the server window known to be `window`. */
    method ClientStart(pl: PayloadType, sz: nat, data: seq<byte>, sn: nat, window: nat) returns (ok: bool)
      requires Valid() && reasm.IsEmpty() && sn < SeqMod && (tcp || sn == 0)
      modifies this, reasm, reasm.packet
      ensures Sound() && exits == old(exits) && (fresh(reasm.packet) || reasm.packet == old(reasm.packet))
      ensures ok == ((tcp ==> sz <= window) && sz <= MaxReasm)
      ensures ok ==> reasm.start == sn && reasm.size == sz
      ensures ok && |data| <= sz ==> Overlay(reasm.log) == data && reasm.log == [Piece(0, data)]
      ensures ok ==> payloadType == pl
      ensures !ok ==> reasm.IsEmpty()
    {
      hide Overlay, ByteAt, MaxEnd, Kept, Gapless, Trim, Feedable, Offset, Behind;
      if tcp && window < sz {
        return false;
      }
      payloadType := pl;
      reasm.Clear();
      if sz > MaxReasm {
        return false;
      }
      reasm.Init(sz, sn);
      StartFed(sn, sz, data);
      var _ := reasm.Feed(sn, data);
      ok := true;
    }

    /** A packet is put on the queue during a session, and the queue is replayed when the session is complete. */
    method Delay(p: Packet, complete: bool, v: Probe, replays: nat -> Probe) returns (ok: bool, ghost how: Outcome)
      requires Sound() && !reasm.IsEmpty() && (tcp && delayed.q == [] ==> reasm.start == p.sn) && p.sn < SeqMod
      modifies this, reasm, reasm.packet, delayed
      ensures Valid() && (fresh(reasm.packet) || reasm.packet == old(reasm.packet))
      ensures delayed.entered == if ok then old(delayed.entered) + [p] else old(delayed.entered)
      ensures Happened(how, tcp, p, old(Overlay(reasm.log)), replays, old(delayed.q), old(exits), delayed.q, exits)
      ensures ok == (|old(delayed.q)| < DelayedMax && v.mem) && how == if !ok then Cancelled else if complete then Completed else Queued
      ensures how == Queued ==> unchanged(reasm) && payloadType == old(payloadType)
      ensures how == Completed ==> reasm.IsEmpty()
      decreases 4
    {
      hide Replays, Sents;
      ok := delayed.Queue(p, v.mem);
      if !ok {
        Stop();
        return false, Cancelled;
      }
      how := Queued;
      if complete {
        ReplayQueue(replays);
        Stop();
        NoSents(exits);
        how := Completed;
      }
    }

    /** A new session of `v.record` bytes can be started. */
    predicate Startable(v: Probe) {
      !v.full && !v.retrans && v.record <= v.window && 0 < v.record <= MaxReasm
    }

    /** The packet continues the TCP session or starts one. */
    ghost predicate JoinsTcp(p: Packet, v: Probe)
      reads this, reasm
    {
      v.known && v.tracked && !v.reverse && !v.syn && p.payload != [] && !v.disabled &&
      if reasm.IsEmpty() then v.hello && Startable(v)
      else payloadType == TlsHello && Feedable(reasm.seqNext, reasm.sizePresent, reasm.size, p.sn, |p.payload|)
    }

    /** The packet continues the QUIC session or starts one. */
    ghost predicate JoinsQuic(p: Packet, v: Probe)
      reads this, reasm
    {
      v.known && v.tracked && !v.reverse && v.quic && p.payload != [] && v.clean.Some? && Collects(v, v.clean.value)
    }

    /** What a session has put together with these bytes defragments; without a session they start one if they lack
        a part of a hello. */
    ghost predicate Collects(v: Probe, clean: seq<byte>)
      reads this, reasm
    {
      !v.disabled &&
      if reasm.IsEmpty() then Lacks(View(clean)) else reasm.HasSpace(|clean|) && View(Overlay(reasm.log) + clean).defragged
    }

    /** The part for a client hello on a track: starts a session if the hello is not complete, and delays the packet
        if there is a session. */
    method DelayHello(p: Packet, v: Probe, replays: nat -> Probe) returns (queued: bool, ghost how: Outcome, ghost whole: seq<byte>)
      requires Valid() && tcp && p.sn < SeqMod
      modifies this, reasm, reasm.packet, delayed
      ensures Valid() && (fresh(reasm.packet) || reasm.packet == old(reasm.packet))
      ensures how in {Untouched, Cancelled, Queued, Completed} && queued == (how in {Queued, Completed})
      ensures queued <==> (old(!reasm.IsEmpty()) || Startable(v)) && |old(delayed.q)| < DelayedMax && v.mem
      ensures Happened(how, tcp, p, whole, replays, old(delayed.q), old(exits), delayed.q, exits)
      ensures delayed.entered == old(delayed.entered) + if queued then [p] else []
      ensures queued && old(!reasm.IsEmpty()) ==>
                whole == old(Overlay(reasm.log)) && (how == Completed <==> |whole| == old(reasm.size))
      ensures queued && old(reasm.IsEmpty()) && |p.payload| <= v.record ==>
                whole == p.payload && (how == Completed <==> |whole| == v.record)
      ensures how == Queued && old(!reasm.IsEmpty()) ==> unchanged(reasm) && payloadType == old(payloadType)
      ensures how == Queued && old(reasm.IsEmpty()) && |p.payload| <= v.record ==>
                reasm.log == [Piece(0, p.payload)] && reasm.size == v.record && payloadType == TlsHello
      ensures how == Completed ==> reasm.IsEmpty()
      decreases 5
    {
      hide Replays, Sents, Trim, Behind;
      queued, how, whole := false, Untouched, [];
      var started := true;
      if !v.full && reasm.IsEmpty() && !v.retrans {
        started := ClientStart(TlsHello, v.record, p.payload, p.sn, v.window);
      }
      if started && !reasm.IsEmpty() {
        var complete := reasm.IsFull();
        whole := Overlay(reasm.log);
        queued, how := Delay(p, complete, v, replays);
      }
    }

    /** The part for a payload of the client on a track: a session takes it or fails, a hello is delayed, and anything
        else ends the session. */
    method CollectTcp(p: Packet, v: Probe, replays: nat -> Probe) returns (queued: bool, ghost how: Outcome, ghost whole: seq<byte>)
      requires Valid() && tcp && p.sn < SeqMod && v.known && v.tracked && !v.reverse && !v.syn && p.payload != []
      modifies this, reasm, reasm.packet, delayed
      ensures Valid() && (fresh(reasm.packet) || reasm.packet == old(reasm.packet))
      ensures queued == (how !in {Untouched, Cancelled})
      ensures Happened(how, tcp, p, whole, replays, old(delayed.q), old(exits), delayed.q, exits)
      ensures delayed.entered == old(delayed.entered) + if queued then [p] else []
      ensures how in {Queued, Completed} <==> old(JoinsTcp(p, v)) && |old(delayed.q)| < DelayedMax && v.mem
      ensures how in {Restarted, RestartedCompleted} ==>
                old(!reasm.IsEmpty() && !Feedable(reasm.seqNext, reasm.sizePresent, reasm.size, p.sn, |p.payload|)) && Startable(v)
      ensures how in {Queued, Completed} && old(!reasm.IsEmpty()) ==>
                whole == Overlay(old(reasm.log) + [Trim(old(Offset(reasm.seqNext, reasm.sizePresent, p.sn)), p.payload)]) &&
                (how == Completed <==> |whole| == old(reasm.size))
      ensures how in {Queued, Completed} && old(reasm.IsEmpty()) && |p.payload| <= v.record ==>
                whole == p.payload && (how == Completed <==> |whole| == v.record)
      ensures how == Queued && old(!reasm.IsEmpty()) ==>
                reasm.log == old(reasm.log) + [Trim(old(Offset(reasm.seqNext, reasm.sizePresent, p.sn)), p.payload)] &&
                reasm.size == old(reasm.size) && payloadType == TlsHello
      ensures how == Queued && old(reasm.IsEmpty()) && |p.payload| <= v.record ==>
                reasm.log == [Piece(0, p.payload)] && reasm.size == v.record && payloadType == TlsHello
      ensures how == Completed ==> reasm.IsEmpty()
      decreases 6
    {
      hide Replays, Sents, Trim, Behind, Overlay, Gapless, MaxEnd, Feedable, Offset, Kept, ByteAt;
      queued, whole := false, [];
      NoSents(exits);
      ghost var q, was := delayed.q, exits;
      ClientFeed(p.sn, p.payload);
      ghost var q1, was1 := delayed.q, exits;
      ghost var failed := was1 != was || q1 != q;
      how := if failed then Cancelled else Untouched;
      if if reasm.IsEmpty() then v.hello else payloadType == TlsHello {
        if !v.disabled {
          ghost var h;
          queued, h, whole := DelayHello(p, v, replays);
          Combine(failed, h, p, whole, replays, q, was, q1, was1, delayed.q, exits);
          how := Then(failed, h);
        }
      } else {
        Stop();
        Combine(failed, Cancelled, p, whole, replays, q, was, q1, was1, delayed.q, exits);
        how := Cancelled;
      }
    }

    /** `dpi_desync_tcp_packet_play`, for one of `count` replayed pieces if `count` is not 0. Without a track, and so
        in every replay, nothing is queued and no session changes. Otherwise a packet is queued at most once, and
        then dropped itself, and a session that goes on is replayed exactly when all bytes it was started for are
        there; `whole` is what the replay looks at then. */
    method TcpPacket(p: Packet, v: Probe, replays: nat -> Probe, count: nat)
      returns (verdict: Verdict, ghost how: Outcome, ghost whole: seq<byte>, ghost seen: seq<byte>)
      requires tcp && p.sn < SeqMod && reasm.Valid() && (count == 0 ==> Valid())
      modifies this, reasm, reasm.packet, delayed
      ensures count > 0 || !v.tracked ==>
                how == Untouched && unchanged(this, reasm, delayed) && reasm.packet[..] == old(reasm.packet[..]) &&
                verdict == FinalVerdict(false, tcp, v)
      ensures count > 0 ==> seen == Seen(tcp, p, v, Overlay(reasm.log))
      ensures (count == 0 ==> Valid()) && (fresh(reasm.packet) || reasm.packet == old(reasm.packet))
      ensures count == 0 && v.tracked ==> verdict == if how in {Untouched, Cancelled} then FinalVerdict(true, tcp, v) else Drop
      ensures Happened(how, tcp, p, whole, replays, old(delayed.q), old(exits), delayed.q, exits)
      ensures delayed.entered == old(delayed.entered) + if how in {Untouched, Cancelled} then [] else [p]
      ensures how in {Queued, Completed} <==>
                count == 0 && v.known && v.tracked && !v.reverse && !v.syn && p.payload != [] && !v.disabled &&
                |old(delayed.q)| < 64 && v.mem &&
                if old(reasm.IsEmpty()) then v.hello && !v.full && !v.retrans && v.record <= v.window && 0 < v.record <= 16384
                else old(payloadType == TlsHello && Feedable(reasm.seqNext, reasm.sizePresent, reasm.size, p.sn, |p.payload|))
      ensures how in {Restarted, RestartedCompleted} ==>
                old(!reasm.IsEmpty() && !Feedable(reasm.seqNext, reasm.sizePresent, reasm.size, p.sn, |p.payload|)) && Startable(v)
      ensures how in {Queued, Completed} && old(!reasm.IsEmpty()) ==>
                whole == Overlay(old(reasm.log) + [Trim(old(Offset(reasm.seqNext, reasm.sizePresent, p.sn)), p.payload)]) &&
                (how == Completed <==> |whole| == old(reasm.size))
      ensures how in {Queued, Completed} && old(reasm.IsEmpty()) && |p.payload| <= v.record ==>
                whole == p.payload && (how == Completed <==> |whole| == v.record)
      ensures how == Queued && old(!reasm.IsEmpty()) ==>
                reasm.log == old(reasm.log) + [Trim(old(Offset(reasm.seqNext, reasm.sizePresent, p.sn)), p.payload)] &&
                reasm.size == old(reasm.size) && payloadType == TlsHello
      ensures how == Queued && old(reasm.IsEmpty()) && |p.payload| <= v.record ==>
                reasm.log == [Piece(0, p.payload)] && reasm.size == v.record && payloadType == TlsHello
      ensures how == Completed ==> reasm.IsEmpty()
      decreases if count == 0 then 7 else 0
    {
      hide Replays, Sents, Trim, Behind, Overlay, Gapless, MaxEnd, Feedable, Offset, PostnatFix;
      how, whole, seen := Untouched, [], p.payload;
      if !v.known {
        return Pass, how, whole, seen;
      }
      var ctrack := count == 0 && v.tracked;
      if !v.reverse && !v.syn && p.payload != [] {
        if count > 0 {
          seen := Overlay(reasm.log);
        }
        if ctrack {
          var queued;
          queued, how, whole := CollectTcp(p, v, replays);
          if queued {
            return Drop, how, whole, seen;
          }
        }
      }
      verdict, how := Rediscover(ctrack, p, v, how, whole, replays, old(delayed.q), old(exits));
    }

    /** The end of the play function for TCP; without a profile the session ends. */
    method Rediscover(ctrack: bool, p: Packet, v: Probe, ghost how0: Outcome, ghost whole: seq<byte>, ghost replays: nat -> Probe,
                      ghost q: seq<Packet>, ghost was: seq<Exit>)
      returns (verdict: Verdict, ghost how: Outcome)
      requires tcp && v.known && (ctrack ==> Valid()) && how0 in {Untouched, Cancelled}
      requires Happened(how0, tcp, p, whole, replays, q, was, delayed.q, exits)
      modifies this, reasm, delayed
      ensures (fresh(reasm.packet) || reasm.packet == old(reasm.packet)) && (ctrack ==> Valid())
      ensures !ctrack ==> unchanged(this, reasm, delayed) && how == how0
      ensures how in {Untouched, Cancelled} && verdict == FinalVerdict(ctrack, tcp, v) && delayed.entered == old(delayed.entered)
      ensures Happened(how, tcp, p, whole, replays, q, was, delayed.q, exits)
    {
      hide Sents;
      how := how0;
      if !v.rediscovered && ctrack {
        ghost var q1, was1 := delayed.q, exits;
        Stop();
        CancelAgain(how, tcp, p, whole, replays, q, was, q1, was1, delayed.q, exits);
        how := Cancelled;
      }
      verdict := if v.rediscovered then v.verdict else Pass;
      if !v.reverseFixed && verdict == Drop {
        verdict := PostnatFix(ctrack, true, v);
      }
    }

    /** The part for a defragmented QUIC initial on a track: `w` is what all the bytes show, of which `clean` came
        with this packet. */
    method DelayQuic(p: Packet, v: Probe, w: QuicView, clean: seq<byte>, replays: nat -> Probe)
      returns (queued: bool, ghost how: Outcome, ghost whole: seq<byte>)
      requires Valid() && !tcp && p.sn < SeqMod
      modifies this, reasm, reasm.packet, delayed
      ensures Valid() && (fresh(reasm.packet) || reasm.packet == old(reasm.packet))
      ensures how in {Untouched, Cancelled, Queued, Completed} && queued == (how in {Queued, Completed})
      ensures queued <==> (old(!reasm.IsEmpty()) || !w.full || (w.hello.Some? && !w.complete)) && |old(delayed.q)| < DelayedMax && v.mem
      ensures queued ==> (how == Completed <==> w.complete)
      ensures Happened(how, tcp, p, whole, replays, old(delayed.q), old(exits), delayed.q, exits)
      ensures delayed.entered == old(delayed.entered) + if queued then [p] else []
      ensures queued && old(!reasm.IsEmpty()) ==> whole == old(Overlay(reasm.log))
      ensures queued && old(reasm.IsEmpty()) && |clean| <= MaxReasm ==> whole == clean
      ensures how == Queued && old(!reasm.IsEmpty()) ==> unchanged(reasm)
      ensures how == Queued && old(reasm.IsEmpty()) && |clean| <= MaxReasm ==> Overlay(reasm.log) == clean && reasm.size == MaxReasm
      ensures how == Completed ==> reasm.IsEmpty()
      decreases 5
    {
      hide Replays, Sents, Behind, Overlay, View;
      queued, how, whole := false, Untouched, [];
      var started := true;
      if reasm.IsEmpty() && (!w.full || (w.hello.Some? && !w.complete)) {
        started := ClientStart(QuicInitial, MaxReasm, clean, 0, 0);
      }
      if started && !reasm.IsEmpty() {
        whole := Overlay(reasm.log);
        queued, how := Delay(p, w.complete, v, replays);
      }
    }

    /** The bytes to look at: those of the packet, or during a session all bytes, after these have been fed. */
    method PoolQuic(clean: seq<byte>) returns (all: seq<byte>)
      requires Valid() && !tcp && (reasm.IsEmpty() || reasm.HasSpace(|clean|))
      modifies this, reasm, reasm.packet, delayed
      ensures Valid() && (fresh(reasm.packet) || reasm.packet == old(reasm.packet)) && reasm.size == old(reasm.size)
      ensures delayed.entered == old(delayed.entered) && delayed.q == old(delayed.q) && exits == old(exits)
      ensures if reasm.IsEmpty() then all == clean else all == Overlay(reasm.log) == old(Overlay(reasm.log)) + clean
    {
      hide Behind, Overlay, Gapless, MaxEnd;
      if reasm.IsEmpty() {
        return clean;
      }
      InOrder(reasm.start, reasm.sizePresent, reasm.seqNext);
      Appended(reasm.log, clean);
      ClientFeed(reasm.sizePresent, clean);
      all := reasm.packet[..reasm.sizePresent];
    }

    /** The part for a decrypted QUIC initial: without a track the bytes are only looked at. */
    method CollectQuic(ctrack: bool, p: Packet, v: Probe, clean: seq<byte>, replays: nat -> Probe)
      returns (queued: bool, ghost how: Outcome, ghost whole: seq<byte>, ghost seen: seq<byte>)
      requires reasm.Valid() && !tcp && p.sn < SeqMod && (ctrack ==> Valid())
      modifies this, reasm, reasm.packet, delayed
      ensures (ctrack ==> Valid()) && (fresh(reasm.packet) || reasm.packet == old(reasm.packet))
      ensures !ctrack ==> unchanged(this, reasm, delayed) && reasm.packet[..] == old(reasm.packet[..]) && how == Untouched && !queued && seen == HelloBytes(View(clean))
      ensures how in {Untouched, Cancelled, Queued, Completed} && queued == (how in {Queued, Completed})
      ensures queued <==> ctrack && old(Collects(v, clean)) && |old(delayed.q)| < DelayedMax && v.mem
      ensures queued && |clean| <= MaxReasm ==>
                whole == old(Overlay(reasm.log)) + clean && (how == Completed <==> View(whole).complete)
      ensures how == Queued && |clean| <= MaxReasm ==>
                Overlay(reasm.log) == whole && reasm.size == if old(reasm.IsEmpty()) then MaxReasm else old(reasm.size)
      ensures how == Completed ==> reasm.IsEmpty()
      ensures Happened(how, tcp, p, whole, replays, old(delayed.q), old(exits), delayed.q, exits)
      ensures delayed.entered == old(delayed.entered) + if queued then [p] else []
      decreases if ctrack then 6 else 0
    {
      hide Replays, Sents, Behind, Overlay, Gapless, MaxEnd, View;
      queued, how, whole, seen := false, Untouched, [], [];
      if reasm.IsEmpty() {
        NothingThere(reasm.log);
        assert [] + clean == clean;
      }
      var track := ctrack && !v.disabled;
      if track && !reasm.IsEmpty() && !reasm.HasSpace(|clean|) {
        return;
      }
      var all := clean;
      if track {
        all := PoolQuic(clean);
      }
      var w := Look(all);
      seen := HelloBytes(w);
      if w.defragged && track {
        queued, how, whole := DelayQuic(p, v, w, clean, replays);
      }
    }

    /** `dpi_desync_udp_packet_play`, for the decrypted bytes `v.clean` or in a replay for those that have been put
        together. Without a track nothing is queued and no session changes; otherwise a session that is fed never
        fails, whatever is not queued ends the session, and a packet that is queued is dropped, unless it is the
        first of its connection and must be seen by the system. A session is replayed exactly when its bytes, with
        those of this packet, show a complete client hello. */
    method UdpPacket(p: Packet, v: Probe, replays: nat -> Probe, count: nat)
      returns (verdict: Verdict, ghost how: Outcome, ghost whole: seq<byte>, ghost seen: seq<byte>)
      requires !tcp && p.sn < SeqMod && reasm.Valid() && (count == 0 ==> Valid())
      modifies this, reasm, reasm.packet, delayed
      ensures count > 0 || !v.tracked ==>
                how == Untouched && unchanged(this, reasm, delayed) && reasm.packet[..] == old(reasm.packet[..]) &&
                verdict == FinalVerdict(false, tcp, v)
      ensures count > 0 ==> seen == Seen(tcp, p, v, Overlay(reasm.log))
      ensures (count == 0 ==> Valid()) && (fresh(reasm.packet) || reasm.packet == old(reasm.packet))
      ensures count == 0 && v.tracked ==>
                verdict == (if how in {Untouched, Cancelled} then FinalVerdict(true, tcp, v) else PostnatFix(true, tcp, v)) &&
                how in {Untouched, Queued, Completed, Cancelled} && (how == Untouched <==> !v.known)
      ensures Happened(how, tcp, p, whole, replays, old(delayed.q), old(exits), delayed.q, exits)
      ensures delayed.entered == old(delayed.entered) + if how in {Untouched, Cancelled} then [] else [p]
      ensures how in {Queued, Completed} <==>
                count == 0 && v.known && v.tracked && !v.reverse && v.quic && p.payload != [] && v.clean.Some? && !v.disabled &&
                |old(delayed.q)| < 64 && v.mem &&
                if old(reasm.IsEmpty()) then Lacks(View(v.clean.value))
                else old(reasm.sizePresent) + |v.clean.value| <= old(reasm.size) &&
                     View(old(Overlay(reasm.log)) + v.clean.value).defragged
      ensures how in {Queued, Completed} && |v.clean.value| <= MaxReasm ==>
                whole == old(Overlay(reasm.log)) + v.clean.value &&
                (how == Completed <==> View(whole).complete)
      ensures how == Queued && v.clean.Some? && |v.clean.value| <= MaxReasm ==>
                Overlay(reasm.log) == whole && reasm.size == if old(reasm.IsEmpty()) then MaxReasm else old(reasm.size)
      ensures how == Completed ==> reasm.IsEmpty()
      decreases if count == 0 then 7 else 1
    {
      hide Replays, Sents, Behind, Overlay, Gapless, MaxEnd, PostnatFix, View;
      how, whole, seen := Untouched, [], [];
      if !v.known {
        return Pass, how, whole, seen;
      }
      var ctrack := count == 0 && v.tracked;
      if p.payload != [] && v.quic && !v.reverse {
        var clean := if count > 0 then Some(reasm.packet[..reasm.sizePresent]) else v.clean;
        if clean.Some? {
          var queued;
          queued, how, whole, seen := CollectQuic(ctrack, p, v, clean.value, replays);
          if queued {
            return PostnatFix(true, false, v), how, whole, seen;
          }
        }
      }
      if ctrack {
        ghost var q1, was1 := delayed.q, exits;
        Stop();
        CancelAgain(how, tcp, p, whole, replays, old(delayed.q), old(exits), q1, was1, delayed.q, exits);
        how := Cancelled;
      }
      verdict := if v.rediscovered then v.verdict else Pass;
      if !v.reverseFixed && verdict == Drop {
        verdict := PostnatFix(ctrack, false, v);
      }
    }
  }

  /** Once the packets of a session show a complete client hello, each of them is replayed with just this hello. */
  lemma HelloReplayed(p: Packet, v: Probe, s: seq<byte>, pkts: seq<seq<Frame>>)
    requires forall fs :: fs in pkts ==> ValidFrames(fs)
    requires IsClientHello(s) && HandshakeLen(s) == |s|
    requires forall x :: x in Pieces(Frames(pkts)) ==> x.End() <= |s| && x.data == s[x.off..x.End()]
    requires View(Stream(pkts)).complete && v.known && !v.reverse && v.quic && p.payload != []
    ensures Seen(false, p, v, Stream(pkts)) == s
  {
    hide View, IsClientHello, HandshakeLen, Frames, Stream, Pieces;
    HelloComplete(s, pkts);
  }

  lemma ReplaysLength(tcp: bool, q: seq<Packet>, whole: seq<byte>, replays: nat -> Probe)
    ensures |Replays(tcp, q, whole, replays)| == |q|
  {
  }

  lemma ReplaysAt(tcp: bool, q: seq<Packet>, whole: seq<byte>, replays: nat -> Probe, i: nat)
    requires i < |q|
    ensures |Replays(tcp, q, whole, replays)| == |q|
    ensures Replays(tcp, q, whole, replays)[i] ==
              Replayed(i, |q|, ReplayOffset(tcp, q, i), Seen(tcp, q[i], replays(i), whole), FinalVerdict(false, tcp, replays(i)))
  {
  }

  lemma OffsetIs(tcp: bool, q: seq<Packet>, i: nat, offset: nat)
    requires i < |q| && offset == if tcp then Behind(q[i].sn, q[0].sn) else PayloadBefore(q, i)
    ensures ReplayOffset(tcp, q, i) == offset
  {
  }

  /** The offsets of a TCP replay are the places of its packets. */
  lemma ReplayPlaces(q: seq<Packet>, whole: seq<byte>, replays: nat -> Probe)
    requires forall p :: p in q ==> p.sn < SeqMod
    ensures |Replays(true, q, whole, replays)| == |q|
    ensures forall i: nat, o: nat :: PlacedAt(q, i, o) ==> Replays(true, q, whole, replays)[i].offset == o
  {
    hide ReplayOffset, Wrap;
    forall i: nat, o: nat | PlacedAt(q, i, o)
      ensures ReplayOffset(true, q, i) == o
    {
      assert q[0] in q;
      ReplayPlace(q[0].sn, q, i, o);
    }
  }

  lemma SameBehind(a: nat)
    ensures Behind(a, a) == 0
  {
  }

  lemma InOrder(start: nat, present: nat, now: nat)
    requires start == 0 && present < SeqMod && now == Wrap(start + present)
    ensures Behind(now, present) == 0
  {
  }

  lemma NothingThere(log: seq<Piece>)
    requires MaxEnd(log) == 0
    ensures Overlay(log) == []
  {
  }

  /** The first packet of a session is fed at its start. */
  lemma StartFed(sn: nat, sz: nat, data: seq<byte>)
    ensures |data| <= sz ==> Feedable(sn, 0, sz, sn, |data|)
    ensures [] + [Trim(Offset(sn, 0, sn), data)] == [Piece(0, data)] && Overlay([Piece(0, data)]) == data
  {
    hide Overlay, Behind, MaxEnd;
    SameBehind(sn);
    MaxEndNone();
    NothingThere([]);
    Appended([], data);
    assert [] + data == data;
  }

  /** A piece at the end is appended. */
  lemma Appended(log: seq<Piece>, data: seq<byte>)
    ensures Overlay(log + [Piece(MaxEnd(log), data)]) == Overlay(log) + data
  {
    hide ByteAt, MaxEnd, Kept;
    var p := Piece(MaxEnd(log), data);
    Snoc(log, p);
  }

  lemma NoSents(exits: seq<Exit>)
    ensures exits + Sents(0) == exits
  {
  }

  /** Two steps of one packet: a failed feed, then what follows. */
  ghost function Then(failed: bool, h: Outcome): Outcome {
    if !failed then h else if h == Queued then Restarted else if h == Completed then RestartedCompleted else Cancelled
  }

  lemma Combine(failed: bool, h: Outcome, p: Packet, whole: seq<byte>, replays: nat -> Probe, q: seq<Packet>, was: seq<Exit>,
                q1: seq<Packet>, was1: seq<Exit>, q2: seq<Packet>, exits: seq<Exit>)
    requires h in {Untouched, Queued, Completed, Cancelled} && Happened(h, true, p, whole, replays, q1, was1, q2, exits)
    requires if failed then q1 == [] && was1 == was + Sents(|q|) else q1 == q && was1 == was
    ensures Happened(Then(failed, h), true, p, whole, replays, q, was, q2, exits)
  {
    NoSents(was1);
    assert [] + [p] == [p];
  }

  lemma CancelAgain(how: Outcome, tcp: bool, p: Packet, whole: seq<byte>, replays: nat -> Probe, q: seq<Packet>, was: seq<Exit>,
                    q1: seq<Packet>, was1: seq<Exit>, q2: seq<Packet>, exits: seq<Exit>)
    requires how in {Untouched, Cancelled} && q2 == [] && exits == was1 + Sents(|q1|)
    requires Happened(how, tcp, p, whole, replays, q, was, q1, was1)
    ensures Happened(Cancelled, tcp, p, whole, replays, q, was, q2, exits)
  {
    NoSents(was1);
  }
}
