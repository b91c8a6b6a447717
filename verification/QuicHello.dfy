/** Client hellos in QUIC initial packets: `IsQUICCryptoHello` of `nfq2/protocol.c`, and what the play function of
    `nfq2/desync.c` makes of the decrypted bytes it has. */
module QuicHello {
  import opened Bytes
  import opened Wrappers
  import opened QuicFrames
  import opened QuicDefrag
  import TlsHello

  /** `UDP_MAX_REASM`, and the limit for TCP. */
  const MaxReasm: nat := 16384

  /** `IsTLSHandshakeClientHello` for a hello that may be incomplete. */
  predicate IsClientHello(s: seq<byte>) {
    |s| >= 6 && s[0] == 1 && s[4] == 3 && s[5] <= 3
  }

  /** `TLSHandshakeLen`. */
  function HandshakeLen(s: seq<byte>): nat
    requires |s| >= 4
  {
    TlsHello.U24(s, 1) + 4
  }

  /** Records of TLS hold the same: a hello in a complete record is accepted exactly if the record announces what it
      holds and the handshake in it is a complete client hello. */
  lemma RecordHello(s: seq<byte>)
    ensures TlsHello.IsHello(s, false) <==>
              |s| >= 11 && s[0] == 0x16 && s[1] == 3 && s[2] <= 3 && 256 * (s[3] as int) + s[4] <= |s| - 5 &&
              IsClientHello(s[5..]) && HandshakeLen(s[5..]) <= |s[5..]|
  {
  }

  /** `IsQUICCryptoHello`: place and length of a hello in a CRYPTO frame at offset 0. */
  function CryptoHello(s: seq<byte>): (r: Option<(nat, nat)>)
    ensures r.Some? ==> r.value.0 + r.value.1 <= |s|
  {
    if |s| < 3 || s[0] != 6 || 1 + VarintSize(s[1]) >= |s| then None
    else
      var a := 1 + VarintSize(s[1]);
      if VarintValue(s[1..]) != 0 || a + VarintSize(s[a]) >= |s| then None
      else
        var b, n := a + VarintSize(s[a]), VarintValue(s[a..]);
        if b + n > |s| || !IsClientHello(s[b..b + n]) then None else Some((b, n))
  }

  /** In what defragmentation leaves, the hello is all that was put together. */
  lemma WholeHello(s: seq<byte>)
    requires |s| < VarintLimit(3) && Whole(s).Valid()
    ensures CryptoHello(Whole(s).Encode()) == if IsClientHello(s) then Some((10, |s|)) else None
    ensures |Whole(s).Encode()| == 10 + |s| && Whole(s).Encode()[10..] == s
  {
    hide VarintLimit, Varint, VarintValue, IsClientHello;
    var e, v := Whole(s).Encode(), Varint(3, |s|) + s;
    WholeHeader(s);
    ZeroVarint(v);
    VarintDecode(3, |s|, s);
    assert e == [6] + ([0] + v);
    assert e[1..] == [0] + v && e[2..] == v && e[2] == v[0];
    assert v[8..] == s && e[10..] == s;
    if s == [] {
      NoHello();
    } else {
      assert e[10..10 + |s|] == s;
    }
  }

  lemma NoHello()
    ensures !IsClientHello([])
  {
  }

  lemma ZeroVarint(v: seq<byte>)
    ensures VarintSize(([0] + v)[0]) == 1 && VarintValue([0] + v) == 0
  {
    var s := [0] + v;
    assert [s[0] % 64] + s[1..1] == [0];
    assert FromBE([0]) == 256 * FromBE([0][..0]) + 0;
  }

  // ----- What the bytes of a session hold -----

  /** Whether the bytes defragment, without gap, to a client hello, and whether that is complete. */
  datatype QuicView = QuicView(defragged: bool, full: bool, hello: Option<seq<byte>>, complete: bool)

  ghost function View(clean: seq<byte>): QuicView {
    if !Accepted(clean, MaxReasm - 10) then QuicView(false, false, None, false)
    else
      var kept := Kept(Parse(clean).value);
      if Complete(kept) then ViewFull(Overlay(kept)) else QuicView(true, false, None, false)
  }

  ghost function ViewFull(s: seq<byte>): QuicView {
    if IsClientHello(s) then QuicView(true, true, Some(s), HandshakeLen(s) <= |s|) else QuicView(true, true, None, false)
  }

  /** Frames with gaps, or an incomplete hello: what a session is started for. */
  predicate Lacks(w: QuicView) {
    w.defragged && (!w.full || (w.hello.Some? && !w.complete))
  }

  /** Defragmentation and recognition of the hello. */
  method Look(clean: seq<byte>) returns (v: QuicView)
    ensures v == View(clean)
  {
    hide Accepted, Kept, Parse, Complete, Overlay, VarintLimit, IsClientHello, HandshakeLen, CryptoHello;
    ReasmLimit();
    var defrag := new byte[MaxReasm];
    var ok, n, full := QUICDefragCrypto(clean, defrag, MaxReasm);
    if !ok {
      return QuicView(false, false, None, false);
    }
    AcceptedSome(clean, MaxReasm - 10);
    ghost var s := Overlay(Kept(Parse(clean).value));
    WholeHello(s);
    if !full {
      return QuicView(true, false, None, false);
    }
    var data := defrag[..n];
    var h := CryptoHello(data);
    if h == None {
      return QuicView(true, true, None, false);
    }
    var (offset, len) := h.value;
    var hello := data[offset..offset + len];
    assert hello == s;
    HelloLength(s);
    v := QuicView(true, true, Some(hello), HandshakeLen(hello) <= len);
  }

  lemma ReasmLimit()
    ensures MaxReasm < VarintLimit(3)
  {
    assert Radix(2) == 256 * Radix(1);
    assert Radix(4) == 256 * Radix(3) == 256 * (256 * Radix(2));
    assert Radix(7) == 256 * Radix(6) == 256 * (256 * Radix(5)) >= Radix(4);
  }

  lemma HelloLength(s: seq<byte>)
    ensures IsClientHello(s) ==> |s| >= 6
  {
  }

  // ----- A hello in the frames of several packets -----

  /** The decrypted bytes of packets one after the other. */
  ghost function Stream(pkts: seq<seq<Frame>>): seq<byte>
    requires forall fs :: fs in pkts ==> ValidFrames(fs)
  {
    if pkts == [] then [] else Stream(pkts[..|pkts| - 1]) + EncodeAll(pkts[|pkts| - 1])
  }

  ghost function Frames(pkts: seq<seq<Frame>>): seq<Frame> {
    if pkts == [] then [] else Frames(pkts[..|pkts| - 1]) + pkts[|pkts| - 1]
  }

  lemma {:induction false} EncodeBoth(a: seq<Frame>, b: seq<Frame>)
    requires ValidFrames(a) && ValidFrames(b)
    ensures ValidFrames(a + b) && EncodeAll(a + b) == EncodeAll(a) + EncodeAll(b)
  {
    hide Frame.Valid, Frame.Encode;
    if a == [] {
      assert a + b == b;
    } else {
      EncodeBoth(a[1..], b);
      assert (a + b)[1..] == a[1..] + b;
    }
  }

  lemma {:induction false} StreamFrames(pkts: seq<seq<Frame>>)
    requires forall fs :: fs in pkts ==> ValidFrames(fs)
    ensures ValidFrames(Frames(pkts)) && Stream(pkts) == EncodeAll(Frames(pkts))
  {
    hide ValidFrames, EncodeAll;
    if pkts == [] {
      NoFrames();
    } else {
      var u, fs := pkts[..|pkts| - 1], pkts[|pkts| - 1];
      StreamFrames(u);
      EncodeBoth(Frames(u), fs);
    }
  }

  lemma NoFrames()
    ensures ValidFrames([]) && EncodeAll([]) == []
  {
  }

  /** Whatever parts of a client hello some packets hold, cut into frames in any way: they show a complete hello
      exactly if no byte is missing, unless they are refused, and then it is this hello. */
  lemma HelloComplete(s: seq<byte>, pkts: seq<seq<Frame>>)
    requires forall fs :: fs in pkts ==> ValidFrames(fs)
    requires IsClientHello(s) && HandshakeLen(s) == |s|
    requires forall p :: p in Pieces(Frames(pkts)) ==> p.End() <= |s| && p.data == s[p.off..p.End()]
    ensures View(Stream(pkts)).complete <==> Accepted(Stream(pkts), 16374) && Cuts(s, Pieces(Frames(pkts)))
    ensures View(Stream(pkts)).complete ==> View(Stream(pkts)).hello == Some(s)
  {
    hide Accepted, Kept, Parse, Complete, Overlay, Cuts, IsClientHello, HandshakeLen, Frames, Stream, Pieces, EncodeAll;
    StreamFrames(pkts);
    var fs := Frames(pkts);
    var ps := Pieces(fs);
    ParseEncoding(fs);
    if Accepted(Stream(pkts), MaxReasm - 10) {
      AcceptedSome(Stream(pkts), MaxReasm - 10);
      if Cuts(s, ps) {
        CutsRestore(s, ps);
      } else if Complete(Kept(ps)) {
        GaplessStart(s, ps);
        PartHello(s, MaxEnd(ps), ps);
      }
    }
  }

  lemma AcceptedSome(clean: seq<byte>, cap: nat)
    requires Accepted(clean, cap)
    ensures Parse(clean).Some? && Parse(clean).value != []
  {
  }

  /** Parts of a stream without a gap put together its beginning. */
  lemma GaplessStart(s: seq<byte>, ps: seq<Piece>)
    requires ps != [] && Complete(Kept(ps)) && forall p :: p in ps ==> p.End() <= |s| && p.data == s[p.off..p.End()]
    ensures MaxEnd(ps) <= |s| && Cuts(s[..MaxEnd(ps)], ps) && Overlay(Kept(ps)) == s[..MaxEnd(ps)]
  {
    hide Kept, MaxEnd, Overlay, Covered;
    var m := MaxEnd(ps);
    var i := MaxEndReached(ps);
    assert ps[i] in ps;
    forall p | p in ps
      ensures p.End() <= m && p.data == s[..m][p.off..p.End()]
    {
      var j :| 0 <= j < |ps| && ps[j] == p;
      MaxEndBounds(ps, j);
    }
    KeptCovers(ps);
    CutsRestore(s[..m], ps);
  }

  /** A beginning of a hello that is complete as such is all of it. */
  lemma PartHello(s: seq<byte>, m: nat, ps: seq<Piece>)
    requires m <= |s| && IsClientHello(s) && HandshakeLen(s) == |s| && Cuts(s[..m], ps) && !Cuts(s, ps)
    ensures !ViewFull(s[..m]).complete
  {
    hide Cuts;
    assert s[..|s|] == s;
    if 6 <= m < |s| {
      assert HandshakeLen(s[..m]) == HandshakeLen(s);
    }
  }
  /** A packet with parts of a client hello starts a session exactly if a byte is missing, and not if it has only the
      first bytes without a gap and these are fewer than six. */
  lemma StartsSession(s: seq<byte>, fs: seq<Frame>)
    requires ValidFrames(fs) && Accepted(EncodeAll(fs), 16374) && IsClientHello(s) && HandshakeLen(s) == |s|
    requires forall p :: p in Pieces(fs) ==> p.End() <= |s| && p.data == s[p.off..p.End()]
    ensures Lacks(View(EncodeAll(fs))) <==> !Cuts(s, Pieces(fs)) && (Complete(Kept(Pieces(fs))) ==> MaxEnd(Pieces(fs)) >= 6)
  {
    hide Accepted, Kept, Parse, Complete, Overlay, Cuts, IsClientHello, HandshakeLen, Pieces, EncodeAll, MaxEnd;
    var ps := Pieces(fs);
    ParseEncoding(fs);
    AcceptedSome(EncodeAll(fs), MaxReasm - 10);
    if Complete(Kept(ps)) {
      GaplessStart(s, ps);
      StartOfHello(s, MaxEnd(ps));
      if Cuts(s, ps) {
        CutsRestore(s, ps);
      } else {
        PartHello(s, MaxEnd(ps), ps);
      }
    } else if Cuts(s, ps) {
      CutsRestore(s, ps);
    }
  }

  lemma StartOfHello(s: seq<byte>, m: nat)
    requires m <= |s| && IsClientHello(s)
    ensures IsClientHello(s[..m]) <==> m >= 6
  {
  }

  /** Five bytes of a hello, and a CRYPTO frame with them. */
  ghost const Five: seq<byte> := [1, 0, 0, 2, 3]
  ghost const FiveFrame: Frame := Crypto(Piece(0, Five), 0, 0)

  /** It happens: such a packet starts no session. */
  lemma ShortStart()
    ensures ValidFrames([FiveFrame]) && Accepted(EncodeAll([FiveFrame]), 16374) && !Lacks(View(EncodeAll([FiveFrame])))
  {
    hide Accepted, Kept, Complete, Cuts, View, EncodeAll, Lacks, Pieces, MaxEnd, IsClientHello, HandshakeLen, ValidFrames;
    var p := Piece(0, Five);
    FiveFacts();
    OnePiece(p);
    CutsRestore(Five, [p]);
    assert Pieces([FiveFrame]) == [p];
    FewPieces(Five, [FiveFrame], MaxReasm - 10);
    StartsSession(Five + [3], [FiveFrame]);
  }

  lemma FiveFacts()
    ensures ValidFrames([FiveFrame]) && Pieces([FiveFrame]) == [Piece(0, Five)]
    ensures |Five| == 5 && IsClientHello(Five + [3]) && HandshakeLen(Five + [3]) == 6 && (Five + [3])[0..5] == Five
  {
    assert [FiveFrame][1..] == [];
    assert VarintLimit(0) == 64;
  }

  lemma OnePiece(p: Piece)
    requires p.off == 0
    ensures Cuts(p.data, [p]) && |Kept([p])| <= 1 && MaxEnd([p]) == |p.data|
  {
    assert [p][..0] == [];
    forall k: nat | k < |p.data|
      ensures Covered([p], k)
    {
      assert [p][0].Covers(k);
    }
  }
}
