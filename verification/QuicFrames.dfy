/** CRYPTO frames (section 19.6 of RFC 9000) among PADDING and PING frames: what `nfq2/protocol.c` reads, and
    what it should read. */
module QuicFrames {
  import opened Bytes
  import opened Wrappers

  // ----- Numbers -----

  ghost function Radix(n: nat): (r: nat)
    ensures r > 0
  {
    if n == 0 then 1 else 256 * Radix(n - 1)
  }

  /** Big-endian numbers; see `FromBE`. */
  function ToBE(v: nat, n: nat): (s: seq<byte>)
    ensures |s| == n
  {
    if n == 0 then [] else ToBE(v / 256, n - 1) + [v % 256]
  }

  lemma {:induction false} FromToBE(v: nat, n: nat)
    requires v < Radix(n)
    ensures FromBE(ToBE(v, n)) == v
  {
    if n > 0 {
      FromToBE(v / 256, n - 1);
      var s := ToBE(v, n);
      assert s[..|s| - 1] == ToBE(v / 256, n - 1);
    }
  }

  lemma {:induction false} ToFromBE(s: seq<byte>)
    ensures FromBE(s) < Radix(|s|) && ToBE(FromBE(s), |s|) == s
  {
    if s != [] {
      var u, b := s[..|s| - 1], s[|s| - 1];
      ToFromBE(u);
      DivUnique(FromBE(s), 256, FromBE(u), b);
      assert u + [b] == s;
    }
  }

  /** `1 << w`. */
  function Width(w: nat): (n: nat)
    ensures n > 0
  {
    if w == 0 then 1 else if w == 1 then 2 else if w == 2 then 4 else 8
  }

  /** `tvb_get_size`. */
  function VarintSize(b: byte): nat { Width(b / 64) }

  /** `tvb_get_varint`: the two upper bits of the first byte give the size, the rest is the value. */
  function VarintValue(s: seq<byte>): nat
    requires s != [] && VarintSize(s[0]) <= |s|
  {
    FromBE([s[0] % 64] + s[1..VarintSize(s[0])])
  }

  /** One more than the greatest number that fits into a variable-length integer of width code `w`. */
  ghost function VarintLimit(w: nat): nat
    requires w < 4
  {
    64 * Radix(Width(w) - 1)
  }

  /** Section 16 of RFC 9000, with any of the four widths. */
  ghost function Varint(w: nat, v: nat): (s: seq<byte>)
    requires w < 4 && v < VarintLimit(w)
    ensures |s| == Width(w)
  {
    var t := ToBE(v, Width(w));
    TopByte(v, Width(w));
    [64 * w + t[0]] + t[1..]
  }

  lemma {:induction false} TopByte(v: nat, n: nat)
    requires n > 0 && v < 64 * Radix(n - 1)
    ensures ToBE(v, n)[0] < 64
  {
    if n == 1 {
      assert ToBE(v / 256, 0) == [];
    } else {
      TopByte(v / 256, n - 1);
    }
  }

  lemma {:induction false} TopValue(s: seq<byte>)
    requires s != [] && s[0] < 64
    ensures FromBE(s) < 64 * Radix(|s| - 1)
  {
    if |s| == 1 {
      assert s[..0] == [];
    } else {
      TopValue(s[..|s| - 1]);
    }
  }

  lemma VarintDecode(w: nat, v: nat, t: seq<byte>)
    requires w < 4 && v < VarintLimit(w)
    ensures var s := Varint(w, v) + t; VarintSize(s[0]) == |Varint(w, v)| && VarintValue(s) == v
  {
    var n := Width(w);
    var s, u := Varint(w, v) + t, ToBE(v, n);
    TopByte(v, n);
    DivUnique(s[0], 64, w, u[0]);
    assert [s[0] % 64] + s[1..n] == u;
    FromToBE(v, n);
  }

  lemma VarintEncode(s: seq<byte>)
    requires s != [] && VarintSize(s[0]) <= |s|
    ensures VarintValue(s) < VarintLimit(s[0] / 64) && Varint(s[0] / 64, VarintValue(s)) == s[..VarintSize(s[0])]
  {
    var n := VarintSize(s[0]);
    var u := [s[0] % 64] + s[1..n];
    TopValue(u);
    ToFromBE(u);
    assert u[1..] == s[1..n];
  }

  /** The four forms of section 16 of RFC 9000: two bits for the size, and the rest of the bytes for the value. */
  lemma VarintForms(s: seq<byte>)
    requires s != []
    ensures VarintSize(s[0]) == if s[0] < 64 then 1 else if s[0] < 128 then 2 else if s[0] < 192 then 4 else 8
    ensures s[0] < 64 ==> VarintValue(s) == s[0] as int
    ensures 64 <= s[0] < 128 && |s| >= 2 ==> VarintValue(s) == 256 * ((s[0] as int) - 64) + (s[1] as int)
    ensures 128 <= s[0] < 192 && |s| >= 4 ==>
              VarintValue(s) == 0x100_0000 * ((s[0] as int) - 128) + 0x1_0000 * (s[1] as int) + 256 * (s[2] as int) + (s[3] as int)
    ensures 192 <= s[0] && |s| >= 8 ==>
              VarintValue(s) == 0x100_0000_0000_0000 * ((s[0] as int) - 192) + 0x1_0000_0000_0000 * (s[1] as int) +
                                0x100_0000_0000 * (s[2] as int) + 0x1_0000_0000 * (s[3] as int) + 0x100_0000 * (s[4] as int) +
                                0x1_0000 * (s[5] as int) + 256 * (s[6] as int) + (s[7] as int)
  {
    hide FromBE;
    var a: byte := s[0] % 64;
    DivUnique(s[0], 64, s[0] / 64, a);
    if s[0] < 64 {
      assert [a] + s[1..1] == [a];
      FromBE2(a, 0);
    } else if s[0] < 128 && |s| >= 2 {
      assert [a] + s[1..2] == [a, s[1]];
      FromBE2(a, s[1]);
    } else if 128 <= s[0] < 192 && |s| >= 4 {
      assert [a] + s[1..4] == [a, s[1], s[2], s[3]];
      FromBE4(a, s[1], s[2], s[3]);
    } else if s[0] >= 192 && |s| >= 8 {
      assert [a] + s[1..8] == [a, s[1], s[2], s[3], s[4], s[5], s[6], s[7]];
      FromBE8([a, s[1], s[2], s[3], s[4], s[5], s[6], s[7]]);
    }
  }

  lemma FromBE8(s: seq<byte>)
    requires |s| == 8
    ensures FromBE(s) == 0x100_0000_0000_0000 * (s[0] as int) + 0x1_0000_0000_0000 * (s[1] as int) +
                         0x100_0000_0000 * (s[2] as int) + 0x1_0000_0000 * (s[3] as int) + 0x100_0000 * (s[4] as int) +
                         0x1_0000 * (s[5] as int) + 256 * (s[6] as int) + (s[7] as int)
  {
    hide FromBE;
    FromBE4(s[0], s[1], s[2], s[3]);
    assert s[..4] == [s[0], s[1], s[2], s[3]];
    assert s[..5] == s[..4] + [s[4]] && s[..6] == s[..5] + [s[5]] && s[..7] == s[..6] + [s[6]] && s == s[..7] + [s[7]];
    BESnoc(s[..4], s[4]);
    BESnoc(s[..5], s[5]);
    BESnoc(s[..6], s[6]);
    BESnoc(s[..7], s[7]);
  }

  /** The examples of appendix A.1 of RFC 9000. */
  lemma VarintExamples()
    ensures VarintValue([0xC2, 0x19, 0x7C, 0x5E, 0xFF, 0x14, 0xE8, 0x8C]) == 151288809941952652
    ensures VarintValue([0x9D, 0x7F, 0x3E, 0x7D]) == 494878333
    ensures VarintValue([0x7B, 0xBD]) == 15293 && VarintValue([0x25]) == 37 && VarintValue([0x40, 0x25]) == 37
  {
    hide VarintValue;
    VarintForms([0xC2, 0x19, 0x7C, 0x5E, 0xFF, 0x14, 0xE8, 0x8C]);
    VarintForms([0x9D, 0x7F, 0x3E, 0x7D]);
    VarintForms([0x7B, 0xBD]);
    VarintForms([0x25]);
    VarintForms([0x40, 0x25]);
  }

  // ----- Frames -----

  /** Crypto data at an offset of the stream. */
  datatype Piece = Piece(off: nat, data: seq<byte>) {
    ghost function End(): nat { off + |data| }

    ghost predicate Covers(k: nat) { off <= k < End() }
  }

  /** A frame, with the width codes chosen for its two numbers. */
  datatype Frame = Padding | Ping | Crypto(piece: Piece, ow: nat, lw: nat) {
    ghost predicate Valid() {
      Crypto? ==> ow < 4 && lw < 4 && piece.off < VarintLimit(ow) && |piece.data| < VarintLimit(lw)
    }

    ghost function Encode(): seq<byte>
      requires Valid()
    {
      match this
      case Padding => [0]
      case Ping => [1]
      case Crypto(p, ow, lw) => [6] + Varint(ow, p.off) + Varint(lw, |p.data|) + p.data
    }
  }

  ghost predicate ValidFrames(fs: seq<Frame>) {
    forall f :: f in fs ==> f.Valid()
  }

  ghost function EncodeAll(fs: seq<Frame>): seq<byte>
    requires ValidFrames(fs)
  {
    if fs == [] then [] else fs[0].Encode() + EncodeAll(fs[1..])
  }

  ghost function Pieces(fs: seq<Frame>): seq<Piece> {
    if fs == [] then [] else PieceOf(fs[0]) + Pieces(fs[1..])
  }

  /** A CRYPTO frame after its type byte, and how many bytes it takes, under the checks of the code. */
  ghost function CryptoAt(s: seq<byte>): (r: Option<(Piece, nat)>)
    ensures r.Some? ==> r.value.1 <= |s|
  {
    if s == [] || VarintSize(s[0]) >= |s| then None
    else
      var a := VarintSize(s[0]);
      var b := a + VarintSize(s[a]);
      if b > |s| || b + VarintValue(s[a..]) > |s| then None
      else
        var e := b + VarintValue(s[a..]);
        Some((Piece(VarintValue(s), s[b..e]), e))
  }

  ghost function Prepend(ps: seq<Piece>, r: Option<seq<Piece>>): Option<seq<Piece>> {
    if r.None? then None else Some(ps + r.value)
  }

  /** The pieces of a packet, or nothing if it holds an unknown or cut off frame. */
  ghost function Parse(s: seq<byte>): Option<seq<Piece>> {
    if s == [] then Some([])
    else if s[0] <= 1 then Parse(s[1..])
    else if s[0] != 6 || CryptoAt(s[1..]).None? then None
    else
      var (p, n) := CryptoAt(s[1..]).value;
      Prepend([p], Parse(s[1 + n..]))
  }

  lemma CryptoOfEncoding(f: Frame, t: seq<byte>)
    requires f.Crypto? && f.Valid()
    ensures CryptoAt((f.Encode() + t)[1..]) == Some((f.piece, |f.Encode()| - 1))
  {
    hide Varint, VarintValue, Width, VarintLimit;
    var p := f.piece;
    var x, y := Varint(f.ow, p.off), Varint(f.lw, |p.data|);
    var s := (f.Encode() + t)[1..];
    assert s == x + (y + (p.data + t));
    assert s[|x|..] == y + (p.data + t);
    assert s[|x| + |y|..] == p.data + t;
    VarintDecode(f.ow, p.off, y + (p.data + t));
    VarintDecode(f.lw, |p.data|, p.data + t);
    assert s[|x|] == s[|x|..][0];
    assert s[|x| + |y|..|x| + |y| + |p.data|] == p.data;
  }

  /** The pieces of one frame. */
  ghost function PieceOf(f: Frame): seq<Piece> {
    if f.Crypto? then [f.piece] else []
  }

  lemma ParseFrame(f: Frame, t: seq<byte>)
    requires f.Valid()
    ensures Parse(f.Encode() + t) == Prepend(PieceOf(f), Parse(t))
  {
    hide CryptoAt, Varint;
    var s := f.Encode() + t;
    assert s[|f.Encode()|..] == t;
    if f.Crypto? {
      CryptoOfEncoding(f, t);
      assert s[0] == 6;
    } else if Parse(t).Some? {
      assert [] + Parse(t).value == Parse(t).value;
    }
  }

  /** Every encoding of frames parses to their pieces. */
  lemma {:induction false} ParseEncoding(fs: seq<Frame>)
    requires ValidFrames(fs)
    ensures Parse(EncodeAll(fs)) == Some(Pieces(fs))
  {
    if fs != [] {
      hide Parse, Frame.Encode, Frame.Valid;
      ParseEncoding(fs[1..]);
      ParseFrame(fs[0], EncodeAll(fs[1..]));
    } else {
    }
  }

  lemma CryptoEncoding(s: seq<byte>) returns (f: Frame)
    requires CryptoAt(s).Some?
    ensures f.Crypto? && f.Valid() && f.piece == CryptoAt(s).value.0 && f.Encode() == [6] + s[..CryptoAt(s).value.1]
  {
    hide Varint, VarintValue, Width, VarintLimit;
    var a := VarintSize(s[0]);
    var b := a + VarintSize(s[a]);
    var u := s[a..];
    VarintEncode(s);
    VarintEncode(u);
    CodeRange(s[0]);
    CodeRange(u[0]);
    var p := CryptoAt(s).value.0;
    f := Crypto(p, s[0] / 64, u[0] / 64);
    ThreeParts(s, a, b, CryptoAt(s).value.1);
    assert u[..b - a] == s[a..b];
  }

  lemma CodeRange(b: byte)
    ensures b / 64 < 4
  {
  }

  lemma ThreeParts(s: seq<byte>, a: nat, b: nat, e: nat)
    requires a <= b <= e <= |s|
    ensures [6] + s[..a] + s[a..b] + s[b..e] == [6] + s[..e]
  {
  }

  /** The first frame of a packet that parses. */
  lemma FirstFrame(s: seq<byte>) returns (f: Frame)
    requires s != [] && Parse(s).Some?
    ensures f.Valid() && 0 < |f.Encode()| <= |s| && s == f.Encode() + s[|f.Encode()|..]
  {
    hide CryptoAt, Varint;
    if s[0] <= 1 {
      f := if s[0] == 0 then Padding else Ping;
    } else {
      f := CryptoEncoding(s[1..]);
    }
  }

  /** Whatever parses is the encoding of some frames. */
  lemma {:induction false} EncodingOfParse(s: seq<byte>) returns (fs: seq<Frame>)
    requires Parse(s).Some?
    ensures ValidFrames(fs) && EncodeAll(fs) == s
    decreases |s|
  {
    if s == [] {
      fs := [];
    } else {
      var f := FirstFrame(s);
      var t := s[|f.Encode()|..];
      ParseFrame(f, t);
      hide Parse, Frame.Encode, Frame.Valid;
      fs := EncodingOfParse(t);
      var gs := [f] + fs;
      assert gs[1..] == fs;
      fs := gs;
    }
  }

  // ----- What the pieces put together -----

  /** The pieces that are kept: of two with the same offset and length the first. */
  ghost function Kept(ps: seq<Piece>): seq<Piece> {
    if ps == [] then []
    else
      var k, p := Kept(ps[..|ps| - 1]), ps[|ps| - 1];
      if Repeats(k, p) then k else k + [p]
  }

  ghost predicate Repeats(ps: seq<Piece>, p: Piece) {
    exists i :: 0 <= i < |ps| && ps[i].off == p.off && |ps[i].data| == |p.data|
  }

  ghost function MaxEnd(ps: seq<Piece>): nat {
    if ps == [] then 0
    else
      var m, e := MaxEnd(ps[..|ps| - 1]), ps[|ps| - 1].End();
      if e > m then e else m
  }

  ghost predicate Covered(ps: seq<Piece>, k: nat) {
    exists i :: 0 <= i < |ps| && ps[i].Covers(k)
  }

  /** The last piece over a position gives its byte; a gap is zero. */
  ghost function ByteAt(ps: seq<Piece>, k: nat): byte {
    if ps == [] then 0
    else
      var p := ps[|ps| - 1];
      if p.Covers(k) then p.data[k - p.off] else ByteAt(ps[..|ps| - 1], k)
  }

  /** The bytes up to the end of the last piece. */
  ghost function Overlay(ps: seq<Piece>): seq<byte> {
    seq(MaxEnd(ps), k requires 0 <= k => ByteAt(ps, k))
  }

  /** No gap before the end of the last piece. */
  ghost predicate Complete(ps: seq<Piece>) {
    forall k: nat :: k < MaxEnd(ps) ==> Covered(ps, k)
  }

  /** One CRYPTO frame at offset 0 with an eight-byte length. */
  ghost function Whole(s: seq<byte>): Frame { Crypto(Piece(0, s), 0, 3) }

  lemma MaxEndNone()
    ensures MaxEnd([]) == 0
  {
  }

  lemma {:induction false} MaxEndBounds(ps: seq<Piece>, i: nat)
    requires i < |ps|
    ensures ps[i].End() <= MaxEnd(ps)
  {
    if i < |ps| - 1 {
      MaxEndBounds(ps[..|ps| - 1], i);
    }
  }

  lemma {:induction false} MaxEndReached(ps: seq<Piece>) returns (i: nat)
    requires ps != []
    ensures i < |ps| && ps[i].End() == MaxEnd(ps)
  {
    i := |ps| - 1;
    if |ps| == 1 {
      assert MaxEnd(ps[..|ps| - 1]) == 0;
    } else if ps[i].End() < MaxEnd(ps) {
      i := MaxEndReached(ps[..|ps| - 1]);
    }
  }

  lemma {:induction false} NothingAbove(ps: seq<Piece>, k: nat)
    requires k >= MaxEnd(ps)
    ensures ByteAt(ps, k) == 0
  {
    if ps != [] {
      NothingAbove(ps[..|ps| - 1], k);
    }
  }

  lemma Snoc(ps: seq<Piece>, p: Piece)
    ensures (ps + [p])[..|ps|] == ps && MaxEnd(ps + [p]) == (if p.End() > MaxEnd(ps) then p.End() else MaxEnd(ps))
    ensures Kept(ps + [p]) == if Repeats(Kept(ps), p) then Kept(ps) else Kept(ps) + [p]
    ensures forall k: nat :: ByteAt(ps + [p], k) == if p.Covers(k) then p.data[k - p.off] else ByteAt(ps, k)
  {
    hide Repeats, Kept, MaxEnd, ByteAt;
    var q := ps + [p];
    assert q[..|q| - 1] == ps && q[|q| - 1] == p;
    KeptLast(q);
    MaxEndLast(q);
    forall k: nat
      ensures ByteAt(q, k) == if p.Covers(k) then p.data[k - p.off] else ByteAt(ps, k)
    {
      ByteLast(q, k);
    }
  }

  lemma KeptLast(q: seq<Piece>)
    requires q != []
    ensures var (k, p) := (Kept(q[..|q| - 1]), q[|q| - 1]); Kept(q) == if Repeats(k, p) then k else k + [p]
  {
    hide Repeats;
  }

  lemma MaxEndLast(q: seq<Piece>)
    requires q != []
    ensures var (m, e) := (MaxEnd(q[..|q| - 1]), q[|q| - 1].End()); MaxEnd(q) == if e > m then e else m
  {
  }

  lemma ByteLast(q: seq<Piece>, k: nat)
    requires q != []
    ensures var p := q[|q| - 1]; ByteAt(q, k) == if p.Covers(k) then p.data[k - p.off] else ByteAt(q[..|q| - 1], k)
  {
  }

  /** More pieces, more kept. */
  lemma {:induction false} KeptGrows(ps: seq<Piece>, qs: seq<Piece>)
    ensures |Kept(ps)| <= |Kept(ps + qs)|
  {
    if qs == [] {
      assert ps + qs == ps;
    } else {
      var u := qs[..|qs| - 1];
      KeptGrows(ps, u);
      assert ps + qs == (ps + u) + [qs[|qs| - 1]];
      Snoc(ps + u, qs[|qs| - 1]);
    }
  }

  lemma {:induction false} KeptFrom(ps: seq<Piece>)
    ensures |Kept(ps)| <= |ps| && forall p :: p in Kept(ps) ==> p in ps
  {
    if ps != [] {
      KeptFrom(ps[..|ps| - 1]);
    }
  }

  /** Dropping repeated pieces uncovers nothing. */
  lemma {:induction false} KeptCovers(ps: seq<Piece>)
    ensures MaxEnd(Kept(ps)) == MaxEnd(ps) && forall k: nat :: Covered(Kept(ps), k) <==> Covered(ps, k)
  {
    if ps != [] {
      var u, p := ps[..|ps| - 1], ps[|ps| - 1];
      KeptCovers(u);
      assert ps == u + [p];
      Snoc(Kept(u), p);
      if Repeats(Kept(u), p) {
        var i :| 0 <= i < |Kept(u)| && Kept(u)[i].off == p.off && |Kept(u)[i].data| == |p.data|;
        MaxEndBounds(Kept(u), i);
        assert forall k: nat :: p.Covers(k) ==> Kept(u)[i].Covers(k);
      }
      forall k: nat
        ensures Covered(Kept(ps), k) <==> Covered(ps, k)
      {
        CoveredSnoc(u, p, k);
        CoveredSnoc(Kept(u), p, k);
      }
    }
  }

  lemma CoveredSnoc(ps: seq<Piece>, p: Piece, k: nat)
    ensures Covered(ps + [p], k) <==> Covered(ps, k) || p.Covers(k)
  {
    var q := ps + [p];
    if Covered(ps, k) {
      var i :| 0 <= i < |ps| && ps[i].Covers(k);
      assert q[i].Covers(k);
    }
    if p.Covers(k) {
      assert q[|ps|].Covers(k);
    }
  }

  // ----- Cuttings of a stream -----

  /** Pieces of the stream `s`, in any order, overlapping or not, that together are all of it. */
  ghost predicate Cuts(s: seq<byte>, ps: seq<Piece>) {
    ps != [] && (forall p :: p in ps ==> p.End() <= |s| && p.data == s[p.off..p.End()]) &&
    forall k: nat :: k < |s| ==> Covered(ps, k)
  }

  lemma {:induction false} SliceBytes(s: seq<byte>, ps: seq<Piece>, k: nat)
    requires (forall p :: p in ps ==> p.End() <= |s| && p.data == s[p.off..p.End()]) && Covered(ps, k)
    ensures k < |s| && ByteAt(ps, k) == s[k]
  {
    var u, p := ps[..|ps| - 1], ps[|ps| - 1];
    assert ps == u + [p];
    CoveredSnoc(u, p, k);
    if !p.Covers(k) {
      SliceBytes(s, u, k);
    }
  }

  lemma CoveredBelow(ps: seq<Piece>, k: nat)
    requires Covered(ps, k)
    ensures k < MaxEnd(ps)
  {
    var j :| 0 <= j < |ps| && ps[j].Covers(k);
    MaxEndBounds(ps, j);
  }

  /** Whatever the cutting, the kept pieces put the stream together again. */
  lemma CutsRestore(s: seq<byte>, ps: seq<Piece>)
    requires Cuts(s, ps)
    ensures Overlay(Kept(ps)) == s && Complete(Kept(ps))
  {
    hide Kept, MaxEnd, ByteAt, Covered, Piece.Covers, Piece.End;
    KeptCovers(ps);
    KeptFrom(ps);
    var i := MaxEndReached(ps);
    assert ps[i] in ps;
    if |s| > 0 {
      CoveredBelow(ps, |s| - 1);
    }
    forall k: nat | k < |s|
      ensures ByteAt(Kept(ps), k) == s[k]
    {
      SliceBytes(s, Kept(ps), k);
    }
  }
}
