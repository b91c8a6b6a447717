/** `QUICDefragCrypto` of `nfq2/protocol.c`. */
module QuicDefrag {
  import opened Bytes
  import opened Wrappers
  import opened QuickSort
  import opened QuicFrames

  const MaxPieces := 128

  /** `struct range64`. */
  datatype Range = Range(off: nat, len: nat) {
    function End(): nat { off + len }

    ghost predicate Holds(k: nat) { off <= k < End() }
  }

  // ----- Merging the ranges -----

  /** `cmp_range64`. */
  function CmpRange(a: Range, b: Range): int {
    if a.off < b.off then -1 else if a.off > b.off then 1 else 0
  }

  lemma CmpRangeOrders()
    ensures TotalPreorder(CmpRange)
  {
  }

  ghost predicate InSome(rs: seq<Range>, k: nat) {
    exists i :: 0 <= i < |rs| && rs[i].Holds(k)
  }

  /** The call of `qsort`, on the first `n` ranges. */
  method SortRanges(ranges: array<Range>, n: nat)
    requires n <= ranges.Length && n <= MaxPieces
    modifies ranges
    ensures Sorted(CmpRange, ranges[..n]) && multiset(ranges[..n]) == multiset(old(ranges[..n]))
  {
    hide Sorted, TotalPreorder;
    var r := ranges[..n];
    var a := new Range[n](i requires 0 <= i < n => r[i]);
    assert a[..] == r;
    CmpRangeOrders();
    assert Pow2(8) == 256;
    GnuQuicksort(a, CmpRange, 8);
    var s := a[..];
    forall i | 0 <= i < n {
      ranges[i] := s[i];
    }
    assert ranges[..n] == s;
  }

  /** `m` is what the first `i` of the sorted ranges `s` merge to: the same positions, without overlap. */
  ghost predicate Merged(s: seq<Range>, i: nat, m: seq<Range>)
    requires 0 < i <= |s|
  {
    0 < |m| <= i && (forall a, b :: 0 <= a < b < |m| ==> m[a].End() < m[b].off) &&
    (forall k: nat :: InSome(m, k) <==> InSome(s[..i], k)) && m[|m| - 1].off <= s[i - 1].off &&
    (forall a :: 0 <= a < i ==> s[a].End() <= m[|m| - 1].End()) && exists a :: 0 <= a < i && s[a].End() == m[|m| - 1].End()
  }

  ghost function Join(p: Range, q: Range): Range
    requires p.off <= q.off <= p.End()
  {
    Range(p.off, (if q.End() > p.End() then q.End() else p.End()) - p.off)
  }

  lemma InSomeSnoc(rs: seq<Range>, r: Range, k: nat)
    ensures InSome(rs + [r], k) <==> InSome(rs, k) || r.Holds(k)
  {
    var q := rs + [r];
    if InSome(rs, k) {
      var i :| 0 <= i < |rs| && rs[i].Holds(k);
      assert q[i].Holds(k);
    }
    if r.Holds(k) {
      assert q[|rs|].Holds(k);
    }
  }

  lemma MergedStart(s: seq<Range>, m: seq<Range>)
    requires s != [] && m == s[..1]
    ensures Merged(s, 1, m)
  {
  }

  lemma MergeStep(s: seq<Range>, i: nat, m: seq<Range>, n: seq<Range>)
    requires Sorted(CmpRange, s) && 0 < i < |s| && Merged(s, i, m)
    requires var p := m[|m| - 1];
             n == if s[i].off <= p.End() then m[..|m| - 1] + [Join(p, s[i])] else m + [s[i]]
    ensures Merged(s, i + 1, n)
  {
    var u, p, r := m[..|m| - 1], m[|m| - 1], s[i];
    assert m == u + [p];
    assert CmpRange(s[i - 1], r) <= 0;
    assert s[..i + 1] == s[..i] + [r];
    forall k: nat
      ensures InSome(n, k) <==> InSome(s[..i + 1], k)
    {
      InSomeSnoc(s[..i], r, k);
      InSomeSnoc(u, p, k);
      InSomeSnoc(m, r, k);
      if r.off <= p.End() {
        InSomeSnoc(u, Join(p, r), k);
      }
    }
    hide InSome;
    var c :| 0 <= c < i && s[c].End() == p.End();
    assert n[|n| - 1].End() == if r.End() > p.End() then r.End() else p.End();
    assert s[if r.End() > p.End() then i else c].End() == n[|n| - 1].End();
  }

  /** The loop that merges the sorted ranges in place. */
  method Merge(ranges: array<Range>, n: nat) returns (count: nat)
    requires 0 < n <= ranges.Length && Sorted(CmpRange, ranges[..n])
    modifies ranges
    ensures 0 < count <= n && Merged(old(ranges[..n]), n, ranges[..count])
  {
    hide Sorted, Merged;
    ghost var s := ranges[..n];
    var j, i := 0, 1;
    MergedStart(s, ranges[..1]);
    while i < n
      invariant 0 <= j < i <= n && ranges[i..n] == s[i..] && Merged(s, i, ranges[..j + 1])
    {
      ghost var m := ranges[..j + 1];
      assert ranges[i] == ranges[i..n][0] == s[i];
      MergedLast(s, i, m);
      var nextStart, nextEnd, currentEnd := ranges[i].off, ranges[i].End(), ranges[j].End();
      if nextStart <= currentEnd {
        ranges[j] := Range(ranges[j].off, (if nextEnd > currentEnd then nextEnd else currentEnd) - ranges[j].off);
        assert ranges[..j + 1] == m[..j] + [Join(m[j], s[i])];
      } else {
        j := j + 1;
        ranges[j] := ranges[i];
        assert ranges[..j + 1] == m + [s[i]];
      }
      MergeStep(s, i, m, ranges[..j + 1]);
      i := i + 1;
    }
    count := j + 1;
  }

  lemma MergedLast(s: seq<Range>, i: nat, m: seq<Range>)
    requires Sorted(CmpRange, s) && 0 < i < |s| && Merged(s, i, m)
    ensures 0 < |m| <= i && m[|m| - 1].off <= s[i].off
  {
    assert CmpRange(s[i - 1], s[i]) <= 0;
  }

  /** The ranges of the pieces. */
  ghost function Ranges(ps: seq<Piece>): seq<Range> {
    seq(|ps|, i requires 0 <= i < |ps| => Range(ps[i].off, |ps[i].data|))
  }

  lemma SameRanges(ps: seq<Piece>, s: seq<Range>)
    requires multiset(s) == multiset(Ranges(ps))
    ensures |s| == |ps| && forall r :: r in s <==> r in Ranges(ps)
  {
    assert |multiset(s)| == |s| && |multiset(Ranges(ps))| == |ps|;
    forall r
      ensures r in s <==> r in Ranges(ps)
    {
      assert r in s <==> r in multiset(s);
      assert r in Ranges(ps) <==> r in multiset(Ranges(ps));
    }
  }

  lemma SamePositions(ps: seq<Piece>, s: seq<Range>, k: nat)
    requires multiset(s) == multiset(Ranges(ps))
    ensures InSome(s, k) <==> Covered(ps, k)
  {
    SameRanges(ps, s);
    if InSome(s, k) {
      var i :| 0 <= i < |s| && s[i].Holds(k);
      assert s[i] in Ranges(ps);
      var j :| 0 <= j < |ps| && Ranges(ps)[j] == s[i];
      assert ps[j].Covers(k);
    }
    if Covered(ps, k) {
      var j :| 0 <= j < |ps| && ps[j].Covers(k);
      assert Ranges(ps)[j] in s;
      var i :| 0 <= i < |s| && s[i] == Ranges(ps)[j];
      assert s[i].Holds(k);
    }
  }

  lemma SameEnd(ps: seq<Piece>, s: seq<Range>, m: seq<Range>)
    requires ps != [] && multiset(s) == multiset(Ranges(ps)) && |s| > 0 && Merged(s, |s|, m)
    ensures m[|m| - 1].End() == MaxEnd(ps)
  {
    SameRanges(ps, s);
    var a :| 0 <= a < |s| && s[a].End() == m[|m| - 1].End();
    assert s[a] in Ranges(ps);
    var j :| 0 <= j < |ps| && Ranges(ps)[j] == s[a];
    MaxEndBounds(ps, j);
    var b := MaxEndReached(ps);
    assert Ranges(ps)[b] in s;
    var c :| 0 <= c < |s| && s[c] == Ranges(ps)[b];
  }

  /** One merged range at offset 0 is the same as no gap. */
  lemma OneRange(ps: seq<Piece>, s: seq<Range>, m: seq<Range>)
    requires ps != [] && multiset(s) == multiset(Ranges(ps)) && |s| > 0 && Merged(s, |s|, m)
    ensures |m| == 1 && m[0].off == 0 <==> Complete(ps)
  {
    SameEnd(ps, s, m);
    assert s[..|s|] == s;
    if |m| == 1 && m[0].off == 0 {
      forall k: nat | k < MaxEnd(ps)
        ensures Covered(ps, k)
      {
        assert m[0].Holds(k);
        assert InSome(m, k);
        SamePositions(ps, s, k);
      }
    }
    if Complete(ps) && (|m| > 1 || m[0].off != 0) {
      var k := if |m| > 1 then m[0].End() else 0;
      if m[0].off != 0 {
        k := 0;
      }
      assert k < MaxEnd(ps);
      SamePositions(ps, s, k);
    }
  }

  // ----- Reading and storing one frame -----

  /** The two numbers of a CRYPTO frame, with the checks of the code. */
  method ReadCrypto(clean: seq<byte>, start: nat) returns (ok: bool, off: nat, sz: nat, pos: nat)
    requires start < |clean|
    ensures ok <==> CryptoAt(clean[start..]).Some?
    ensures ok ==> start <= pos && pos + sz <= |clean| &&
                   CryptoAt(clean[start..]) == Some((Piece(off, clean[pos..pos + sz]), pos + sz - start))
  {
    hide VarintValue, Width;
    ghost var s := clean[start..];
    ok, off, sz, pos := false, 0, 0, start;
    if pos + VarintSize(clean[pos]) >= |clean| {
      return;
    }
    off := VarintValue(clean[pos..]);
    pos := pos + VarintSize(clean[pos]);
    if pos + VarintSize(clean[pos]) > |clean| {
      return;
    }
    assert clean[pos..] == s[pos - start..];
    sz := VarintValue(clean[pos..]);
    pos := pos + VarintSize(clean[pos]);
    if pos + sz > |clean| {
      return;
    }
    assert clean[pos..pos + sz] == s[pos - start..pos - start + sz];
    ok := true;
  }

  /** The search for an exact duplicate. */
  method IsRepeat(ranges: array<Range>, range: nat, off: nat, sz: nat, ghost kept: seq<Piece>, ghost p: Piece) returns (b: bool)
    requires range <= ranges.Length && ranges[..range] == Ranges(kept) && off == p.off && sz == |p.data|
    ensures b == Repeats(kept, p)
  {
    var i := 0;
    while i < range
      invariant 0 <= i <= range && forall j :: 0 <= j < i ==> !(kept[j].off == off && |kept[j].data| == sz)
    {
      assert ranges[i] == ranges[..range][i] == Range(kept[i].off, |kept[i].data|);
      if ranges[i].off == off && ranges[i].len == sz {
        return true;
      }
      i := i + 1;
    }
    return false;
  }

  /** The buffer behind the header holds the overlay of the pieces; the rest is as in `before`. */
  ghost predicate Filled(buf: seq<byte>, before: seq<byte>, kept: seq<Piece>) {
    |buf| == |before| && 10 + MaxEnd(kept) <= |buf| && (forall i :: 0 <= i < 10 ==> buf[i] == before[i]) &&
    (forall k: nat :: k < MaxEnd(kept) ==> buf[10 + k] == ByteAt(kept, k)) &&
    forall i :: 10 + MaxEnd(kept) <= i < |buf| ==> buf[i] == before[i]
  }

  /** Clears the gap before a piece and copies its data. */
  method CopyPiece(defrag: array<byte>, zeropos: nat, p: Piece, ghost before: seq<byte>, ghost kept: seq<Piece>)
    requires Filled(defrag[..], before, kept) && zeropos == MaxEnd(kept) && 10 + p.End() <= defrag.Length
    modifies defrag
    ensures Filled(defrag[..], before, kept + [p])
  {
    ghost var was := defrag[..];
    if zeropos < p.off {
      forall k | zeropos <= k < p.off {
        defrag[10 + k] := 0;
      }
    }
    forall k | 0 <= k < |p.data| {
      defrag[10 + p.off + k] := p.data[k];
    }
    FilledSnoc(was, defrag[..], before, kept, p);
  }

  lemma FilledSnoc(was: seq<byte>, buf: seq<byte>, before: seq<byte>, kept: seq<Piece>, p: Piece)
    requires Filled(was, before, kept) && |buf| == |was| && 10 + p.End() <= |buf|
    requires forall i :: 0 <= i < |buf| ==>
      buf[i] == if 10 + p.off <= i < 10 + p.End() then p.data[i - 10 - p.off]
                else if 10 + MaxEnd(kept) <= i < 10 + p.off then 0 else was[i]
    ensures Filled(buf, before, kept + [p])
  {
    hide MaxEnd, ByteAt, Kept;
    Snoc(kept, p);
    forall k: nat | k < MaxEnd(kept + [p])
      ensures buf[10 + k] == ByteAt(kept + [p], k)
    {
      if k >= MaxEnd(kept) {
        NothingAbove(kept, k);
      }
    }
  }

  // ----- The whole function -----

  ghost predicate Fit(ps: seq<Piece>, cap: nat) {
    forall p :: p in ps ==> p.End() <= cap
  }

  /** The packets that are accepted: at least one CRYPTO frame, all inside the buffer, and not more than 127
      different ones before the last. */
  ghost predicate Accepted(clean: seq<byte>, cap: nat) {
    Parse(clean).Some? &&
    var ps := Parse(clean).value;
    ps != [] && Fit(ps, cap) && |Kept(ps[..|ps| - 1])| < MaxPieces
  }

  /** Where the loop over the frames has come. */
  ghost predicate Reading(clean: seq<byte>, pos: nat, cap: nat, done: seq<Piece>) {
    pos <= |clean| && Parse(clean) == Prepend(done, Parse(clean[pos..])) && Fit(done, cap) &&
    (done != [] ==> |Kept(done[..|done| - 1])| < MaxPieces)
  }

  lemma ReadNone(clean: seq<byte>, pos: nat, cap: nat, done: seq<Piece>)
    requires Reading(clean, pos, cap, done) && Parse(clean[pos..]).None?
    ensures !Accepted(clean, cap)
  {
  }

  /** The 129th different piece, or any frame after the 128th, is refused. */
  lemma ReadTooMany(clean: seq<byte>, pos: nat, cap: nat, done: seq<Piece>)
    requires Reading(clean, pos, cap, done) && pos < |clean| && clean[pos] == 6 && |Kept(done)| >= MaxPieces
    ensures !Accepted(clean, cap)
  {
    hide Kept, Fit, CryptoAt;
    if Parse(clean).Some? {
      var t := Parse(clean[pos..]).value;
      assert t != [] && Parse(clean).value == done + t;
      assert (done + t)[..|done + t| - 1] == done + t[..|t| - 1];
      KeptGrows(done, t[..|t| - 1]);
    }
  }

  lemma ReadPast(clean: seq<byte>, pos: nat, cap: nat, done: seq<Piece>, p: Piece, n: nat)
    requires Reading(clean, pos, cap, done) && pos < |clean| && clean[pos] == 6 && |Kept(done)| < MaxPieces
    requires CryptoAt(clean[pos + 1..]) == Some((p, n))
    ensures pos + 1 + n <= |clean|
    ensures if p.End() <= cap then Reading(clean, pos + 1 + n, cap, done + [p]) else !Accepted(clean, cap)
  {
    hide CryptoAt, Kept;
    var s := clean[pos..];
    assert s[1..] == clean[pos + 1..] && s[1 + n..] == clean[pos + 1 + n..];
    var r := Parse(s[1 + n..]);
    assert (done + [p])[..|done|] == done;
    if r.Some? {
      assert done + ([p] + r.value) == (done + [p]) + r.value;
      assert p in (done + [p]) + r.value;
    }
  }

  lemma ReadSkip(clean: seq<byte>, pos: nat, cap: nat, done: seq<Piece>)
    requires Reading(clean, pos, cap, done) && pos < |clean| && clean[pos] <= 1
    ensures Reading(clean, pos + 1, cap, done)
  {
    assert clean[pos..][1..] == clean[pos + 1..];
  }

  lemma ReadAll(clean: seq<byte>, cap: nat, done: seq<Piece>)
    requires Reading(clean, |clean|, cap, done)
    ensures Parse(clean) == Some(done) && (Accepted(clean, cap) <==> done != [])
  {
    assert clean[|clean|..] == [] && done + [] == done;
  }

  lemma ReadStart(clean: seq<byte>, cap: nat)
    ensures Reading(clean, 0, cap, [])
  {
    assert clean[0..] == clean;
    if Parse(clean).Some? {
      assert [] + Parse(clean).value == Parse(clean).value;
    }
  }

  /** The loop over the frames of the packet. */
  method ReadFrames(clean: seq<byte>, defrag: array<byte>, cap: nat, ranges: array<Range>)
    returns (ok: bool, range: nat, szmax: nat, ghost kept: seq<Piece>)
    requires 10 + cap <= defrag.Length && ranges.Length == MaxPieces
    modifies defrag, ranges
    ensures ok <==> Accepted(clean, cap)
    ensures ok ==> range == |kept| <= MaxPieces && kept == Kept(Parse(clean).value) && kept != [] && szmax == MaxEnd(kept) <= cap
    ensures ok ==> ranges[..range] == Ranges(kept) && Filled(defrag[..], old(defrag[..]), kept)
  {
    hide Kept, Parse, CryptoAt, Reading, Filled, Accepted, MaxEnd, Ranges, Repeats;
    ghost var before := defrag[..];
    ghost var done: seq<Piece> := [];
    var pos, zeropos, found := 0, 0, false;
    ok, range, szmax, kept := false, 0, 0, [];
    ReadStart(clean, cap);
    NothingKept(before, ranges[..0]);
    while pos < |clean|
      invariant Reading(clean, pos, cap, done) && pos <= |clean| && !ok
      invariant kept == Kept(done) && range == |kept| <= MaxPieces && ranges[..range] == Ranges(kept)
      invariant zeropos == szmax == MaxEnd(kept) <= cap && Filled(defrag[..], before, kept) && (found <==> done != [])
      invariant done != [] ==> kept != []
    {
      var ft := clean[pos];
      if ft <= 1 {
        ReadSkip(clean, pos, cap, done);
        pos := pos + 1;
        continue;
      }
      UnknownFrame(clean, pos, cap, done);
      if ft != 6 || pos + 1 >= |clean| {
        return;
      }
      if range >= MaxPieces {
        ReadTooMany(clean, pos, cap, done);
        return;
      }
      var got, off, sz, at := ReadCrypto(clean, pos + 1);
      if !got {
        return;
      }
      var p := Piece(off, clean[at..at + sz]);
      ReadPast(clean, pos, cap, done, p, at + sz - pos - 1);
      if off + sz > cap {
        return;
      }
      Snoc(done, p);
      Snoc(kept, p);
      var repeat := IsRepeat(ranges, range, off, sz, kept, p);
      if !repeat {
        CopyPiece(defrag, zeropos, p, before, kept);
        zeropos := if off + sz > zeropos then off + sz else zeropos;
        szmax := if off + sz > szmax then off + sz else szmax;
        RangesSnoc(kept, p);
        ranges[range] := Range(off, sz);
        assert ranges[..range + 1] == Ranges(kept) + [Range(off, sz)];
        range, kept := range + 1, kept + [p];
      }
      done, found, pos := done + [p], true, at + sz;
      RepeatsSome(kept, p, repeat);
    }
    ReadAll(clean, cap, done);
    ok := found;
  }

  lemma NothingKept(before: seq<byte>, s: seq<Range>)
    requires s == [] && |before| >= 10
    ensures Filled(before, before, []) && MaxEnd([]) == 0 && Kept([]) == [] && s == Ranges([])
  {
  }

  lemma UnknownFrame(clean: seq<byte>, pos: nat, cap: nat, done: seq<Piece>)
    requires Reading(clean, pos, cap, done) && pos < |clean| && clean[pos] > 1
    ensures clean[pos] != 6 || pos + 1 >= |clean| || CryptoAt(clean[pos + 1..]).None? ==> !Accepted(clean, cap)
  {
    assert clean[pos..][1..] == clean[pos + 1..];
    if clean[pos] != 6 || CryptoAt(clean[pos + 1..]).None? {
      ReadNone(clean, pos, cap, done);
    } else {
    }
  }

  lemma RepeatsSome(kept: seq<Piece>, p: Piece, repeat: bool)
    requires if repeat then Repeats(kept, p) else kept != []
    ensures kept != []
  {
  }

  lemma RangesSnoc(kept: seq<Piece>, p: Piece)
    ensures Ranges(kept + [p]) == Ranges(kept) + [Range(p.off, |p.data|)]
  {
  }

  /** The header before the data: type, offset 0, and the length with the two upper bits set. */
  method WriteHeader(defrag: array<byte>, szmax: nat)
    requires defrag.Length >= 10 && szmax < VarintLimit(3)
    modifies defrag
    ensures defrag[..10] == [6, 0] + Varint(3, szmax) && defrag[10..] == old(defrag[10..])
  {
    defrag[0], defrag[1] := 6, 0;
    var be := ToBE(szmax, 8);
    forall k | 0 <= k < 8 {
      defrag[2 + k] := be[k];
    }
    TopByte(szmax, 8);
    defrag[2] := defrag[2] + 0xC0;
  }

  lemma WholeHeader(s: seq<byte>)
    requires |s| < VarintLimit(3)
    ensures Whole(s).Valid() && Whole(s).Encode() == [6, 0] + Varint(3, |s|) + s
  {
    assert ToBE(0, 1) == [0] by {
      assert ToBE(0, 0) == [];
    }
    assert Varint(0, 0) == [0];
  }

  /** `QUICDefragCrypto`: accepts exactly the packets described by `Accepted`, and then leaves in the buffer one
      CRYPTO frame with the overlay of the different pieces; `full` says that it has no gap. */
  method QUICDefragCrypto(clean: seq<byte>, defrag: array<byte>, defragLen: nat) returns (ok: bool, newLen: nat, full: bool)
    requires defragLen <= defrag.Length && defragLen < VarintLimit(3)
    modifies defrag
    ensures ok <==> defragLen >= 10 && Accepted(clean, defragLen - 10)
    ensures ok ==> var kept := Kept(Parse(clean).value);
                   newLen == 10 + |Overlay(kept)| <= defragLen && (full <==> Complete(kept)) &&
                   Whole(Overlay(kept)).Valid() && defrag[..newLen] == Whole(Overlay(kept)).Encode() &&
                   defrag[newLen..] == old(defrag[newLen..])
    ensures !ok ==> newLen == defragLen
  {
    hide Kept, Parse, Complete, Accepted, Merged, Ranges, Sorted, Varint, VarintLimit, MaxEnd;
    ok, newLen, full := false, defragLen, false;
    if defragLen < 10 {
      return;
    }
    ghost var before := defrag[..];
    var ranges := new Range[MaxPieces];
    var range, szmax;
    ghost var kept;
    ok, range, szmax, kept := ReadFrames(clean, defrag, defragLen - 10, ranges);
    if ok {
      ghost var r := Ranges(kept);
      SortRanges(ranges, range);
      ghost var s := ranges[..range];
      SameRanges(kept, s);
      var count := Merge(ranges, range);
      ghost var m := ranges[..count];
      OneRange(kept, s, m);
      ghost var buf := defrag[..];
      WriteHeader(defrag, szmax);
      newLen := szmax + 10;
      full := count == 1 && ranges[0].off == 0;
      Assembled(before, buf, defrag[..], kept);
    }
  }

  lemma Assembled(before: seq<byte>, buf: seq<byte>, now: seq<byte>, kept: seq<Piece>)
    requires Filled(buf, before, kept) && |now| == |buf| && |before| >= 10 && now[10..] == buf[10..]
    requires MaxEnd(kept) < VarintLimit(3) && now[..10] == [6, 0] + Varint(3, MaxEnd(kept))
    ensures var n := 10 + MaxEnd(kept);
            Whole(Overlay(kept)).Valid() && now[..n] == Whole(Overlay(kept)).Encode() && now[n..] == before[n..]
  {
    hide Varint, VarintLimit, Whole;
    var n := 10 + MaxEnd(kept);
    WholeHeader(Overlay(kept));
    forall i | 10 <= i < |now|
      ensures now[i] == buf[i]
    {
      assert now[10..][i - 10] == buf[10..][i - 10];
    }
    assert now[..n] == now[..10] + now[10..n];
    assert now[10..n] == Overlay(kept);
  }

  // ----- What it is for -----

  /** However a stream is cut into frames, and whatever is repeated or put between them, defragmenting gives the
      stream back, complete, in one frame; refused is only what has 128 different frames before the last one. */
  lemma AnyCutting(s: seq<byte>, fs: seq<Frame>, cap: nat)
    requires ValidFrames(fs) && Cuts(s, Pieces(fs)) && |s| <= cap
    ensures var ps := Pieces(fs);
            Parse(EncodeAll(fs)) == Some(ps) && Overlay(Kept(ps)) == s && Complete(Kept(ps)) &&
            (Accepted(EncodeAll(fs), cap) <==> |Kept(ps[..|ps| - 1])| < 128)
  {
    ParseEncoding(fs);
    CutsRestore(s, Pieces(fs));
  }

  /** Fewer than 128 different frames are always accepted, with any number of repetitions, and so are 128 when
      the last is not a repetition. */
  lemma FewPieces(s: seq<byte>, fs: seq<Frame>, cap: nat)
    requires ValidFrames(fs) && Cuts(s, Pieces(fs)) && |s| <= cap
    requires var ps := Pieces(fs); |Kept(ps)| < 128 || (|Kept(ps)| == 128 && Kept(ps[..|ps| - 1]) != Kept(ps))
    ensures Accepted(EncodeAll(fs), cap)
  {
    hide Kept, Cuts, Accepted, EncodeAll, ValidFrames, Pieces;
    var ps := Pieces(fs);
    AnyCutting(s, fs, cap);
    NotNothing(s, ps);
    var u := ps[..|ps| - 1];
    Snoc(u, ps[|ps| - 1]);
    assert ps == u + [ps[|ps| - 1]];
  }

  lemma NotNothing(s: seq<byte>, ps: seq<Piece>)
    requires Cuts(s, ps)
    ensures ps != []
  {
  }

  /** `n` frames of one zero byte each. */
  ghost function Singles(n: nat): seq<Frame> {
    seq(n, (i: nat) => Crypto(Piece(i, [0]), 1, 0))
  }

  lemma {:induction false} KeptSingles(n: nat)
    requires n <= MaxPieces
    ensures ValidFrames(Singles(n)) && |Pieces(Singles(n))| == n && Kept(Pieces(Singles(n))) == Pieces(Singles(n))
    ensures forall i :: 0 <= i < n ==> Pieces(Singles(n))[i] == Piece(i, [0])
  {
    assert VarintLimit(1) == 64 * 256 && VarintLimit(0) == 64;
    if n > 0 {
      KeptSingles(n - 1);
      var f := Crypto(Piece(n - 1, [0]), 1, 0);
      assert Singles(n) == Singles(n - 1) + [f];
      PiecesSnoc(Singles(n - 1), f);
      Snoc(Pieces(Singles(n - 1)), f.piece);
    }
  }

  lemma {:induction false} PiecesSnoc(fs: seq<Frame>, f: Frame)
    ensures Pieces(fs + [f]) == Pieces(fs) + PieceOf(f)
  {
    if fs == [] {
      assert fs + [f] == [f];
      assert [f][1..] == [];
    } else {
      assert (fs + [f])[1..] == fs[1..] + [f];
      PiecesSnoc(fs[1..], f);
    }
  }

  /** At most 128 different frames are not enough: 128 of them and one repetition are refused, though they cut
      a stream that fits. */
  lemma RepetitionRefused(cap: nat)
    requires cap >= 128
    ensures var fs := Singles(128) + [Singles(128)[0]];
            ValidFrames(fs) && Cuts(seq(128, _ => 0), Pieces(fs)) && |Kept(Pieces(fs))| == 128 &&
            !Accepted(EncodeAll(fs), cap)
  {
    hide Kept, Parse, Accepted, Cuts, VarintLimit;
    var f := Singles(MaxPieces)[0];
    var fs, s := Singles(MaxPieces) + [f], seq(MaxPieces, _ => 0);
    KeptSingles(MaxPieces);
    var ps := Pieces(Singles(MaxPieces));
    PiecesSnoc(Singles(MaxPieces), f);
    Snoc(ps, f.piece);
    assert Repeats(ps, f.piece) by {
      assert ps[0].off == f.piece.off;
    }
    SinglesCut(s, ps, f.piece);
    AnyCutting(s, fs, cap);
  }

  lemma SinglesCut(s: seq<byte>, ps: seq<Piece>, p: Piece)
    requires |ps| == |s| > 0 && (forall i :: 0 <= i < |s| ==> s[i] == 0 && ps[i] == Piece(i, [0])) && p == ps[0]
    ensures Cuts(s, ps + [p])
  {
    forall k: nat | k < |s|
      ensures Covered(ps + [p], k)
    {
      assert (ps + [p])[k].Covers(k);
    }
  }

  /** Defragmenting an output gives it back. */
  lemma WholeAgain(s: seq<byte>, cap: nat)
    requires |s| < VarintLimit(3) && |s| <= cap
    ensures Whole(s).Valid() && Accepted(Whole(s).Encode(), cap)
    ensures var kept := Kept(Parse(Whole(s).Encode()).value);
            Overlay(kept) == s && Complete(kept) && Whole(Overlay(kept)).Encode() == Whole(s).Encode()
  {
    var fs := [Whole(s)];
    assert fs[1..] == [] && EncodeAll(fs) == Whole(s).Encode() + [];
    assert EncodeAll(fs) == Whole(s).Encode();
    WholeHeader(s);
    assert Pieces(fs) == [Piece(0, s)];
    forall k: nat | k < |s|
      ensures Covered(Pieces(fs), k)
    {
      assert Pieces(fs)[0].Covers(k);
    }
    assert Kept([]) == [];
    assert Pieces(fs)[..0] == [];
    AnyCutting(s, fs, cap);
  }
}
