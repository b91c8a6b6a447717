/** Hello messages of TLS as they are written (section 4.1 of RFC 8446, section 7.4.1 of RFC 5246), field by field, and
    what the readers of `TlsHello` find in them. */
module HelloEncoding {
  import opened Bytes
  import opened Wrappers
  import opened TlsHello

  // ----- Writing -----

  function N16(n: nat): (s: seq<byte>)
    requires n < 0x1_0000
    ensures |s| == 2
  {
    [n / 256, n % 256]
  }

  function N24(n: nat): (s: seq<byte>)
    requires n < 0x100_0000
    ensures |s| == 3
  {
    [n / 0x1_0000, n / 256 % 256, n % 256]
  }

  /** What a client offers and what a server has chosen. */
  datatype Params = Client(suites: seq<byte>, compressions: seq<byte>) | Server(suite: seq<byte>, compression: byte) {
    ghost predicate Valid() {
      if Client? then |suites| < 0x1_0000 && |compressions| < 256 else |suite| == 2
    }

    ghost function Bytes(): seq<byte>
      requires Valid()
    {
      if Client? then N16(|suites|) + suites + ([|compressions|] + compressions) else suite + [compression]
    }
  }

  /** A hello up to its extensions; `version` and `minor` are the second bytes of the two version numbers. */
  datatype Hello = Hello(version: byte, minor: byte, random: seq<byte>, session: seq<byte>, params: Params) {
    ghost predicate Valid() {
      version <= 3 && minor <= 3 && |random| == 32 && |session| < 256 && params.Valid()
    }

    /** The first eleven bytes: record type, record version and length, handshake type, handshake length, version. */
    ghost function Head(record: nat, handshake: nat): (s: seq<byte>)
      requires Valid() && record < 0x1_0000 && handshake < 0x100_0000
      ensures |s| == 11
    {
      [0x16, 3, version] + N16(record) + [if params.Client? then 1 else 2] + N24(handshake) + [3, minor]
    }

    /** The message with the two lengths given, and some bytes of extensions. */
    ghost function Encode(record: nat, handshake: nat, exts: seq<byte>): seq<byte>
      requires Valid() && record < 0x1_0000 && handshake < 0x100_0000 && |exts| < 0x1_0000
    {
      Head(record, handshake) + random + ([|session|] + session) + params.Bytes() + (N16(|exts|) + exts)
    }
  }

  /** The lengths may leave room: the handshake must fit into the record, the record into the buffer, and the
      extensions into the record. */
  ghost predicate Fits(h: Hello, record: nat, handshake: nat, exts: seq<byte>, rest: seq<byte>) {
    h.Valid() && record < 0x1_0000 && handshake + 4 <= record && |exts| < 0x1_0000 &&
    var n := |h.Encode(record, handshake, exts)|;
    n <= record + 5 <= n + |rest|
  }

  // ----- Reading a message that was written -----

  lemma ReadN16(s: seq<byte>, p: nat, n: nat)
    requires n < 0x1_0000 && p + 2 <= |s| && s[p..p + 2] == N16(n)
    ensures U16(s, p) == n
  {
    assert s[p] == s[p..p + 2][0] && s[p + 1] == s[p..p + 2][1];
    DivMod(n, 256);
  }

  lemma ReadN24(s: seq<byte>, p: nat, n: nat)
    requires n < 0x100_0000 && p + 3 <= |s| && s[p..p + 3] == N24(n)
    ensures U24(s, p) == n
  {
    assert s[p] == s[p..p + 3][0] && s[p + 1] == s[p..p + 3][1] && s[p + 2] == s[p..p + 3][2];
    Bytes24(n);
  }

  lemma Inner(s: seq<byte>, p: nat, q: nat, a: nat, b: nat)
    requires p <= q <= |s| && a <= b <= q - p
    ensures s[p..q][a..b] == s[p + a..p + b]
  {
    assert forall i :: 0 <= i < b - a ==> s[p..q][a..b][i] == s[p + a..p + b][i];
  }

  /** Where the parts are. */
  lemma Parts(a: seq<byte>, b: seq<byte>, c: seq<byte>, d: seq<byte>, e: seq<byte>, rest: seq<byte>)
    ensures var s := a + b + c + d + e + rest;
            var (i, j, k, l) := (|a|, |a| + |b|, |a| + |b| + |c|, |a| + |b| + |c| + |d|);
            s[..i] == a && s[i..j] == b && s[j..k] == c && s[k..l] == d && s[l..l + |e|] == e && s[l + |e|..] == rest
  {
    var x := a + b;
    var y := x + c;
    var z := y + d;
    var w := z + e;
    Kept(x, c, d, e, rest, 0, |a|);
    Kept(x, c, d, e, rest, |a|, |x|);
    Kept(y, d, e, rest, [], |x|, |y|);
    Kept(z, e, rest, [], [], |y|, |z|);
    Kept(w, rest, [], [], [], |z|, |w|);
    Ends(a, b);
    Ends(x, c);
    Ends(y, d);
    Ends(z, e);
    Ends(w, rest);
  }

  lemma Ends(s: seq<byte>, t: seq<byte>)
    ensures (s + t)[|s|..] == t && (s + t)[0..|s|] == s == (s + t)[..|s|] && (s + t)[|s|..|s + t|] == t
    ensures s + [] == s
  {
  }

  /** A part stays where it is. */
  lemma Kept(s: seq<byte>, t: seq<byte>, u: seq<byte>, v: seq<byte>, w: seq<byte>, i: nat, j: nat)
    requires i <= j <= |s|
    ensures (s + t + u + v + w)[i..j] == s[i..j]
  {
    KeptOne(s, t, i, j);
    KeptOne(s + t, u, i, j);
    KeptOne(s + t + u, v, i, j);
    KeptOne(s + t + u + v, w, i, j);
  }

  lemma KeptOne(s: seq<byte>, t: seq<byte>, i: nat, j: nat)
    requires i <= j <= |s|
    ensures (s + t)[i..j] == s[i..j]
  {
  }

  lemma HeadRead(h: Hello, record: nat, handshake: nat, s: seq<byte>)
    requires h.Valid() && record < 0x1_0000 && handshake < 0x100_0000 && |s| >= 11 && s[..11] == h.Head(record, handshake)
    ensures s[0] == 0x16 && s[1] == 3 && s[2] == h.version && s[5] == (if h.params.Client? then 1 else 2) && s[9] == 3 && s[10] == h.minor
    ensures U16(s, 3) == record && U24(s, 6) == handshake
  {
    hide U16, U24;
    var t := h.Head(record, handshake);
    assert forall i :: 0 <= i < 11 ==> s[i] == t[i];
    assert s[3..5] == N16(record);
    assert s[6..9] == N24(handshake);
    ReadN16(s, 3, record);
    ReadN24(s, 6, handshake);
  }

  /** The offset of the length of the extensions, from the lengths of session id, suites and compression methods. */
  lemma OffsetRead(h: Hello, s: seq<byte>, n: nat)
    requires h.Valid() && |s| >= n >= 44 && s[43] as int == |h.session| && (s[5] == 1 <==> h.params.Client?)
    requires var a := 44 + |h.session|;
             var c := a + |h.params.Bytes()|;
             c + 2 <= n && s[a..c] == h.params.Bytes()
    ensures ExtLenOffset(s, n) == Some(44 + |h.session| + |h.params.Bytes()|)
  {
    hide U16;
    var a := 44 + |h.session|;
    var p := h.params.Bytes();
    if h.params.Client? {
      var (u, v) := (h.params.suites, h.params.compressions);
      assert p == N16(|u|) + u + ([|v|] + v);
      assert p[0..2] == N16(|u|);
      Inner(s, a, a + |p|, 0, 2);
      ReadN16(s, a, |u|);
      var b := a + 2 + |u|;
      assert s[b] == s[a..a + |p|][b - a] == |v|;
    }
  }

  /** Whatever is written is read: the message is accepted, as that of a client exactly if it is, and its extensions
      are where they were written. */
  lemma EncodedRange(h: Hello, record: nat, handshake: nat, exts: seq<byte>, rest: seq<byte>)
    requires Fits(h, record, handshake, exts, rest)
    ensures var (e, s) := (h.Encode(record, handshake, exts), h.Encode(record, handshake, exts) + rest);
            IsHello(s, true) && (IsHello(s, false) <==> h.params.Client?) &&
            ExtRange(s) == Some((|e| - |exts|, |e|)) && s[|e| - |exts|..|e|] == exts
  {
    hide U16, U24, ExtLenOffset, Params.Bytes, Hello.Head, N16;
    var (a, b, c, d, e) := (h.Head(record, handshake), h.random, [|h.session|] + h.session, h.params.Bytes(), N16(|exts|) + exts);
    var s := h.Encode(record, handshake, exts) + rest;
    assert s == a + b + c + d + e + rest;
    Parts(a, b, c, d, e, rest);
    HeadRead(h, record, handshake, s);
    var k := 44 + |h.session|;
    var l := k + |d|;
    assert s[43] == s[43..k][0] && s[43..k] == c;
    OffsetRead(h, s, record + 5);
    assert s[l..l + 2] == s[l..l + |e|][..2] == N16(|exts|);
    ReadN16(s, l, |exts|);
    assert s[l + 2..l + |e|] == s[l..l + |e|][2..] == exts;
  }

  // ----- Only what was written is read -----

  lemma WrittenN16(s: seq<byte>, p: nat)
    requires p + 2 <= |s|
    ensures U16(s, p) < 0x1_0000 && s[p..p + 2] == N16(U16(s, p))
  {
    DivUnique(U16(s, p), 256, s[p], s[p + 1]);
  }

  lemma WrittenN24(s: seq<byte>, p: nat)
    requires p + 3 <= |s|
    ensures U24(s, p) < 0x100_0000 && s[p..p + 3] == N24(U24(s, p))
  {
    var n := U24(s, p);
    DivUnique(n, 256, 256 * (s[p] as int) + s[p + 1], s[p + 2]);
    DivUnique(n, 0x1_0000, s[p], 256 * (s[p + 1] as int) + s[p + 2]);
    DivUnique(n / 256, 256, s[p], s[p + 1]);
  }

  /** The parameters between the session id and the extensions. */
  lemma ParamsAt(s: seq<byte>, n: nat, l: nat) returns (params: Params)
    requires n <= |s| && ExtLenOffset(s, n) == Some(l)
    ensures params.Valid() && (params.Client? <==> s[5] == 1) && 44 + s[43] as int <= l <= |s| && s[44 + s[43] as int..l] == params.Bytes()
  {
    hide U16;
    var a := 44 + s[43] as int;
    if s[5] == 1 {
      var b := a + 2 + U16(s, a);
      WrittenN16(s, a);
      params := Client(s[a + 2..b], s[b + 1..l]);
      assert s[b..l] == [s[b]] + s[b + 1..l];
      assert s[a..b] == s[a..a + 2] + s[a + 2..b];
      assert s[a..l] == s[a..b] + s[b..l];
    } else {
      params := Server(s[a..a + 2], s[a + 2]);
      assert s[a..l] == s[a..a + 2] + [s[a + 2]];
    }
  }

  lemma HeadWritten(s: seq<byte>, h: Hello)
    requires IsHello(s, true) && h.Valid() && h.version == s[2] && h.minor == s[10] && (h.params.Client? <==> s[5] == 1)
    ensures U16(s, 3) < 0x1_0000 && U24(s, 6) < 0x100_0000 && s[..11] == h.Head(U16(s, 3), U24(s, 6))
  {
    hide U16, U24;
    WrittenN16(s, 3);
    WrittenN24(s, 6);
    assert s[..11] == [s[0], s[1], s[2]] + s[3..5] + [s[5]] + s[6..9] + [s[9], s[10]];
  }

  /** What is accepted has this form. */
  lemma RangeEncoded(s: seq<byte>) returns (h: Hello, record: nat, handshake: nat, exts: seq<byte>, rest: seq<byte>)
    requires ExtRange(s).Some?
    ensures Fits(h, record, handshake, exts, rest) && s == h.Encode(record, handshake, exts) + rest
    ensures ExtRange(s) == Some((|h.Encode(record, handshake, exts)| - |exts|, |h.Encode(record, handshake, exts)|))
  {
    hide U16, U24, ExtLenOffset, Params.Bytes, Hello.Head;
    var (p, q) := ExtRange(s).value;
    var l, k := p - 2, 44 + s[43] as int;
    record, handshake, exts, rest := U16(s, 3), U24(s, 6), s[p..q], s[q..];
    var params := ParamsAt(s, RecordEnd(s), l);
    h := Hello(s[2], s[10], s[11..43], s[44..k], params);
    HeadWritten(s, h);
    WrittenN16(s, l);
    assert s[43..k] == [s[43]] + s[44..k];
    SixParts(s, 11, 43, k, l, p, q);
  }

  lemma SixParts(s: seq<byte>, a: nat, b: nat, c: nat, d: nat, e: nat, f: nat)
    requires a <= b <= c <= d <= e <= f <= |s|
    ensures s == s[..a] + s[a..b] + s[b..c] + s[c..d] + (s[d..e] + s[e..f]) + s[f..]
  {
    assert s[..b] == s[..a] + s[a..b];
    assert s[..c] == s[..b] + s[b..c];
    assert s[..d] == s[..c] + s[c..d];
    assert s[..f] == s[..d] + (s[d..e] + s[e..f]);
    assert s == s[..f] + s[f..];
  }

  // ----- The list of extensions -----

  ghost predicate ValidExts(xs: seq<Ext>) {
    forall x :: x in xs ==> x.typ < 0x1_0000 && |x.data| < 0x1_0000
  }

  ghost function EncodeExt(x: Ext): seq<byte>
    requires x.typ < 0x1_0000 && |x.data| < 0x1_0000
  {
    N16(x.typ) + N16(|x.data|) + x.data
  }

  ghost function EncodeExts(xs: seq<Ext>): seq<byte>
    requires ValidExts(xs)
  {
    if xs == [] then [] else EncodeExt(xs[0]) + EncodeExts(xs[1..])
  }

  /** An extension at `p`. */
  lemma ExtRead(s: seq<byte>, p: nat, e: nat, x: Ext)
    requires x.typ < 0x1_0000 && |x.data| < 0x1_0000 && p + 4 + |x.data| <= e <= |s| && s[p..p + 4 + |x.data|] == EncodeExt(x)
    ensures U16(s, p) == x.typ && U16(s, p + 2) == |x.data| && s[p + 4..p + 4 + |x.data|] == x.data
    ensures ExtList(s, p, e) == [x] + ExtList(s, p + 4 + |x.data|, e)
  {
    hide U16;
    var t := s[p..p + 4 + |x.data|];
    assert s[p..p + 2] == t[..2] == N16(x.typ);
    assert t[2..4] == N16(|x.data|) && t[4..4 + |x.data|] == x.data;
    Inner(s, p, p + 4 + |x.data|, 2, 4);
    Inner(s, p, p + 4 + |x.data|, 4, 4 + |x.data|);
    ReadN16(s, p, x.typ);
    ReadN16(s, p + 2, |x.data|);
  }

  /** Extensions one after the other are read as they were written. */
  lemma {:induction false} ExtsRead(s: seq<byte>, p: nat, e: nat, xs: seq<Ext>)
    requires ValidExts(xs) && p <= e <= |s| && s[p..e] == EncodeExts(xs)
    ensures ExtList(s, p, e) == xs
    decreases |xs|
  {
    hide U16, EncodeExt;
    if xs != [] {
      var x := xs[0];
      var q := p + |EncodeExt(x)|;
      ExtSize(x);
      CutBoth(s, p, e, EncodeExt(x), EncodeExts(xs[1..]));
      ExtRead(s, p, e, x);
      ExtsRead(s, q, e, xs[1..]);
    }
  }

  lemma CutBoth(s: seq<byte>, p: nat, e: nat, a: seq<byte>, b: seq<byte>)
    requires p <= e <= |s| && s[p..e] == a + b
    ensures p + |a| <= e && s[p..p + |a|] == a && s[p + |a|..e] == b
  {
    Ends(a, b);
    Inner(s, p, e, 0, |a|);
    Inner(s, p, e, |a|, e - p);
  }

  lemma ExtSize(x: Ext)
    requires x.typ < 0x1_0000 && |x.data| < 0x1_0000
    ensures |EncodeExt(x)| == 4 + |x.data|
  {
  }

  /** The message with its extensions, and what may follow it. */
  ghost function Message(h: Hello, record: nat, handshake: nat, xs: seq<Ext>, rest: seq<byte>): seq<byte>
    requires ValidExts(xs) && Fits(h, record, handshake, EncodeExts(xs), rest)
  {
    h.Encode(record, handshake, EncodeExts(xs)) + rest
  }

  /** Every message of a client or a server, with any parameters, has exactly the extensions it was written with, and a
      search finds the data of the first one of a type. */
  lemma MessageRead(h: Hello, record: nat, handshake: nat, xs: seq<Ext>, rest: seq<byte>, typ: nat, k: nat)
    requires ValidExts(xs) && Fits(h, record, handshake, EncodeExts(xs), rest)
    requires k <= |xs| && (k < |xs| ==> xs[k].typ == typ) && forall j :: 0 <= j < k ==> xs[j].typ != typ
    ensures var s := Message(h, record, handshake, xs, rest);
            Exts(s) == xs && (IsHello(s, false) <==> h.params.Client?) &&
            var r := FindExt(s, typ);
            if k < |xs| then r.Some? && r.value.0 + r.value.1 <= |s| && s[r.value.0..r.value.0 + r.value.1] == xs[k].data else r.None?
  {
    hide ExtRange, FindExt, IsHello, EncodeExts, Fits, Hello.Encode, FoundFirst, ExtList, First;
    var (s, e) := (Message(h, record, handshake, xs, rest), EncodeExts(xs));
    EncodedRange(h, record, handshake, e, rest);
    EncodedSize(h, record, handshake, e, rest);
    var n := |h.Encode(record, handshake, e)|;
    ExtsRead(s, n - |e|, n, xs);
    FindFirst(s, typ);
    FirstUnique(xs, typ, k);
    FirstFound(s, xs, typ, k, FindExt(s, typ));
  }

  lemma EncodedSize(h: Hello, record: nat, handshake: nat, exts: seq<byte>, rest: seq<byte>)
    requires Fits(h, record, handshake, exts, rest)
    ensures h.Valid() && record < 0x1_0000 && handshake < 0x100_0000 && |exts| < 0x1_0000 && |exts| <= |h.Encode(record, handshake, exts)|
  {
  }

  lemma FirstFound(s: seq<byte>, xs: seq<Ext>, typ: nat, k: nat, r: Option<(nat, nat)>)
    requires FoundFirst(s, xs, typ, r) && First(xs, typ) == k
    ensures if k < |xs| then r.Some? && r.value.0 + r.value.1 <= |s| && s[r.value.0..r.value.0 + r.value.1] == xs[k].data else r.None?
  {
    hide First;
  }

  lemma {:induction false} FirstUnique(xs: seq<Ext>, typ: nat, k: nat)
    requires k <= |xs| && (k < |xs| ==> xs[k].typ == typ) && forall j :: 0 <= j < k ==> xs[j].typ != typ
    ensures First(xs, typ) == k
  {
    if k > 0 {
      FirstUnique(xs[1..], typ, k - 1);
    }
  }

  // ----- The server name -----

  /** The data of a server name extension with one host name (section 3 of RFC 6066). */
  ghost function NameData(name: seq<byte>): seq<byte>
    requires |name| + 3 < 0x1_0000
  {
    N16(|name| + 3) + [0] + N16(|name|) + name
  }

  /** The host of a message is the name in its first server name extension, with capital letters made small. */
  lemma MessageHost(h: Hello, record: nat, handshake: nat, xs: seq<Ext>, rest: seq<byte>, k: nat, name: seq<byte>)
    requires ValidExts(xs) && Fits(h, record, handshake, EncodeExts(xs), rest)
    requires k < |xs| && xs[k].typ == 0 && (forall j :: 0 <= j < k ==> xs[j].typ != 0)
    requires |name| + 3 < 0x1_0000 && xs[k].data == NameData(name)
    ensures var r := ExtractHost(Message(h, record, handshake, xs, rest));
            r.Some? && |r.value| == |name| &&
            forall i :: 0 <= i < |name| ==> r.value[i] == if 65 <= name[i] <= 90 then name[i] + 32 else name[i]
  {
    hide FindExt, Message, U16, First, HostInSni, ExtractHost, LowerAll, NameData, Exts, IsHello, EncodeExts;
    MessageRead(h, record, handshake, xs, rest, 0, k);
    var s := Message(h, record, handshake, xs, rest);
    var (e, n) := FindExt(s, 0).value;
    NameRead(s, e, n, name);
    HostIs(s, e, n, name);
  }

  lemma HostIs(s: seq<byte>, e: nat, n: nat, name: seq<byte>)
    requires FindExt(s, 0) == Some((e, n)) && e + n <= |s| && HostInSni(s, e, n) == Some((e + 5, |name|))
    requires e + 5 + |name| <= |s| && s[e + 5..e + 5 + |name|] == name
    ensures ExtractHost(s) == Some(LowerAll(name))
    ensures |LowerAll(name)| == |name|
    ensures forall i :: 0 <= i < |name| ==> LowerAll(name)[i] == if 65 <= name[i] <= 90 then name[i] + 32 else name[i]
  {
    hide FindExt, HostInSni;
  }

  lemma NameRead(s: seq<byte>, e: nat, n: nat, name: seq<byte>)
    requires e + n <= |s| && |name| + 3 < 0x1_0000 && s[e..e + n] == NameData(name)
    ensures HostInSni(s, e, n) == Some((e + 5, |name|)) && s[e + 5..e + 5 + |name|] == name
  {
    hide U16;
    var t := s[e..e + n];
    assert t[0..2] == N16(|name| + 3) && t[3..5] == N16(|name|) && t[5..n] == name;
    Inner(s, e, e + n, 0, 2);
    Inner(s, e, e + n, 3, 5);
    Inner(s, e, e + n, 5, n);
    assert s[e + 2] == t[2];
    ReadN16(s, e, |name| + 3);
    ReadN16(s, e + 3, |name|);
  }
  /** A name replaced in such data gives the data of the new name. */
  lemma NewName(was: seq<byte>, name: seq<byte>)
    requires |was| + 3 < 0x1_0000 && |name| + 3 < 0x1_0000
    ensures NewSni(NameData(was), |was|, name) == NameData(name)
  {
    hide Put16, U16;
    var (x, d) := (NameData(was), |name| - |was|);
    NameRead(x, 0, |x|, was);
    assert x[0..|x|] == x && x[5 + |was|..] == [];
    assert x[0..2] == N16(|was| + 3);
    ReadN16(x, 0, |was| + 3);
    var h := Put16(Put16(x[..5], 0, |name| + 3), 3, |name|);
    HeadFields(x[..5], |name| + 3, |name|);
    WrittenN16(h, 0);
    WrittenN16(h, 3);
    assert h == h[0..2] + [h[2]] + h[3..5];
    assert (U16(x, 0) + d) % 0x1_0000 == |name| + 3;
    assert NewSni(x, |was|, name) == h + name + [];
  }
}
