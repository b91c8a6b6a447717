/** ClientHello records of TLS as `nfq2/protocol.c` reads them, and the replacement of the server name
    (section 3 of RFC 6066) in `TLSMod`, which has six nested length fields to keep in step. */
module TlsHello {
  import opened Bytes
  import opened Wrappers

  function U16(s: seq<byte>, p: nat): nat
    requires p + 2 <= |s|
  {
    256 * (s[p] as int) + s[p + 1]
  }

  function U24(s: seq<byte>, p: nat): nat
    requires p + 3 <= |s|
  {
    256 * U16(s, p) + s[p + 2]
  }

  // ----- Reading -----

  /** `IsTLSHello` with the checks for a full record, for a hello of a client or, with `anyType`, also of a server. */
  predicate IsHello(s: seq<byte>, anyType: bool) {
    |s| >= 11 && s[0] == 0x16 && s[1] == 3 && s[2] <= 3 && U16(s, 3) + 5 <= |s| &&
    (s[5] == 1 || (anyType && s[5] == 2)) && s[9] == 3 && s[10] <= 3 && U24(s, 6) + 4 <= |s| - 5
  }

  /** `TLSFindExtLenOffsetInHandshake` for the handshake from byte 5 to `n`: where the length of the extensions
      is. */
  function ExtLenOffset(s: seq<byte>, n: nat): (r: Option<nat>)
    requires n <= |s|
    ensures r.Some? ==> 47 <= r.value && r.value + 2 <= n
  {
    if n < 44 then None
    else
      var a: nat := 44 + s[43] as nat;
      if n < a + 2 then None
      else
        var b := a + 2 + if s[5] == 1 then U16(s, a) else 0;
        if n < b + 1 then None
        else
          var c := b + 1 + if s[5] == 1 then s[b] as nat else 0;
          if n < c + 2 then None else Some(c)
  }

  /** The loop of `TLSFindExtInHandshake`, for the extensions from `p` to `e`: data and length of the first one
      of the type. */
  function FindFrom(s: seq<byte>, p: nat, e: nat, typ: nat): (r: Option<(nat, nat)>)
    requires p <= e <= |s|
    ensures r.Some? ==> p + 4 <= r.value.0 && r.value.0 + r.value.1 <= e && U16(s, r.value.0 - 4) == typ && U16(s, r.value.0 - 2) == r.value.1
    decreases e - p
  {
    if e - p < 4 || e - p - 4 < U16(s, p + 2) then None
    else if U16(s, p) == typ then Some((p + 4, U16(s, p + 2)))
    else FindFrom(s, p + 4 + U16(s, p + 2), e, typ)
  }

  /** The end of the record in the buffer. */
  function RecordEnd(s: seq<byte>): nat
    requires |s| >= 5
  {
    if U16(s, 3) + 5 < |s| then U16(s, 3) + 5 else |s|
  }

  /** Start and end of the extensions, if the hello is complete. */
  function ExtRange(s: seq<byte>): (r: Option<(nat, nat)>)
    ensures r.Some? ==> IsHello(s, true) && 49 <= r.value.0 <= r.value.1 <= RecordEnd(s) && r.value.1 == r.value.0 + U16(s, r.value.0 - 2)
  {
    if !IsHello(s, true) || U24(s, 6) + 4 > RecordEnd(s) - 5 then None
    else
      var off := ExtLenOffset(s, RecordEnd(s));
      if off.None? || RecordEnd(s) - off.value - 2 < U16(s, off.value) then None
      else Some((off.value + 2, off.value + 2 + U16(s, off.value)))
  }

  /** `TLSFindExt` without partial hellos. */
  function FindExt(s: seq<byte>, typ: nat): (r: Option<(nat, nat)>)
    ensures r.Some? ==> ExtRange(s).Some? && ExtRange(s).value.0 + 4 <= r.value.0 && r.value.0 + r.value.1 <= ExtRange(s).value.1 <= |s|
  {
    if ExtRange(s).None? then None else FindFrom(s, ExtRange(s).value.0, ExtRange(s).value.1, typ)
  }

  /** `TLSAdvanceToHostInSNI`: place and length of the name in the extension data. */
  function HostInSni(s: seq<byte>, ext: nat, elen: nat): (r: Option<(nat, nat)>)
    requires ext + elen <= |s|
    ensures r.Some? ==> r.value.0 == ext + 5 && ext + 5 + r.value.1 <= ext + elen
  {
    if elen < 5 || s[ext + 2] != 0 then None
    else
      var nll, slen := U16(s, ext), U16(s, ext + 3);
      if nll < slen + 3 || nll > elen - 2 then None else Some((ext + 5, slen))
  }

  /** `tolower` in the C locale. */
  function Lower(b: byte): byte { if 65 <= b <= 90 then b + 32 else b }

  function LowerAll(s: seq<byte>): seq<byte> { seq(|s|, i requires 0 <= i < |s| => Lower(s[i])) }

  /** Place and length of the server name. */
  function Sni(s: seq<byte>): (r: Option<(nat, nat)>)
    ensures r.Some? ==> FindExt(s, 0).Some? && r.value.0 == FindExt(s, 0).value.0 + 5 &&
                        r.value.0 + r.value.1 <= FindExt(s, 0).value.0 + FindExt(s, 0).value.1
  {
    if FindExt(s, 0).None? then None else HostInSni(s, FindExt(s, 0).value.0, FindExt(s, 0).value.1)
  }

  /** `TLSHelloExtractHost` with a large enough buffer. */
  function ExtractHost(s: seq<byte>): Option<seq<byte>> {
    if Sni(s).None? then None else Some(LowerAll(s[Sni(s).value.0..Sni(s).value.0 + Sni(s).value.1]))
  }

  // ----- The list of extensions -----

  datatype Ext = Ext(typ: nat, data: seq<byte>)

  /** The extensions one after the other, as far as they are complete. */
  ghost function ExtList(s: seq<byte>, p: nat, e: nat): seq<Ext>
    requires p <= e <= |s|
    decreases e - p
  {
    if e - p < 4 || e - p - 4 < U16(s, p + 2) then []
    else
      var q := p + 4 + U16(s, p + 2);
      [Ext(U16(s, p), s[p + 4..q])] + ExtList(s, q, e)
  }

  ghost function Exts(s: seq<byte>): seq<Ext> {
    if ExtRange(s).None? then [] else ExtList(s, ExtRange(s).value.0, ExtRange(s).value.1)
  }

  /** The first extension of a type. */
  ghost function First(xs: seq<Ext>, typ: nat): (k: nat)
    ensures k <= |xs| && (k < |xs| ==> xs[k].typ == typ) && forall j :: 0 <= j < k ==> xs[j].typ != typ
  {
    if xs == [] then 0 else if xs[0].typ == typ then 0 else 1 + First(xs[1..], typ)
  }

  /** A search has given the first extension of a type, or there is none. */
  ghost predicate FoundFirst(s: seq<byte>, xs: seq<Ext>, typ: nat, r: Option<(nat, nat)>) {
    var k := First(xs, typ);
    (r.Some? <==> k < |xs|) && (r.Some? ==> r.value.0 + r.value.1 <= |s| && s[r.value.0..r.value.0 + r.value.1] == xs[k].data)
  }

  lemma {:induction false} FindFromFirst(s: seq<byte>, p: nat, e: nat, typ: nat)
    requires p <= e <= |s|
    ensures FoundFirst(s, ExtList(s, p, e), typ, FindFrom(s, p, e, typ))
    decreases e - p
  {
    hide U16;
    if e - p >= 4 && e - p - 4 >= U16(s, p + 2) {
      var q := p + 4 + U16(s, p + 2);
      FindFromFirst(s, q, e, typ);
      var xs := [Ext(U16(s, p), s[p + 4..q])] + ExtList(s, q, e);
      assert xs[1..] == ExtList(s, q, e);
    }
  }

  lemma FindFirst(s: seq<byte>, typ: nat)
    ensures FoundFirst(s, Exts(s), typ, FindExt(s, typ))
  {
    hide FindFrom, ExtList, First, FoundFirst, ExtRange;
    if ExtRange(s).Some? {
      FindFromFirst(s, ExtRange(s).value.0, ExtRange(s).value.1, typ);
    } else {
      NothingFound(s, typ);
    }
  }

  lemma NothingFound(s: seq<byte>, typ: nat)
    ensures FoundFirst(s, [], typ, None)
  {
  }

  /** `TLSFindExt` as it runs: place and length of the data of the first extension of the type, exactly if there is
      one. */
  method TLSFindExt(data: seq<byte>, typ: nat) returns (r: Option<(nat, nat)>)
    ensures r == FindExt(data, typ)
    ensures FoundFirst(data, Exts(data), typ, r)
  {
    hide FindFrom, ExtLenOffset, U16, U24, FoundFirst, Exts, First;
    FindFirst(data, typ);
    if !IsHello(data, true) {
      return None;
    }
    var len := RecordEnd(data);
    if U24(data, 6) + 4 > len - 5 {
      return None;
    }
    var off := ExtLenOffset(data, len);
    if off == None {
      return None;
    }
    var p, l := off.value + 2, U16(data, off.value);
    if len - p < l {
      return None;
    }
    assert ExtRange(data) == Some((p as nat, p + l as nat));
    while l >= 4
      invariant 0 <= p && 0 <= l && p + l <= |data| && FindExt(data, typ) == FindFrom(data, p, p + l, typ)
    {
      FindStep(data, p, p + l, typ);
      var etype, elen := U16(data, p), U16(data, p + 2);
      p, l := p + 4, l - 4;
      if l < elen {
        break;
      }
      if etype == typ {
        return Some((p, elen));
      }
      p, l := p + elen, l - elen;
    }
    FindEnd(data, p, p + l, typ);
    r := None;
  }

  lemma FindStep(s: seq<byte>, p: nat, e: nat, typ: nat)
    requires p + 4 <= e <= |s|
    ensures FindFrom(s, p, e, typ) ==
              if e - p - 4 < U16(s, p + 2) then None
              else if U16(s, p) == typ then Some((p + 4, U16(s, p + 2))) else FindFrom(s, p + 4 + U16(s, p + 2), e, typ)
  {
    hide U16;
  }

  lemma FindEnd(s: seq<byte>, p: nat, e: nat, typ: nat)
    requires p <= e <= |s|
    ensures e - p < 4 ==> FindFrom(s, p, e, typ) == None
  {
  }

  // ----- Replacing the name -----

  function Put16(s: seq<byte>, p: nat, v: nat): (r: seq<byte>)
    requires p + 2 <= |s|
    ensures |r| == |s| && U16(r, p) == v % 0x1_0000 && forall i :: 0 <= i < |s| && i != p && i != p + 1 ==> r[i] == s[i]
  {
    s[p := v / 256 % 256][p + 1 := v % 256]
  }

  lemma Bytes24(v: nat)
    requires v < 0x100_0000
    ensures v == 256 * (256 * (v / 0x1_0000) + v / 256 % 256) + v % 256 && v / 0x1_0000 < 256
  {
  }

  function Put24(s: seq<byte>, p: nat, v: nat): (r: seq<byte>)
    requires p + 3 <= |s|
    ensures |r| == |s| && U24(r, p) == v % 0x100_0000 && forall i :: 0 <= i < |s| && !(p <= i < p + 3) ==> r[i] == s[i]
  {
    var w := v % 0x100_0000;
    Bytes24(w);
    s[p := w / 0x1_0000][p + 1 := w / 256 % 256][p + 2 := w % 256]
  }

  /** The values of the six length fields. */
  datatype Lengths = Lengths(record: nat, handshake: nat, exts: nat, ext: nat, list: nat, name: nat) {
    /** All of them changed by `d`, in the widths of the fields. */
    function Grow(d: int): Lengths {
      Lengths((record + d) % 0x1_0000, (handshake + d) % 0x100_0000, (exts + d) % 0x1_0000, (ext + d) % 0x1_0000,
              (list + d) % 0x1_0000, (name + d) % 0x1_0000)
    }
  }

  /** The fields of a hello with its extension length at `off` and its server name extension at `e`. */
  function Fields(s: seq<byte>, off: nat, e: nat): Lengths
    requires 9 <= off && off + 6 <= e && e + 5 <= |s|
  {
    Lengths(U16(s, 3), U24(s, 6), U16(s, off), U16(s, e - 2), U16(s, e), U16(s, e + 3))
  }

  ghost function PutFields(s: seq<byte>, off: nat, e: nat, l: Lengths): (r: seq<byte>)
    requires 9 <= off && off + 6 <= e && e + 5 <= |s|
    ensures |r| == |s|
  {
    Put16(Put16(Put16(Put16(Put24(Put16(s, 3, l.record), 6, l.handshake), off, l.exts), e - 2, l.ext), e, l.list), e + 3, l.name)
  }

  /** Positions that hold no length field. */
  ghost predicate Apart(i: int, off: nat, e: nat) {
    !(3 <= i < 5) && !(6 <= i < 9) && !(off <= i < off + 2) && !(e - 2 <= i < e + 2) && !(e + 3 <= i < e + 5)
  }

  lemma PutFieldsAt(s: seq<byte>, off: nat, e: nat, l: Lengths)
    requires 9 <= off && off + 6 <= e && e + 5 <= |s|
    ensures forall i :: 0 <= i < |s| && Apart(i, off, e) ==> PutFields(s, off, e, l)[i] == s[i]
    ensures Fields(PutFields(s, off, e, l), off, e) == l.Grow(0)
  {
    hide Put16, Put24;
  }

  /** The hello with the name replaced, whatever becomes of the length fields. */
  ghost function Renamed(s: seq<byte>, name: seq<byte>): seq<byte>
    requires Sni(s).Some?
  {
    var (e, off) := (FindExt(s, 0).value.0, ExtRange(s).value.0 - 2);
    var (p, slen) := Sni(s).value;
    PutFields(s[..p] + name + s[p + slen..], off, e, Fields(s, off, e).Grow(|name| - slen))
  }

  method StoreU16(buf: array<byte>, p: nat, v: nat)
    requires p + 2 <= buf.Length
    modifies buf
    ensures buf[..] == Put16(old(buf[..]), p, v)
  {
    buf[p], buf[p + 1] := v / 256 % 256, v % 256;
  }

  method StoreU24(buf: array<byte>, p: nat, v: nat)
    requires p + 3 <= buf.Length
    modifies buf
    ensures buf[..] == Put24(old(buf[..]), p, v)
  {
    var w := v % 0x100_0000;
    Bytes24(w);
    buf[p], buf[p + 1], buf[p + 2] := w / 0x1_0000, w / 256 % 256, w % 256;
  }

  /** Writing a field leaves those that are read later. */
  lemma OtherFields(s: seq<byte>, off: nat, e: nat, l: Lengths)
    requires 9 <= off && off + 6 <= e && e + 5 <= |s|
    ensures var s1 := Put16(s, 3, l.record);
            var s2 := Put24(s1, 6, l.handshake);
            var s3 := Put16(s2, off, l.exts);
            var s4 := Put16(s3, e - 2, l.ext);
            U24(s1, 6) == U24(s, 6) && U16(s2, off) == U16(s, off) && U16(s3, e - 2) == U16(s, e - 2) && U16(s4, e) == U16(s, e) &&
            U16(Put16(s4, e, l.list), e + 3) == U16(s, e + 3)
  {
    hide Put16, Put24;
  }

  /** The six updates, each of which reads its field again. */
  method ChangeFields(buf: array<byte>, off: nat, e: nat, d: int)
    requires 9 <= off && off + 6 <= e && e + 5 <= buf.Length
    modifies buf
    ensures buf[..] == PutFields(old(buf[..]), off, e, Fields(old(buf[..]), off, e).Grow(d))
  {
    hide Put16, Put24, U16, U24;
    OtherFields(buf[..], off, e, Fields(buf[..], off, e).Grow(d));
    StoreU16(buf, 3, (U16(buf[..], 3) + d) % 0x1_0000);
    StoreU24(buf, 6, (U24(buf[..], 6) + d) % 0x100_0000);
    StoreU16(buf, off, (U16(buf[..], off) + d) % 0x1_0000);
    StoreU16(buf, e - 2, (U16(buf[..], e - 2) + d) % 0x1_0000);
    StoreU16(buf, e, (U16(buf[..], e) + d) % 0x1_0000);
    StoreU16(buf, e + 3, (U16(buf[..], e + 3) + d) % 0x1_0000);
  }

  /** The fields only depend on the bytes before the name, and change nothing behind them. */
  lemma FieldsLocal(s: seq<byte>, t: seq<byte>, off: nat, e: nat, l: Lengths)
    requires 9 <= off && off + 6 <= e && e + 5 <= |s| && e + 5 <= |t| && s[..e + 5] == t[..e + 5]
    ensures PutFields(s, off, e, l)[..e + 5] == PutFields(t, off, e, l)[..e + 5] && PutFields(s, off, e, l)[e + 5..] == s[e + 5..]
  {
    var m := e + 5;
    Put16Local(s, t, 3, l.record, m);
    var (s1, t1) := (Put16(s, 3, l.record), Put16(t, 3, l.record));
    Put24Local(s1, t1, 6, l.handshake, m);
    var (s2, t2) := (Put24(s1, 6, l.handshake), Put24(t1, 6, l.handshake));
    Put16Local(s2, t2, off, l.exts, m);
    var (s3, t3) := (Put16(s2, off, l.exts), Put16(t2, off, l.exts));
    Put16Local(s3, t3, e - 2, l.ext, m);
    var (s4, t4) := (Put16(s3, e - 2, l.ext), Put16(t3, e - 2, l.ext));
    Put16Local(s4, t4, e, l.list, m);
    Put16Local(Put16(s4, e, l.list), Put16(t4, e, l.list), e + 3, l.name, m);
  }

  lemma Put16Local(s: seq<byte>, t: seq<byte>, p: nat, v: nat, m: nat)
    requires p + 2 <= m <= |s| && m <= |t| && s[..m] == t[..m]
    ensures Put16(s, p, v)[..m] == Put16(t, p, v)[..m] && Put16(s, p, v)[m..] == s[m..]
  {
    assert Put16(s, p, v)[..m] == Put16(s[..m], p, v) && Put16(t, p, v)[..m] == Put16(t[..m], p, v);
  }

  lemma Put24Local(s: seq<byte>, t: seq<byte>, p: nat, v: nat, m: nat)
    requires p + 3 <= m <= |s| && m <= |t| && s[..m] == t[..m]
    ensures Put24(s, p, v)[..m] == Put24(t, p, v)[..m] && Put24(s, p, v)[m..] == s[m..]
  {
    assert Put24(s, p, v)[..m] == Put24(s[..m], p, v) && Put24(t, p, v)[..m] == Put24(t[..m], p, v);
  }

  /** A longer handshake has its extensions at the same place. */
  lemma SameOffset(s: seq<byte>, m: nat, n: nat)
    requires m <= n <= |s| && ExtLenOffset(s, m).Some?
    ensures ExtLenOffset(s, n) == ExtLenOffset(s, m)
  {
  }

  /** What `TLSMod` can give a new name: a complete ClientHello with a well-formed server name, in a buffer with
      room. */
  predicate CanRename(s: seq<byte>, cap: nat, name: seq<byte>) {
    IsHello(s, false) && Sni(s).Some? && |s| + |name| - Sni(s).value.1 <= cap
  }

  /** The part of `TLSMod` for a given server name. The length of the session id is read from byte 43 before it is
      known that the hello is so long, so that the buffer must be. */
  method ModSni(buf: array<byte>, size: nat, name: seq<byte>) returns (ok: bool, newSize: nat)
    requires size <= buf.Length && (IsHello(buf[..size], false) ==> buf.Length >= 44)
    modifies buf
    ensures ok == CanRename(old(buf[..size]), buf.Length, name)
    ensures ok ==> newSize == size + |name| - Sni(old(buf[..size])).value.1 && buf[..newSize] == Renamed(old(buf[..size]), name)
    ensures !ok ==> newSize == size && buf[..] == old(buf[..])
  {
    hide IsHello, FindFrom, ExtLenOffset, HostInSni, Put16, Put24, PutFields, FoundFirst, Exts, First;
    ok, newSize := false, size;
    var s := buf[..size];
    if !IsHello(s, false) {
      return;
    }
    if size < 44 + (buf[43] as int) {
      NoSessionId(s);
      return;
    }
    var off := ExtLenOffset(s, size);
    if off == None {
      NoOffset(s);
      return;
    }
    var found := TLSFindExt(s, 0);
    if found == None {
      return;
    }
    var sni := HostInSni(s, found.value.0, found.value.1);
    if sni == None {
      return;
    }
    SameRange(s);
    if size + |name| - sni.value.1 > buf.Length {
      return;
    }
    newSize := WriteName(buf, s, name, off.value, found.value.0, sni.value.1);
    ok := true;
  }

  /** The name in its place: the bytes behind it move and the length fields change if it has another length. */
  method WriteName(buf: array<byte>, s: seq<byte>, name: seq<byte>, off: nat, e: nat, slen: nat) returns (newSize: nat)
    requires 9 <= off && off + 6 <= e && e + 5 + slen <= |s| <= buf.Length && buf[..|s|] == s && |s| + |name| - slen <= buf.Length
    modifies buf
    ensures newSize == |s| + |name| - slen
    ensures buf[..newSize] == PutFields(s[..e + 5] + name + s[e + 5 + slen..], off, e, Fields(s, off, e).Grow(|name| - slen))
  {
    hide PutFields, Lengths.Grow, Fields;
    var p, d := e + 5, |name| - slen;
    newSize := |s| + d;
    if d != 0 {
      MoveTail(buf, s, p, |name|, slen);
      ghost var t0 := buf[..];
      SameFields(t0, s, off, e);
      ChangeFields(buf, off, e, d);
      ghost var t1 := buf[..];
      assert t0[..p] == (s[..p] + name + s[p + slen..])[..p];
      FieldsLocal(t0, s[..p] + name + s[p + slen..], off, e, Fields(s, off, e).Grow(d));
      FieldsLocal(s[..p] + name + s[p + slen..], t0, off, e, Fields(s, off, e).Grow(d));
      CopyName(buf, p, name);
      Spliced(s, t0, t1, buf[..], name, off, e, p, slen, newSize);
    } else {
      CopyName(buf, p, name);
      SameLength(s, name, off, e, p);
      assert buf[..newSize] == s[..p] + name + s[p + slen..];
    }
  }

  lemma SameFields(t: seq<byte>, s: seq<byte>, off: nat, e: nat)
    requires 9 <= off && off + 6 <= e && e + 5 <= |s| && e + 5 <= |t| && t[..e + 5] == s[..e + 5]
    ensures Fields(t, off, e) == Fields(s, off, e)
  {
    assert forall i :: 0 <= i < e + 5 ==> t[i] == t[..e + 5][i] && s[i] == s[..e + 5][i];
  }

  /** `memmove` of the bytes behind the name. */
  method MoveTail(buf: array<byte>, s: seq<byte>, p: nat, len: nat, slen: nat)
    requires p + slen <= |s| <= buf.Length && buf[..|s|] == s && |s| + len - slen <= buf.Length
    modifies buf
    ensures buf[..p] == s[..p] && buf[p + len..|s| + len - slen] == s[p + slen..]
  {
    var tail := buf[p + slen..|s|];
    forall i | 0 <= i < |tail| {
      buf[p + len + i] := tail[i];
    }
  }

  /** `memcpy` of the name. */
  method CopyName(buf: array<byte>, p: nat, name: seq<byte>)
    requires p + |name| <= buf.Length
    modifies buf
    ensures forall i :: 0 <= i < buf.Length ==> buf[i] == if p <= i < p + |name| then name[i - p] else old(buf[i])
  {
    forall i | 0 <= i < |name| {
      buf[p + i] := name[i];
    }
  }

  lemma NoSessionId(s: seq<byte>)
    requires |s| >= 44 ==> |s| < 44 + s[43] as int
    ensures Sni(s).None?
  {
  }

  lemma NoOffset(s: seq<byte>)
    requires ExtLenOffset(s, |s|).None?
    ensures Sni(s).None?
  {
    if ExtRange(s).Some? {
      SameOffset(s, RecordEnd(s), |s|);
    }
  }

  lemma SameRange(s: seq<byte>)
    requires ExtRange(s).Some?
    ensures ExtLenOffset(s, |s|) == Some(ExtRange(s).value.0 - 2)
  {
    SameOffset(s, RecordEnd(s), |s|);
  }

  /** The moved bytes with their fields and the name make the renamed hello. */
  lemma Spliced(s: seq<byte>, t0: seq<byte>, t1: seq<byte>, t2: seq<byte>, name: seq<byte>, off: nat, e: nat, p: nat, slen: nat, n: nat)
    requires 9 <= off && off + 6 <= e && p == e + 5 && p + slen <= |s| && n == |s| + |name| - slen <= |t0| == |t1| == |t2|
    requires t0[..p] == s[..p] && t0[p + |name|..n] == s[p + slen..]
    requires t1 == PutFields(t0, off, e, Fields(t0, off, e).Grow(|name| - slen)) && t1[p..] == t0[p..]
    requires var r := PutFields(s[..p] + name + s[p + slen..], off, e, Fields(s, off, e).Grow(|name| - slen));
             t1[..p] == r[..p] && r[p..] == (s[..p] + name + s[p + slen..])[p..]
    requires forall i :: 0 <= i < |t2| ==> t2[i] == if p <= i < p + |name| then name[i - p] else t1[i]
    ensures t2[..n] == PutFields(s[..p] + name + s[p + slen..], off, e, Fields(s, off, e).Grow(|name| - slen))
  {
    hide PutFields;
    var r := PutFields(s[..p] + name + s[p + slen..], off, e, Fields(s, off, e).Grow(|name| - slen));
    assert r == r[..p] + r[p..];
    assert r[p..] == name + s[p + slen..];
    assert t2[..p] == t1[..p];
    assert t2[p..p + |name|] == name;
    assert t2[p + |name|..n] == t1[p..][|name|..n - p];
    assert t0[p..][|name|..n - p] == t0[p + |name|..n];
    assert t2[..n] == t2[..p] + t2[p..p + |name|] + t2[p + |name|..n];
  }

  /** A name of the same length needs no change of the fields. */
  lemma SameLength(s: seq<byte>, name: seq<byte>, off: nat, e: nat, p: nat)
    requires 9 <= off && off + 6 <= e && p == e + 5 && p + |name| <= |s|
    ensures var t := s[..p] + name + s[p + |name|..]; PutFields(t, off, e, Fields(s, off, e).Grow(0)) == t
  {
    var t := s[..p] + name + s[p + |name|..];
    assert Fields(t, off, e) == Fields(s, off, e).Grow(0);
    Put16Same(t, 3);
    Put24Same(t, 6);
    Put16Same(t, off);
    Put16Same(t, e - 2);
    Put16Same(t, e);
    Put16Same(t, e + 3);
  }

  lemma Put16Same(s: seq<byte>, p: nat)
    requires p + 2 <= |s|
    ensures Put16(s, p, U16(s, p)) == s
  {
  }

  lemma Put24Same(s: seq<byte>, p: nat)
    requires p + 3 <= |s|
    ensures Put24(s, p, U24(s, p)) == s
  {
    hide Put24, U24;
    var t := Put24(s, p, U24(s, p));
    U24Range(s, p);
    SameBytes24(s, t, p);
    assert forall i :: 0 <= i < |s| ==> t[i] == s[i];
  }

  lemma U24Range(s: seq<byte>, p: nat)
    requires p + 3 <= |s|
    ensures U24(s, p) < 0x100_0000
  {
  }

  lemma SameBytes24(s: seq<byte>, t: seq<byte>, p: nat)
    requires p + 3 <= |s| && p + 3 <= |t| && U24(s, p) == U24(t, p)
    ensures s[p] == t[p] && s[p + 1] == t[p + 1] && s[p + 2] == t[p + 2]
  {
  }

  // ----- What the replacement does -----

  /** No length field wraps: the record length stays below 2^16 and the handshake length does not become
      negative. */
  ghost predicate NoWrap(s: seq<byte>, name: seq<byte>)
    requires Sni(s).Some?
  {
    var d := |name| - Sni(s).value.1;
    U16(s, 3) + d < 0x1_0000 && U24(s, 6) + d >= 0
  }

  /** How a hello `t` relates to `s`, with the extension data at `e` and a name of `slen` bytes replaced. */
  ghost predicate Replaces(s: seq<byte>, t: seq<byte>, off: nat, e: nat, slen: nat, name: seq<byte>)
    requires 9 <= off && off + 6 <= e && e + 5 + slen <= |s|
  {
    var d := |name| - slen;
    |t| == |s| + d && Fields(t, off, e) == Fields(s, off, e).Grow(d) &&
    (forall i :: 0 <= i < e + 5 && Apart(i, off, e) ==> t[i] == s[i]) &&
    t[e + 5..e + 5 + |name|] == name && t[e + 5 + |name|..] == s[e + 5 + slen..]
  }

  lemma RenamedReplaces(s: seq<byte>, name: seq<byte>)
    requires Sni(s).Some?
    ensures Replaces(s, Renamed(s, name), ExtRange(s).value.0 - 2, FindExt(s, 0).value.0, Sni(s).value.1, name)
  {
    hide FindFrom, ExtLenOffset, IsHello, FindExt, ExtRange, Sni, Replaces, PutFields, Fields, Lengths.Grow, U16;
    var (e, off) := (FindExt(s, 0).value.0, ExtRange(s).value.0 - 2);
    PutReplaces(s, off, e, Sni(s).value.1, name);
  }

  lemma PutReplaces(s: seq<byte>, off: nat, e: nat, slen: nat, name: seq<byte>)
    requires 9 <= off && off + 6 <= e && e + 5 + slen <= |s|
    ensures Replaces(s, PutFields(s[..e + 5] + name + s[e + 5 + slen..], off, e, Fields(s, off, e).Grow(|name| - slen)), off, e, slen, name)
  {
    hide PutFields, Lengths.Grow, Fields;
    var p := e + 5;
    var (u, l) := (s[..p] + name + s[p + slen..], Fields(s, off, e).Grow(|name| - slen));
    PutFieldsAt(u, off, e, l);
    GrowTwice(Fields(s, off, e), |name| - slen);
    FieldsLocal(u, u, off, e, l);
    var t := PutFields(u, off, e, l);
    assert t[p..] == u[p..];
    assert t[p..p + |name|] == t[p..][..|name|] && t[p + |name|..] == t[p..][|name|..];
    assert u[p..][..|name|] == name && u[p..][|name|..] == s[p + slen..];
  }

  lemma GrowTwice(l: Lengths, d: int)
    ensures l.Grow(d).Grow(0) == l.Grow(d)
  {
  }

  /** The offset of the extensions does not depend on the length fields or on what comes behind. */
  lemma OffsetKept(s: seq<byte>, t: seq<byte>, m: nat, n: nat, off: nat)
    requires m <= |s| && ExtLenOffset(s, m) == Some(off) && off + 2 <= n <= |t|
    requires forall i :: 0 <= i < off && !(3 <= i < 5) && !(6 <= i < 9) ==> t[i] == s[i]
    ensures ExtLenOffset(t, n) == Some(off)
  {
    var a: nat := 44 + s[43] as nat;
    var b := a + 2 + if s[5] == 1 then U16(s, a) else 0;
    assert t[43] == s[43] && t[5] == s[5] && t[a] == s[a] && t[a + 1] == s[a + 1];
    assert t[b] == s[b];
  }

  /** The extensions from `q` on are the same if all bytes behind are shifted by `d`. */
  lemma {:induction false} ExtsShifted(s: seq<byte>, t: seq<byte>, q: nat, e: nat, d: int)
    requires q <= e <= |s| && 0 <= q + d && e + d <= |t| && forall i :: q <= i < e ==> t[i + d] == s[i]
    ensures ExtList(t, q + d, e + d) == ExtList(s, q, e)
    decreases e - q
  {
    hide U16;
    if e - q >= 4 {
      assert t[q + d] == s[q] && t[q + 1 + d] == s[q + 1] && t[q + 2 + d] == s[q + 2] && t[q + 3 + d] == s[q + 3];
      SameU16(t, q + d, s, q);
      SameU16(t, q + d + 2, s, q + 2);
      var l := U16(s, q + 2);
      if e - q - 4 >= l {
        ExtsShifted(s, t, q + 4 + l, e, d);
        assert t[q + d + 4..q + d + 4 + l] == s[q + 4..q + 4 + l];
      }
    }
  }

  /** The data of the server name extension with another name. */
  ghost function NewSni(x: seq<byte>, slen: nat, name: seq<byte>): seq<byte>
    requires 5 + slen <= |x|
  {
    var d := |name| - slen;
    Put16(Put16(x[..5], 0, (U16(x, 0) + d) % 0x1_0000), 3, |name|) + name + x[5 + slen..]
  }

  lemma LengthsOf(s: seq<byte>, t: seq<byte>, off: nat, e: nat, slen: nat, name: seq<byte>)
    requires 9 <= off && off + 6 <= e && e + 5 + slen <= |s| && Replaces(s, t, off, e, slen, name)
    ensures var d := |name| - slen;
            |t| == |s| + d && U16(t, e - 2) == (U16(s, e - 2) + d) % 0x1_0000 && U16(t, e) == (U16(s, e) + d) % 0x1_0000 &&
            U16(t, e + 3) == (U16(s, e + 3) + d) % 0x1_0000 && t[e + 2] == s[e + 2] && U16(t, e - 4) == U16(s, e - 4)
  {
    hide U24;
    assert Apart(e + 2, off, e) && Apart(e - 4, off, e) && Apart(e - 3, off, e);
  }

  /** The bytes behind the name have moved. */
  lemma TailMoved(s: seq<byte>, t: seq<byte>, off: nat, e: nat, slen: nat, name: seq<byte>, i: nat)
    requires 9 <= off && off + 6 <= e && e + 5 + slen <= |s| && Replaces(s, t, off, e, slen, name) && e + 5 + slen <= i < |s|
    ensures t[i + |name| - slen] == s[i]
  {
    hide Fields, Lengths.Grow;
    assert t[i + |name| - slen] == t[e + 5 + |name|..][i - (e + 5 + slen)] == s[e + 5 + slen..][i - (e + 5 + slen)];
  }

  /** At the server name extension itself. */
  lemma WalkBase(s: seq<byte>, t: seq<byte>, off: nat, end: nat, e: nat, elen: nat, slen: nat, name: seq<byte>)
    requires 9 <= off && off + 6 <= e && 5 + slen <= elen && e + elen <= end <= |s| && U16(s, e - 4) == 0 && U16(s, e - 2) == elen
    requires Replaces(s, t, off, e, slen, name) && elen + |name| - slen < 0x1_0000 && |name| < 0x1_0000 && U16(s, e + 3) == slen
    ensures var d := |name| - slen;
            FindFrom(t, e - 4, end + d, 0) == Some((e, elen + d)) && FindFrom(s, e - 4, end, 0) == Some((e, elen)) &&
            ExtList(s, e - 4, end) == [Ext(0, s[e..e + elen])] + ExtList(s, e + elen, end) &&
            ExtList(t, e - 4, end + d) == [Ext(0, NewSni(s[e..e + elen], slen, name))] + ExtList(s, e + elen, end)
  {
    hide Replaces, NewSni, U16, FindFrom, ExtList;
    var d := |name| - slen;
    ExtHere(s, e - 4, end);
    LengthsOf(s, t, off, e, slen, name);
    SniData(s, t, off, e, elen, slen, name);
    forall i | e + elen <= i < end
      ensures t[i + d] == s[i]
    {
      TailMoved(s, t, off, e, slen, name, i);
    }
    ExtsShifted(s, t, e + elen, end, d);
    ExtHere(t, e - 4, end + d);
  }

  /** An extension that is the server name. */
  lemma ExtHere(s: seq<byte>, q: nat, end: nat)
    requires q + 4 <= end <= |s| && q + 4 + U16(s, q + 2) <= end && U16(s, q) == 0
    ensures var n := q + 4 + U16(s, q + 2);
            FindFrom(s, q, end, 0) == Some((q + 4, n - q - 4)) && ExtList(s, q, end) == [Ext(0, s[q + 4..n])] + ExtList(s, n, end)
  {
    hide U16;
  }

  /** At an extension before it. */
  lemma WalkOther(s: seq<byte>, t: seq<byte>, off: nat, q: nat, e: nat, slen: nat, name: seq<byte>)
    requires 9 <= off && off + 2 <= q && q + 4 <= e && e + 5 + slen <= |s| && q + 4 + U16(s, q + 2) + 4 <= e && Replaces(s, t, off, e, slen, name)
    ensures U16(t, q) == U16(s, q) && U16(t, q + 2) == U16(s, q + 2) && t[q + 4..q + 4 + U16(s, q + 2)] == s[q + 4..q + 4 + U16(s, q + 2)]
  {
    hide Fields, Lengths.Grow;
    assert forall i :: q <= i < q + 4 + U16(s, q + 2) ==> Apart(i, off, e);
    assert t[q] == s[q] && t[q + 1] == s[q + 1] && t[q + 2] == s[q + 2] && t[q + 3] == s[q + 3];
  }

  /** Walking the extensions from `q` comes to the server name as before, and to the same extensions besides. */
  lemma {:induction false} WalkReplaced(s: seq<byte>, t: seq<byte>, off: nat, q: nat, end: nat, e: nat, elen: nat, slen: nat, name: seq<byte>)
    requires 9 <= off && off + 2 <= q <= end <= |s| && FindFrom(s, q, end, 0) == Some((e, elen)) && off + 6 <= e && 5 + slen <= elen
    requires Replaces(s, t, off, e, slen, name) && elen + |name| - slen < 0x1_0000 && |name| < 0x1_0000 && U16(s, e + 3) == slen
    ensures var (d, k) := (|name| - slen, First(ExtList(s, q, end), 0));
            FindFrom(t, q, end + d, 0) == Some((e, elen + d)) && k < |ExtList(s, q, end)| &&
            ExtList(t, q, end + d) == ExtList(s, q, end)[k := Ext(0, NewSni(s[e..e + elen], slen, name))]
    decreases end - q
  {
    hide U16, NewSni, Replaces, FindFrom, ExtList, First;
    var (d, l) := (|name| - slen, U16(s, q + 2));
    ExtStep(s, q, end);
    LengthsOf(s, t, off, e, slen, name);
    var y := Ext(0, NewSni(s[e..e + elen], slen, name));
    if U16(s, q) == 0 {
      WalkBase(s, t, off, end, e, elen, slen, name);
      ListFront(Ext(0, s[e..e + elen]), ExtList(s, e + elen, end), y);
    } else {
      WalkOther(s, t, off, q, e, slen, name);
      WalkReplaced(s, t, off, q + 4 + l, end, e, elen, slen, name);
      ExtStep(t, q, end + d);
      ListBehind(Ext(U16(s, q), s[q + 4..q + 4 + l]), ExtList(s, q + 4 + l, end), y);
    }
  }

  lemma ListFront(h: Ext, xs: seq<Ext>, y: Ext)
    ensures ([h] + xs)[0 := y] == [y] + xs && First([h] + xs, h.typ) == 0
  {
  }

  lemma ListBehind(h: Ext, xs: seq<Ext>, y: Ext)
    requires h.typ != 0
    ensures First([h] + xs, 0) == First(xs, 0) + 1
    ensures var k := First(xs, 0); k < |xs| ==> ([h] + xs)[k + 1 := y] == [h] + xs[k := y]
  {
    assert ([h] + xs)[1..] == xs;
  }

  /** One step of the search for the server name and of the list of extensions. */
  lemma ExtStep(s: seq<byte>, q: nat, end: nat)
    requires q <= end <= |s|
    ensures FindFrom(s, q, end, 0).Some? ==> q + 4 <= end && q + 4 + U16(s, q + 2) <= end
    ensures FindFrom(s, q, end, 0).Some? && U16(s, q) == 0 ==> FindFrom(s, q, end, 0) == Some((q + 4, U16(s, q + 2)))
    ensures q + 4 <= end && q + 4 + U16(s, q + 2) <= end && U16(s, q) != 0 ==>
              var n := q + 4 + U16(s, q + 2);
              FindFrom(s, q, end, 0) == FindFrom(s, n, end, 0) &&
              (n <= end ==> ExtList(s, q, end) == [Ext(U16(s, q), s[q + 4..n])] + ExtList(s, n, end))
  {
    hide U16;
  }

  lemma SniData(s: seq<byte>, t: seq<byte>, off: nat, e: nat, elen: nat, slen: nat, name: seq<byte>)
    requires 9 <= off && off + 6 <= e && 5 + slen <= elen && e + elen <= |s| && Replaces(s, t, off, e, slen, name)
    requires |name| < 0x1_0000 && U16(s, e + 3) == slen
    ensures t[e..e + elen + |name| - slen] == NewSni(s[e..e + elen], slen, name)
  {
    hide Put16, Replaces, U16;
    var (d, x) := (|name| - slen, s[e..e + elen]);
    LengthsOf(s, t, off, e, slen, name);
    var h := Put16(Put16(x[..5], 0, (U16(x, 0) + d) % 0x1_0000), 3, |name|);
    SniHead(s, t, off, e, elen, slen, name, h);
    SniTail(s, t, off, e, elen, slen, name);
    assert t[e..e + elen + d] == t[e..e + 5] + (t[e + 5..e + 5 + |name|] + t[e + 5 + |name|..e + elen + d]);
    assert NewSni(x, slen, name) == h + (name + x[5 + slen..]);
  }

  lemma SniHead(s: seq<byte>, t: seq<byte>, off: nat, e: nat, elen: nat, slen: nat, name: seq<byte>, h: seq<byte>)
    requires 9 <= off && off + 6 <= e && 5 + slen <= elen && e + elen <= |s| && Replaces(s, t, off, e, slen, name)
    requires |name| < 0x1_0000 && U16(s, e + 3) == slen
    requires var x := s[e..e + elen]; h == Put16(Put16(x[..5], 0, (U16(x, 0) + |name| - slen) % 0x1_0000), 3, |name|)
    ensures |t| == |s| + |name| - slen && t[e..e + 5] == h
  {
    hide Put16, Replaces, U16;
    var x := s[e..e + elen];
    var a := (U16(x, 0) + |name| - slen) % 0x1_0000;
    LengthsOf(s, t, off, e, slen, name);
    SameU16(x, 0, s, e);
    HeadFields(x[..5], a, |name|);
    SameBytes(h, 3, t, e + 3);
    SameBytes(h, 0, t, e);
    assert h[2] == x[2] == s[e + 2];
  }

  lemma SameU16(s: seq<byte>, p: nat, t: seq<byte>, q: nat)
    requires p + 2 <= |s| && q + 2 <= |t| && s[p] == t[q] && s[p + 1] == t[q + 1]
    ensures U16(s, p) == U16(t, q)
  {
  }

  lemma HeadFields(x: seq<byte>, a: nat, b: nat)
    requires |x| == 5 && a < 0x1_0000 && b < 0x1_0000
    ensures var h := Put16(Put16(x, 0, a), 3, b); |h| == 5 && U16(h, 0) == a && U16(h, 3) == b && h[2] == x[2]
  {
    hide Put16;
  }

  lemma SniTail(s: seq<byte>, t: seq<byte>, off: nat, e: nat, elen: nat, slen: nat, name: seq<byte>)
    requires 9 <= off && off + 6 <= e && 5 + slen <= elen && e + elen <= |s| && Replaces(s, t, off, e, slen, name)
    ensures var (d, x) := (|name| - slen, s[e..e + elen]);
            |t| == |s| + d && t[e + 5..e + 5 + |name|] == name && t[e + 5 + |name|..e + elen + d] == x[5 + slen..]
  {
    hide Fields, Lengths.Grow, Apart;
    var (d, x) := (|name| - slen, s[e..e + elen]);
    assert t[e + 5 + |name|..e + elen + d] == t[e + 5 + |name|..][..elen - 5 - slen];
    assert x[5 + slen..] == s[e + 5 + slen..][..elen - 5 - slen];
  }

  lemma SameBytes(s: seq<byte>, p: nat, t: seq<byte>, q: nat)
    requires p + 2 <= |s| && q + 2 <= |t| && U16(s, p) == U16(t, q)
    ensures s[p] == t[q] && s[p + 1] == t[q + 1]
  {
  }

  /** How the lengths contain each other. */
  lemma Nested(s: seq<byte>)
    requires Sni(s).Some?
    ensures var (off, e, elen) := (ExtRange(s).value.0 - 2, FindExt(s, 0).value.0, FindExt(s, 0).value.1);
            var slen := Sni(s).value.1;
            off >= 47 && off + 6 <= e && U16(s, e - 2) == elen && U16(s, e + 3) == slen && slen + 3 <= U16(s, e) <= elen - 2 && s[e + 2] == 0 &&
            e + elen <= off + 2 + U16(s, off) <= RecordEnd(s) <= U16(s, 3) + 5 && RecordEnd(s) <= |s| && U24(s, 6) + 4 <= U16(s, 3) &&
            ExtLenOffset(s, RecordEnd(s)) == Some(off) && FindFrom(s, off + 2, off + 2 + U16(s, off), 0) == Some((e, elen))
  {
    hide FindFrom, ExtLenOffset, U16, U24;
  }

  /** With room in the record length the other lengths only wrap if the handshake length was too small. */
  lemma NewLengths(s: seq<byte>, name: seq<byte>)
    requires Sni(s).Some? && NoWrap(s, name)
    ensures var (off, e, d) := (ExtRange(s).value.0 - 2, FindExt(s, 0).value.0, |name| - Sni(s).value.1);
            var (l, t) := (Fields(s, off, e), Renamed(s, name));
            |t| == |s| + d && |name| < 0x1_0000 && FindExt(s, 0).value.1 + d < 0x1_0000 &&
            Fields(t, off, e) == Lengths(l.record + d, l.handshake + d, l.exts + d, l.ext + d, l.list + d, |name|)
  {
    hide FindFrom, ExtLenOffset, IsHello, FindExt, ExtRange, Sni, U16, U24, Renamed, RecordEnd;
    Nested(s);
    RenamedReplaces(s, name);
  }

  /** The same bytes apart from the fields and the name. */
  lemma SameHead(s: seq<byte>, t: seq<byte>, off: nat, e: nat, slen: nat, name: seq<byte>)
    requires 47 <= off && off + 6 <= e && e + 5 + slen <= |s| && Replaces(s, t, off, e, slen, name)
    ensures |t| == |s| + |name| - slen && t[0] == s[0] && t[1] == s[1] && t[2] == s[2] && t[5] == s[5] && t[9] == s[9] && t[10] == s[10]
    ensures t[e + 2] == s[e + 2] && t[e + 5..e + 5 + |name|] == name
    ensures forall i :: 0 <= i < off && !(3 <= i < 5) && !(6 <= i < 9) ==> t[i] == s[i]
  {
    hide Fields, Lengths.Grow;
    assert Apart(e + 2, off, e);
    assert forall i :: 0 <= i < off && !(3 <= i < 5) && !(6 <= i < 9) ==> Apart(i, off, e);
  }

  lemma NewRange(s: seq<byte>, name: seq<byte>)
    requires Sni(s).Some? && NoWrap(s, name)
    ensures var (t, d) := (Renamed(s, name), |name| - Sni(s).value.1);
            IsHello(t, true) && t[5] == s[5] && ExtRange(t) == Some((ExtRange(s).value.0, ExtRange(s).value.1 + d))
  {
    hide FindFrom, ExtLenOffset, FindExt, Sni, U16, U24, Renamed, Replaces;
    var (off, e, slen) := (ExtRange(s).value.0 - 2, FindExt(s, 0).value.0, Sni(s).value.1);
    var t := Renamed(s, name);
    Nested(s);
    RenamedReplaces(s, name);
    NewLengths(s, name);
    SameHead(s, t, off, e, slen, name);
    OffsetKept(s, t, RecordEnd(s), RecordEnd(s) + |name| - slen, off);
  }

  lemma OfClient(s: seq<byte>)
    ensures IsHello(s, false) <==> IsHello(s, true) && s[5] == 1
  {
  }

  lemma HostFound(t: seq<byte>, p: nat, end: nat, e: nat, elen: nat, n: nat)
    requires ExtRange(t) == Some((p, end)) && FindFrom(t, p, end, 0) == Some((e, elen))
    requires elen >= 5 && t[e + 2] == 0 && U16(t, e + 3) == n && n + 3 <= U16(t, e) <= elen - 2
    ensures ExtractHost(t) == Some(LowerAll(t[e + 5..e + 5 + n])) && Exts(t) == ExtList(t, p, end)
  {
    hide U16, IsHello, ExtRange, FindFrom, LowerAll, ExtList;
  }

  /** A renamed hello in which no length field wraps is accepted as before, has the new name in lower case, and
      has the same extensions but for the server name. */
  lemma RenameKeeps(s: seq<byte>, name: seq<byte>)
    requires IsHello(s, false) && Sni(s).Some? && NoWrap(s, name)
    ensures var (t, k) := (Renamed(s, name), First(Exts(s), 0));
            IsHello(t, false) && ExtractHost(t) == Some(LowerAll(name)) && k < |Exts(s)| &&
            var (e, elen) := FindExt(s, 0).value;
            Exts(t) == Exts(s)[k := Ext(0, NewSni(s[e..e + elen], Sni(s).value.1, name))]
  {
    hide FindFrom, ExtLenOffset, U16, U24, Renamed, Replaces, NewSni, NoWrap, RecordEnd, IsHello, ExtRange, FindExt, HostInSni, Sni,
      ExtractHost, LowerAll, ExtList, First;
    var (off, e, elen) := (ExtRange(s).value.0 - 2, FindExt(s, 0).value.0, FindExt(s, 0).value.1);
    var (t, slen) := (Renamed(s, name), Sni(s).value.1);
    Nested(s);
    RenamedReplaces(s, name);
    NewLengths(s, name);
    NewRange(s, name);
    SameHead(s, t, off, e, slen, name);
    WalkReplaced(s, t, off, off + 2, ExtRange(s).value.1, e, elen, slen, name);
    HostFound(t, off + 2, ExtRange(s).value.1 + |name| - slen, e, elen + |name| - slen, |name|);
    OfClient(s);
    OfClient(t);
  }

  /** A name that fits its own length field is found again exactly if no length field wraps: if the record length
      wraps, the handshake no longer fits the record, and if the handshake length does, it is far too large. */
  lemma RenameAccepted(s: seq<byte>, name: seq<byte>)
    requires IsHello(s, false) && Sni(s).Some? && |name| < 0x1_0000
    ensures Sni(Renamed(s, name)).Some? <==> NoWrap(s, name)
  {
    hide FindFrom, ExtLenOffset, Renamed, Replaces;
    if NoWrap(s, name) {
      RenameKeeps(s, name);
    } else {
      var (off, e, slen) := (ExtRange(s).value.0 - 2, FindExt(s, 0).value.0, Sni(s).value.1);
      Nested(s);
      RenamedReplaces(s, name);
      Wrapped(s, Renamed(s, name), off, e, slen, name);
    }
  }

  /** A hello of 60 bytes with a handshake length of 0 and the name "ab". */
  ghost const ZeroLength: seq<byte> :=
    [0x16, 3, 1, 0, 55, 1, 0, 0, 0, 3, 3] + seq(32, _ => 0) + [0, 0, 0, 0, 0, 11, 0, 0, 0, 7, 0, 5, 0, 0, 2, 97, 98]

  /** It is accepted, and a shorter name makes the handshake length wrap, so that no name is found any more. */
  lemma WrapExample()
    ensures IsHello(ZeroLength, false) && Sni(ZeroLength) == Some((58, 2)) && !NoWrap(ZeroLength, [97])
    ensures Sni(Renamed(ZeroLength, [97])).None?
  {
    ZeroLengthSni();
    hide Sni, IsHello, Renamed, NoWrap;
    RenameAccepted(ZeroLength, [97]);
  }

  lemma ZeroLengthSni()
    ensures IsHello(ZeroLength, false) && Sni(ZeroLength) == Some((58, 2)) && !NoWrap(ZeroLength, [97])
  {
    var s := ZeroLength;
    assert |s| == 60;
    assert RecordEnd(s) == 60 && s[43] == 0;
    assert ExtLenOffset(s, 60) == Some(47);
    assert ExtRange(s) == Some((49, 60));
    assert FindFrom(s, 49, 60, 0) == Some((53, 7));
  }

  /** A hello of eleven bytes is accepted, though it has no byte 43. */
  lemma ShortHello()
    ensures var s := [0x16, 3, 1, 0, 6, 1, 0, 0, 2, 3, 3]; IsHello(s, false) && |s| < 44 && ExtLenOffset(s, |s|).None?
  {
  }

  lemma Wrapped(s: seq<byte>, t: seq<byte>, off: nat, e: nat, slen: nat, name: seq<byte>)
    requires 9 <= off && off + 6 <= e && e + 5 + slen <= |s| && Replaces(s, t, off, e, slen, name)
    requires slen + 9 < U16(s, 3) < 0x1_0000 && U24(s, 6) + 4 <= U16(s, 3) && |name| < 0x1_0000
    requires var d := |name| - slen; U16(s, 3) + d >= 0x1_0000 || U24(s, 6) + d < 0
    ensures |t| >= 9 && U24(t, 6) + 4 > U16(t, 3)
  {
    hide U16, U24;
  }
}
