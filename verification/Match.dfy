/**
 OpenFlow extensible match fields, section 7.2.3 of OpenFlow Switch Specification 1.3.5:
 a map of fields written in any order and read back.
 */
module Matches {
  import opened Bytes

  const IN_PORT: nat := 0
  const ETH_DST: nat := 3
  const ETH_SRC: nat := 4
  const ETH_TYPE: nat := 5
  const VLAN_VID: nat := 6
  const VLAN_PCP: nat := 7
  const IP_PROTO: nat := 10
  const IPV4_SRC: nat := 11
  const IPV4_DST: nat := 12
  const TCP_SRC: nat := 13
  const TCP_DST: nat := 14
  const UDP_SRC: nat := 15
  const UDP_DST: nat := 16

  const OXM: uint16 := 1
  const OPENFLOW_BASIC: nat := 0x8000

  datatype Value =
    | U8(b: byte)
    | U16(w: uint16)
    | U32(d: uint32)
    | Mac(addr: seq<byte>)
    | Net(ip: seq<byte>, mask: seq<byte>)

  type Fields = map<nat, Value>

  /** Whether `v` is of the type that field `f` holds; addresses are at least 6 bytes long, as their setters demand. */
  predicate Fits(f: nat, v: Value) {
    match v
    case U8(_) => f == VLAN_PCP || f == IP_PROTO
    case U16(_) => f == ETH_TYPE || f == VLAN_VID || f == TCP_SRC || f == TCP_DST || f == UDP_SRC || f == UDP_DST
    case U32(_) => f == IN_PORT
    case Mac(addr) => (f == ETH_DST || f == ETH_SRC) && |addr| >= 6
    case Net(_, _) => f == IPV4_SRC || f == IPV4_DST
  }

  ghost predicate WellTyped(m: Fields) {
    forall f :: f in m ==> Fits(f, m[f])
  }

  // ---------- Writing ----------

  function HeaderWord(field: nat, hasMask: nat, length: nat): uint32
    requires field < 0x80 && hasMask < 2 && length < 0x100
  {
    OPENFLOW_BASIC * 0x1_0000 + field * 0x200 + hasMask * 0x100 + length
  }

  function TlvHeader(field: nat, hasMask: nat, length: nat): (r: seq<byte>)
    requires field < 0x80 && hasMask < 2 && length < 0x100
    ensures |r| == 4
  {
    PutUint32(HeaderWord(field, hasMask, length))
  }

  function MarshalTlv(f: nat, v: Value): (r: Result<seq<byte>>)
    requires Fits(f, v)
    ensures r.Ok? <==> Writable(v)
    ensures r.Ok? ==> 6 <= |r.value| <= 12
  {
    match v
    case U8(_) => Panic
    case U16(w) => Ok(TlvHeader(f, 0, 2) + PutUint16(w))
    case U32(d) => Ok(TlvHeader(f, 0, 4) + PutUint32(d))
    case Mac(addr) => Ok(TlvHeader(f, 0, 6) + Fit(addr, 6))
    case Net(ip, mask) =>
      match To4(ip)
      case None => Err
      case Some(ip4) => Ok(TlvHeader(f, 1, 8) + (ip4 + Fit(mask, 4)))
  }

  /** The fields that can be written at all. */
  predicate Writable(v: Value) {
    !v.U8? && (v.Net? ==> To4(v.ip).Some?)
  }

  /** The header in bytes: the class 0x8000, seven bits of field and one of mask, and the length of what follows. */
  lemma HeaderBytes(field: nat, hasMask: nat, length: nat)
    requires field < 0x80 && hasMask < 2 && length < 0x100
    ensures TlvHeader(field, hasMask, length) == [0x80, 0x00, 2 * field + hasMask, length]
  {
    var v := HeaderWord(field, hasMask, length);
    assert v / 0x1_0000 == 0x8000 && v % 0x1_0000 == 0x100 * (2 * field + hasMask) + length;
  }

  /** The bytes of each kind of field: numbers are big-endian, and an IP address comes before its mask. */
  lemma TlvLayout(f: nat, v: Value)
    requires Fits(f, v) && Writable(v)
    ensures var r := MarshalTlv(f, v).value;
      && r[0] == 0x80 && r[1] == 0x00 && r[2] == 2 * f + (if v.Net? then 1 else 0) && r[3] == |r| - 4
      && (v.U16? ==> |r| == 6 && BigEndian(r[4..6]) == v.w)
      && (v.U32? ==> |r| == 8 && BigEndian(r[4..8]) == v.d)
      && (v.Mac? ==> |r| == 10 && r[4..10] == v.addr[..6])
      && (v.Net? ==> |r| == 12 && r[4..8] == To4(v.ip).value && r[8..12] == Fit(v.mask, 4))
  {
    var r := MarshalTlv(f, v).value;
    HeaderBytes(f, if v.Net? then 1 else 0, |r| - 4);
    match v
    case U16(w) =>
      Uint16RoundTrip(w);
      Uint16IsBigEndian(r, 4);
    case U32(d) =>
      Uint32RoundTrip(d);
      Uint32IsBigEndian(r, 4);
    case _ =>
  }

  /** `order` lists the fields of `m` once each. */
  ghost predicate Lists(order: seq<nat>, m: Fields) {
    && (forall f :: f in order <==> f in m)
    && forall i, j :: 0 <= i < j < |order| ==> order[i] != order[j]
  }

  predicate Ready(order: seq<nat>, m: Fields) {
    forall i :: 0 <= i < |order| ==> order[i] in m && Fits(order[i], m[order[i]]) && Writable(m[order[i]])
  }

  function Body(order: seq<nat>, m: Fields): seq<byte>
    requires Ready(order, m)
  {
    if order == [] then []
    else MarshalTlv(order[0], m[order[0]]).value + Body(order[1..], m)
  }

  function Padding(n: nat): seq<byte> {
    if n % 8 > 0 then Zeros(8 - n % 8) else []
  }

  /** The match with its fields in the given order. */
  function Wire(order: seq<nat>, m: Fields): seq<byte>
    requires Ready(order, m)
  {
    Framed(Body(order, m))
  }

  function Framed(body: seq<byte>): seq<byte> {
    var n := 4 + |body|;
    PutUint16(OXM) + PutUint16(n % 0x1_0000) + body + Padding(n)
  }

  // ---------- Reading ----------

  /** None is a length error; Some(None) a field that is not understood. */
  function ReadField(field: nat, hasMask: nat, buf: seq<byte>): Option<Option<Value>> {
    if field == IN_PORT then
      if |buf| < 8 then None else Some(Some(U32(Uint32(buf[4], buf[5], buf[6], buf[7]))))
    else if field == ETH_DST || field == ETH_SRC then
      if |buf| < 10 then None else Some(Some(Mac(buf[4..10])))
    else if field in {ETH_TYPE, VLAN_VID, TCP_SRC, TCP_DST, UDP_SRC, UDP_DST} then
      if |buf| < 6 then None else Some(Some(U16(Uint16(buf[4], buf[5]))))
    else if field == VLAN_PCP || field == IP_PROTO then
      if |buf| < 5 then None else Some(Some(U8(buf[4])))
    else if field == IPV4_SRC || field == IPV4_DST then
      if |buf| < (if hasMask == 1 then 12 else 8) then None
      else Some(Some(Net(V4_PREFIX + buf[4..8], if hasMask == 1 then buf[8..12] else Zeros(4))))
    else Some(None)
  }

  function Stored(m: Fields, field: nat, v: Option<Value>): Fields {
    if v.Some? then m[field := v.value] else m
  }

  /** The fields after reading all TLVs or as many as come before an error, and whether there was none. */
  function ReadTlvs(m: Fields, buf: seq<byte>): (Fields, bool)
    decreases |buf|
  {
    if |buf| < 4 then (m, true)
    else
      var header := Uint32(buf[0], buf[1], buf[2], buf[3]);
      var field, hasMask, length := header / 0x200 % 0x80, header / 0x100 % 2, header % 0x100;
      if header / 0x1_0000 != OPENFLOW_BASIC || |buf| < 4 + length then (m, false)
      else
        match ReadField(field, hasMask, buf)
        case None => (m, false)
        case Some(v) => ReadTlvs(Stored(m, field, v), buf[4 + length..])
  }

  lemma HeaderFromBytes(buf: seq<byte>)
    requires |buf| >= 4
    ensures var v := Uint32(buf[0], buf[1], buf[2], buf[3]);
      && (v / 0x1_0000 == OPENFLOW_BASIC <==> buf[0] == 0x80 && buf[1] == 0x00)
      && v / 0x200 % 0x80 == buf[2] / 2 && v / 0x100 % 2 == buf[2] % 2 && v % 0x100 == buf[3]
  {
    var a: int, b: int, c: int, d: int := buf[0], buf[1], buf[2], buf[3];
    var v: int := Uint32(buf[0], buf[1], buf[2], buf[3]);
    assert v / 0x1_0000 == 0x100 * a + b;
    assert v / 0x100 == 0x1_0000 * a + 0x100 * b + c;
    assert v / 0x200 == 0x8000 * a + 0x80 * b + c / 2;
  }

  /** One round of reading, by the bytes of the header: class, field, mask bit and length. */
  lemma NextTlv(m: Fields, buf: seq<byte>)
    requires |buf| >= 4
    ensures var field, hasMask, length: int := buf[2] / 2, buf[2] % 2, buf[3];
      ReadTlvs(m, buf) ==
        if buf[0] != 0x80 || buf[1] != 0x00 || |buf| < 4 + length || ReadField(field, hasMask, buf).None? then (m, false)
        else ReadTlvs(Stored(m, field, ReadField(field, hasMask, buf).value), buf[4 + length..])
  {
    HeaderFromBytes(buf);
  }

  /** The value of each kind of field, by its bytes; fields that are not known are skipped, whatever their length. */
  lemma FieldBytes(field: nat, hasMask: nat, buf: seq<byte>)
    requires |buf| >= 4
    ensures var r := ReadField(field, hasMask, buf);
      && (field == IN_PORT ==>
        r == if |buf| < 8 then None else Some(Some(U32(BigEndian(buf[4..8])))))
      && (field in {ETH_DST, ETH_SRC} ==>
        r == if |buf| < 10 then None else Some(Some(Mac(buf[4..10]))))
      && (field in {ETH_TYPE, VLAN_VID, TCP_SRC, TCP_DST, UDP_SRC, UDP_DST} ==>
        r == if |buf| < 6 then None else Some(Some(U16(BigEndian(buf[4..6])))))
      && (field in {VLAN_PCP, IP_PROTO} ==>
        r == if |buf| < 5 then None else Some(Some(U8(buf[4]))))
      && (field in {IPV4_SRC, IPV4_DST} && hasMask == 1 ==>
        r == if |buf| < 12 then None else Some(Some(Net(V4_PREFIX + buf[4..8], buf[8..12]))))
      && (field in {IPV4_SRC, IPV4_DST} && hasMask != 1 ==>
        r == if |buf| < 8 then None else Some(Some(Net(V4_PREFIX + buf[4..8], [0, 0, 0, 0]))))
      && (field in {1, 2, 8, 9} || field > UDP_DST ==> r == Some(None))
  {
    if |buf| >= 6 { Uint16IsBigEndian(buf, 4); }
    if |buf| >= 8 { Uint32IsBigEndian(buf, 4); }
    assert Zeros(4) == [0, 0, 0, 0];
  }

  /** What becomes of a value that is written and read back. */
  function Canonical(v: Value): Value
    requires Writable(v) && (v.Mac? ==> |v.addr| >= 6)
  {
    match v
    case Mac(addr) => Mac(addr[..6])
    case Net(ip, mask) => Net(V4_PREFIX + To4(ip).value, Fit(mask, 4))
    case _ => v
  }

  class Match {
    var m: Fields
    /** Set when a setter was called with something it refuses. */
    var err: bool

    constructor ()
      ensures m == map[] && !err
    {
      m, err := map[], false;
    }

    /** The TLVs of all fields, in whatever order they come. */
    method WriteFields() returns (r: Result<seq<byte>>, ghost order: seq<nat>)
      requires WellTyped(m)
      ensures r.Ok? <==> forall f :: f in m ==> Writable(m[f])
      ensures r.Ok? ==> Lists(order, m) && Ready(order, m) && r.value == Body(order, m)
    {
      order := [];
      var data: seq<byte> := [];
      var todo := m.Keys;
      while todo != {}
        invariant todo <= m.Keys && Ready(order, m) && data == Body(order, m)
        invariant forall f :: f in order <==> f in m.Keys - todo
        invariant forall i, j :: 0 <= i < j < |order| ==> order[i] != order[j]
        decreases todo
      {
        var f :| f in todo;
        assert f !in order;
        todo := todo - {f};
        var tlv := MarshalTlv(f, m[f]);
        if !tlv.Ok? {
          return if tlv.Err? then Err else Panic, order;
        }
        BodyAppend(order, m, f);
        order := order + [f];
        data := data + tlv.value;
      }
      r := Ok(data);
      assert forall f :: f in m ==> f in order;
    }

    /** Writes the match, with its length and its padding to a multiple of 8. */
    method MarshalBinary() returns (r: Result<seq<byte>>)
      requires WellTyped(m)
      ensures r.Ok? <==> !err && forall f :: f in m ==> Writable(m[f])
      ensures r.Ok? ==> exists order :: Lists(order, m) && Ready(order, m) && r.value == Wire(order, m)
    {
      if err {
        return Err;
      }
      var data := PutUint16(OXM) + [0, 0];
      ghost var order;
      r, order := WriteFields();
      if !r.Ok? {
        return;
      }
      data := data + r.value;
      WireAssembles(order, m, data);
      var n := |data| % 0x1_0000;
      data := data[..2] + PutUint16(n) + data[4..];
      var rem := |data| % 8;
      if rem > 0 {
        data := data + Zeros(8 - rem);
      }
      r := Ok(data);
    }

    /** Reads the fields over those already there; on an error the fields read so far stay. */
    method UnmarshalBinary(data: seq<byte>) returns (r: Result<()>)
      modifies this
      ensures BadHeader(data) ==> r.Err? && m == old(m)
      ensures !BadHeader(data) ==> var n := Uint16(data[2], data[3]);
        if n < 4 then r.Panic? && m == old(m)
        else m == ReadTlvs(old(m), data[4..n]).0 && r == (if ReadTlvs(old(m), data[4..n]).1 then Ok(()) else Err)
    {
      if |data| < 4 {
        return Err;
      }
      if Uint16(data[0], data[1]) != OXM {
        return Err;
      }
      var n := Uint16(data[2], data[3]);
      if |data| < n {
        return Err;
      }
      if n < 4 {
        return Panic;
      }
      r := UnmarshalTlvs(data[4..n]);
    }

    method UnmarshalTlvs(data: seq<byte>) returns (r: Result<()>)
      modifies this
      ensures m == ReadTlvs(old(m), data).0 && r == (if ReadTlvs(old(m), data).1 then Ok(()) else Err)
    {
      var buf := data;
      while |buf| >= 4
        invariant ReadTlvs(old(m), data) == ReadTlvs(m, buf)
        decreases |buf|
      {
        var header := Uint32(buf[0], buf[1], buf[2], buf[3]);
        if header / 0x1_0000 != OPENFLOW_BASIC {
          return Err;
        }
        var field, hasMask, length := header / 0x200 % 0x80, header / 0x100 % 2, header % 0x100;
        if |buf| < 4 + length {
          return Err;
        }
        var v := ReadField(field, hasMask, buf);
        if v == None {
          return Err;
        }
        m := Stored(m, field, v.value);
        buf := buf[4 + length..];
      }
      r := Ok(());
    }
  }

  predicate BadHeader(data: seq<byte>) {
    |data| < 4 || Uint16(data[0], data[1]) != OXM || |data| < Uint16(data[2], data[3])
  }

  /** Filling in the length and padding to a multiple of 8 completes the match. */
  lemma WireAssembles(order: seq<nat>, m: Fields, data: seq<byte>)
    requires Ready(order, m) && data == PutUint16(OXM) + [0, 0] + Body(order, m)
    ensures |data| >= 4
    ensures var filled := data[..2] + PutUint16(|data| % 0x1_0000) + data[4..];
      Wire(order, m) == if |filled| % 8 > 0 then filled + Zeros(8 - |filled| % 8) else filled
  {
    assert data[..2] == PutUint16(OXM) && data[4..] == Body(order, m);
  }

  // ---------- Round trip ----------

  lemma {:induction false} BodyAppend(order: seq<nat>, m: Fields, f: nat)
    requires Ready(order, m) && f in m && Fits(f, m[f]) && Writable(m[f])
    ensures Ready(order + [f], m)
    ensures Body(order + [f], m) == Body(order, m) + MarshalTlv(f, m[f]).value
    decreases order
  {
    if order == [] {
      assert [f][1..] == [] && Body([f], m) == MarshalTlv(f, m[f]).value + Body([f][1..], m);
      assert order + [f] == [f];
    } else {
      BodyAppend(order[1..], m, f);
      var all, first, last := order + [f], MarshalTlv(order[0], m[order[0]]).value, MarshalTlv(f, m[f]).value;
      assert all[0] == order[0] && all[1..] == order[1..] + [f];
      assert Body(all, m) == first + Body(all[1..], m);
      assert first + (Body(order[1..], m) + last) == first + Body(order[1..], m) + last;
    }
  }

  lemma HeaderWordSplits(field: nat, hasMask: nat, length: nat)
    requires field < 0x80 && hasMask < 2 && length < 0x100
    ensures var v := HeaderWord(field, hasMask, length);
      v / 0x1_0000 == OPENFLOW_BASIC && v / 0x200 % 0x80 == field && v / 0x100 % 2 == hasMask && v % 0x100 == length
  {
    var v := HeaderWord(field, hasMask, length);
    assert v / 0x100 == 0x80_0000 + field * 2 + hasMask;
    assert v / 0x200 == 0x40_0000 + field;
  }

  lemma HeaderReads(field: nat, hasMask: nat, length: nat)
    requires field < 0x80 && hasMask < 2 && length < 0x100
    ensures var h := TlvHeader(field, hasMask, length);
      Uint32(h[0], h[1], h[2], h[3]) == HeaderWord(field, hasMask, length)
  {
    Uint32RoundTrip(HeaderWord(field, hasMask, length));
  }

  /** The first TLV is understood as what it was written from, and reading goes on after it. */
  lemma ReadsFirst(m0: Fields, f: nat, v: Value, rest: seq<byte>)
    requires Fits(f, v) && Writable(v)
    ensures ReadTlvs(m0, MarshalTlv(f, v).value + rest) == ReadTlvs(m0[f := Canonical(v)], rest)
  {
    var tlv := MarshalTlv(f, v).value;
    var buf := tlv + rest;
    var length := |tlv| - 4;
    var hasMask := if v.Net? then 1 else 0;
    HeaderReads(f, hasMask, length);
    HeaderWordSplits(f, hasMask, length);
    var h := TlvHeader(f, hasMask, length);
    assert buf[0] == h[0] && buf[1] == h[1] && buf[2] == h[2] && buf[3] == h[3];
    assert buf[|tlv|..] == rest;
    FieldReads(f, v, rest);
  }

  lemma FieldReads(f: nat, v: Value, rest: seq<byte>)
    requires Fits(f, v) && Writable(v)
    ensures ReadField(f, if v.Net? then 1 else 0, MarshalTlv(f, v).value + rest) == Some(Some(Canonical(v)))
  {
    var tlv := MarshalTlv(f, v).value;
    var buf := tlv + rest;
    match v
    case U16(w) =>
      Uint16RoundTrip(w);
      assert buf[4] == PutUint16(w)[0] && buf[5] == PutUint16(w)[1];
    case U32(d) =>
      Uint32RoundTrip(d);
      var p := PutUint32(d);
      assert buf[4] == p[0] && buf[5] == p[1] && buf[6] == p[2] && buf[7] == p[3];
    case Mac(addr) =>
      assert buf[4..10] == addr[..6];
    case Net(ip, mask) =>
      assert buf[4..8] == To4(ip).value;
      assert buf[8..12] == Fit(mask, 4);
  }

  function Overlay(order: seq<nat>, m: Fields, m0: Fields): Fields
    requires Ready(order, m)
    decreases order
  {
    if order == [] then m0 else Overlay(order[1..], m, m0[order[0] := Canonical(m[order[0]])])
  }

  lemma {:induction false} ReadsBody(order: seq<nat>, m: Fields, m0: Fields)
    requires Ready(order, m)
    ensures ReadTlvs(m0, Body(order, m)) == (Overlay(order, m, m0), true)
    decreases order
  {
    if order != [] {
      var f := order[0];
      ReadsFirst(m0, f, m[f], Body(order[1..], m));
      ReadsBody(order[1..], m, m0[f := Canonical(m[f])]);
    }
  }

  lemma {:induction false} OverlayAt(order: seq<nat>, m: Fields, m0: Fields, f: nat)
    requires Ready(order, m)
    ensures f in Overlay(order, m, m0) <==> f in m0 || f in order
    ensures f in order ==> f in m && Writable(m[f]) && Fits(f, m[f]) && Overlay(order, m, m0)[f] == Canonical(m[f])
    ensures f in m0 && f !in order ==> Overlay(order, m, m0)[f] == m0[f]
    decreases order
  {
    if order != [] {
      OverlayAt(order[1..], m, m0[order[0] := Canonical(m[order[0]])], f);
    }
  }

  /** All fields as they come back from the wire. */
  ghost function CanonicalFields(m: Fields): Fields
    requires WellTyped(m) && forall f :: f in m ==> Writable(m[f])
  {
    map f | f in m :: Canonical(m[f])
  }

  lemma {:induction false} BodyLength(order: seq<nat>, m: Fields)
    requires Ready(order, m)
    ensures |Body(order, m)| <= 12 * |order|
    decreases order
  {
    if order != [] {
      BodyLength(order[1..], m);
    }
  }

  lemma {:induction false} DistinctBelow(order: seq<nat>, bound: nat)
    requires forall i :: 0 <= i < |order| ==> order[i] < bound
    requires forall i, j :: 0 <= i < j < |order| ==> order[i] != order[j]
    ensures |order| <= bound
    decreases bound
  {
    if order != [] {
      if k :| 0 <= k < |order| && order[k] == bound - 1 {
        DistinctBelow(order[..k] + order[k+1..], bound - 1);
      } else {
        assert bound > 0 by { assert order[0] < bound; }
        DistinctBelow(order, bound - 1);
      }
    }
  }

  /** The match in bytes: type 1, a length that counts all but the padding, the fields, and zeros to a multiple of 8. */
  lemma WireLayout(order: seq<nat>, m: Fields)
    requires Lists(order, m) && Ready(order, m)
    ensures var data, n := Wire(order, m), 4 + |Body(order, m)|;
      && |data| % 8 == 0 && |data| - 8 < n <= |data| && !BadHeader(data) && Uint16(data[2], data[3]) == n
      && data[0] == 0 && data[1] == 1 && BigEndian(data[2..4]) == n
      && data[4..n] == Body(order, m) && data[n..] == Zeros(|data| - n)
  {
    OrderIsShort(order, m);
    FrameLayout(Body(order, m));
  }

  /** In whatever order the fields are written, reading the match into an empty one gives every field back. */
  lemma RoundTrip(order: seq<nat>, m: Fields)
    requires WellTyped(m) && (forall f :: f in m ==> Writable(m[f]))
    requires Lists(order, m) && Ready(order, m)
    ensures var data := Wire(order, m);
      && |data| >= 4 && !BadHeader(data) && 4 <= Uint16(data[2], data[3]) <= |data|
      && ReadTlvs(map[], data[4..Uint16(data[2], data[3])]) == (CanonicalFields(m), true)
  {
    WireLayout(order, m);
    ReadsBody(order, m, map[]);
    RestoresAll(order, m);
  }

  lemma OrderIsShort(order: seq<nat>, m: Fields)
    requires Ready(order, m) && Lists(order, m)
    ensures |Body(order, m)| <= 204
  {
    BodyLength(order, m);
    DistinctBelow(order, 17);
  }

  lemma PaddingAligns(n: nat)
    ensures (n + |Padding(n)|) % 8 == 0 && |Padding(n)| < 8
  {
  }

  lemma FrameLayout(body: seq<byte>)
    requires |body| <= 204
    ensures var data, n := Framed(body), 4 + |body|;
      && |data| == n + |Padding(n)|
      && Uint16(data[0], data[1]) == OXM && Uint16(data[2], data[3]) == n
      && data[0] == 0 && data[1] == 1 && BigEndian(data[2..4]) == n
      && data[4..n] == body && data[n..] == Zeros(|data| - n)
      && |data| % 8 == 0 && |data| - 8 < n <= |data| && !BadHeader(data)
  {
    var n := 4 + |body|;
    var data, kind, length := Framed(body), PutUint16(OXM), PutUint16(n);
    Uint16RoundTrip(n);
    assert n % 0x1_0000 == n;
    PaddingAligns(n);
    assert data == kind + length + (body + Padding(n));
    assert data[0] == kind[0] && data[1] == kind[1];
    assert data[2] == length[0] && data[3] == length[1];
    assert data[4..n] == body && data[n..] == Padding(n);
    Uint16IsBigEndian(data, 2);
  }

  lemma RestoresAll(order: seq<nat>, m: Fields)
    requires WellTyped(m) && (forall f :: f in m ==> Writable(m[f]))
    requires Lists(order, m) && Ready(order, m)
    ensures Overlay(order, m, map[]) == CanonicalFields(m)
  {
    forall f ensures f in Overlay(order, m, map[]) <==> f in m {
      OverlayAt(order, m, map[], f);
    }
    forall f | f in m ensures Overlay(order, m, map[])[f] == CanonicalFields(m)[f] {
      OverlayAt(order, m, map[], f);
    }
  }

  /** With 6-byte addresses, 4-byte masks and IP addresses in 16-byte form, nothing changes at all. */
  lemma CanonicalIsSame(m: Fields)
    requires WellTyped(m) && (forall f :: f in m ==> Writable(m[f]))
    requires forall f :: f in m ==>
      (m[f].Mac? ==> |m[f].addr| == 6) && (m[f].Net? ==> |m[f].ip| == 16 && |m[f].mask| == 4)
    ensures CanonicalFields(m) == m
  {
    forall f | f in m ensures Canonical(m[f]) == m[f] {
      if m[f].Net? {
        assert m[f].ip == m[f].ip[..12] + m[f].ip[12..];
      }
    }
  }
}
