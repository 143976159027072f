/**
 LLDP data units with the three mandatory TLVs of clause 8.5 of IEEE Std 802.1AB-2009,
 and the topology probes that the controller sends in them.
 */
module Lldps {
  import opened Bytes
  import opened Ethernets
  import Text

  datatype Lldp = Lldp(chassisType: byte, chassis: seq<byte>, portType: byte, port: seq<byte>, ttl: uint16)

  /** A 7-bit type and a 9-bit length packed into two bytes. */
  function TlvHeader(kind: nat, length: nat): seq<byte>
    requires kind < 0x80
  {
    PutUint16(kind * 0x200 + length % 0x200)
  }

  function MarshalId(kind: nat, subtype: byte, data: seq<byte>): Result<seq<byte>>
    requires kind < 0x80
  {
    if |data| > 255 then Err
    else Ok(TlvHeader(kind, |data| + 1) + [subtype] + data)
  }

  function MarshalLldp(p: Lldp): Result<seq<byte>> {
    var chassis :- MarshalId(1, p.chassisType, p.chassis);
    var port :- MarshalId(2, p.portType, p.port);
    Ok(chassis + port + (TlvHeader(3, 2) + PutUint16(p.ttl)) + [0, 0])
  }

  /** The subtype and data of an identifier TLV, and how many bytes it takes. */
  function UnmarshalId(kind: nat, data: seq<byte>): Result<(byte, seq<byte>, nat)> {
    if |data| < 2 then Err
    else
      var header := Uint16(data[0], data[1]);
      var length := header % 0x200;
      if header / 0x200 != kind then Err
      else if |data| < length + 2 then Err
      else if length == 0 then Panic
      else Ok((data[2], data[3..2 + length], length + 2))
  }

  function UnmarshalTtl(data: seq<byte>): Result<uint16> {
    if |data| < 2 then Err
    else
      var header := Uint16(data[0], data[1]);
      if header / 0x200 != 3 then Err
      else if |data| < header % 0x200 + 2 then Err
      else if |data| < 4 then Panic
      else Ok(Uint16(data[2], data[3]))
  }

  function UnmarshalLldp(data: seq<byte>): Result<Lldp> {
    var (chassisType, chassis, n) :- UnmarshalId(1, data);
    if n > |data| then Err
    else
      var (portType, port, m) :- UnmarshalId(2, data[n..]);
      if n + m > |data| then Err
      else
        var ttl :- UnmarshalTtl(data[n + m..]);
        Ok(Lldp(chassisType, chassis, portType, port, ttl))
  }

  /** The header in bytes: seven bits of type, then nine bits of length. */
  lemma HeaderBytes(kind: nat, length: nat)
    requires kind < 0x80 && length < 0x200
    ensures TlvHeader(kind, length) == [2 * kind + length / 0x100, length % 0x100]
  {
    assert length % 0x200 == length;
    var v: int := kind * 0x200 + length;
    assert v / 0x100 == 2 * kind + length / 0x100;
  }

  lemma IdLayout(kind: nat, subtype: byte, data: seq<byte>)
    requires kind < 0x80 && |data| <= 255
    ensures var n: nat := |data| + 1;
      MarshalId(kind, subtype, data) == Ok([2 * kind + n / 0x100, n % 0x100, subtype] + data)
  {
    var n: nat := |data| + 1;
    HeaderBytes(kind, n);
    assert [2 * kind + n / 0x100, n % 0x100] + [subtype] == [2 * kind + n / 0x100, n % 0x100, subtype];
  }

  /** A unit in bytes: chassis, port and time to live in this order, and the end mark. */
  lemma Layout(p: Lldp)
    requires |p.chassis| <= 255 && |p.port| <= 255
    ensures var c, q: nat := |p.chassis| + 1, |p.port| + 1;
      MarshalLldp(p) == Ok(
        [2 + c / 0x100, c % 0x100, p.chassisType] + p.chassis + ([4 + q / 0x100, q % 0x100, p.portType] + p.port)
        + ([6, 2] + PutUint16(p.ttl)) + [0, 0])
    ensures BigEndian(PutUint16(p.ttl)) == p.ttl
  {
    IdLayout(1, p.chassisType, p.chassis);
    IdLayout(2, p.portType, p.port);
    HeaderBytes(3, 2);
    Uint16RoundTrip(p.ttl);
    Uint16IsBigEndian(PutUint16(p.ttl), 0);
    assert PutUint16(p.ttl)[0..2] == PutUint16(p.ttl);
  }

  lemma HeaderRoundTrip(kind: nat, length: nat)
    requires kind < 0x80 && length < 0x200
    ensures var h := TlvHeader(kind, length);
      |h| == 2 && Uint16(h[0], h[1]) / 0x200 == kind && Uint16(h[0], h[1]) % 0x200 == length
  {
    assert length % 0x200 == length;
    var v := kind * 0x200 + length;
    assert v / 0x200 == kind && v % 0x200 == length;
    Uint16RoundTrip(v);
  }

  /** Any identifier TLV by its bytes: type, length, subtype and data. */
  lemma IdReads(kind: nat, data: seq<byte>)
    requires |data| >= 2
    ensures var length := (data[0] % 2) as int * 0x100 + data[1] as int;
      UnmarshalId(kind, data) ==
        if data[0] / 2 != kind || |data| < length + 2 then Err
        else if length == 0 then Panic
        else Ok((data[2], data[3..2 + length], length + 2))
  {
    HeaderFromBytes(data[0], data[1]);
  }

  /** Any TTL TLV by its bytes. */
  lemma TtlReads(data: seq<byte>)
    requires |data| >= 4
    ensures var length := (data[0] % 2) as int * 0x100 + data[1] as int;
      UnmarshalTtl(data) == if data[0] / 2 != 3 || |data| < length + 2 then Err else Ok(BigEndian(data[2..4]))
  {
    HeaderFromBytes(data[0], data[1]);
    Uint16IsBigEndian(data, 2);
  }

  lemma HeaderFromBytes(a: byte, b: byte)
    ensures Uint16(a, b) / 0x200 == a / 2 && Uint16(a, b) % 0x200 == (a % 2) as int * 0x100 + b as int
  {
    var x: int, y: int := a, b;
    assert 0x100 * x + y == 0x200 * (x / 2) + (x % 2 * 0x100 + y);
  }

  lemma IdRoundTrip(kind: nat, subtype: byte, data: seq<byte>, rest: seq<byte>)
    requires kind < 0x80 && |data| <= 255
    ensures UnmarshalId(kind, MarshalId(kind, subtype, data).value + rest) == Ok((subtype, data, |data| + 3))
    ensures |MarshalId(kind, subtype, data).value| == |data| + 3
  {
    var h := TlvHeader(kind, |data| + 1);
    HeaderRoundTrip(kind, |data| + 1);
    var all := MarshalId(kind, subtype, data).value + rest;
    assert all[0] == h[0] && all[1] == h[1] && all[2] == subtype;
    assert all[3..3 + |data|] == data;
  }

  lemma TtlRoundTrip(ttl: uint16, rest: seq<byte>)
    ensures UnmarshalTtl(TlvHeader(3, 2) + PutUint16(ttl) + rest) == Ok(ttl)
  {
    var h, v := TlvHeader(3, 2), PutUint16(ttl);
    HeaderRoundTrip(3, 2);
    Uint16RoundTrip(ttl);
    var all := h + v + rest;
    assert all[0] == h[0] && all[1] == h[1] && all[2] == v[0] && all[3] == v[1];
  }

  /** Three TLVs in a row are read one after the other. */
  lemma PartsRead(p: Lldp, a: seq<byte>, b: seq<byte>, c: seq<byte>)
    requires UnmarshalId(1, a + (b + c)) == Ok((p.chassisType, p.chassis, |a|))
    requires UnmarshalId(2, b + c) == Ok((p.portType, p.port, |b|))
    requires UnmarshalTtl(c) == Ok(p.ttl)
    ensures UnmarshalLldp(a + (b + c)) == Ok(p)
  {
    var data := a + (b + c);
    assert data[|a|..] == b + c;
    assert data[|a| + |b|..] == c;
  }

  lemma Assembles(a: seq<byte>, b: seq<byte>, c: seq<byte>, end: seq<byte>, rest: seq<byte>)
    ensures a + b + c + end + rest == a + (b + (c + (end + rest)))
  {
  }

  /**
   Writing succeeds exactly for identifiers of at most 255 bytes, and then reading gives the unit back,
   whatever optional TLVs or padding come behind it.
   */
  lemma RoundTrip(p: Lldp, rest: seq<byte>)
    ensures MarshalLldp(p).Ok? <==> |p.chassis| <= 255 && |p.port| <= 255
    ensures MarshalLldp(p).Ok? ==> UnmarshalLldp(MarshalLldp(p).value + rest) == Ok(p)
  {
    if |p.chassis| <= 255 && |p.port| <= 255 {
      var a := MarshalId(1, p.chassisType, p.chassis).value;
      var b := MarshalId(2, p.portType, p.port).value;
      var t := TlvHeader(3, 2) + PutUint16(p.ttl);
      var c := t + ([0, 0] + rest);
      IdRoundTrip(1, p.chassisType, p.chassis, b + c);
      IdRoundTrip(2, p.portType, p.port, c);
      TtlRoundTrip(p.ttl, [0, 0] + rest);
      PartsRead(p, a, b, c);
      Assembles(a, b, t, [0, 0], rest);
    }
  }

  // ---------- Probes ----------

  const LLDP_TYPE: uint16 := 0x88CC
  const LLDP_MULTICAST: seq<byte> := [0x01, 0x80, 0xC2, 0x00, 0x00, 0x0E]
  const MAX_PORT: nat := 0xFFFF_FFFF

  /** The ASCII bytes of a numeral. */
  function DecimalBytes(n: nat): seq<byte> {
    var s := Text.Decimal(n);
    Text.DecimalDigits(n);
    seq(|s|, i requires 0 <= i < |s| => s[i] as int)
  }

  function ToString(data: seq<byte>): string {
    seq(|data|, i requires 0 <= i < |data| => data[i] as char)
  }

  /** The ASCII bytes of `cherry/`. */
  const CHERRY: seq<byte> := [0x63, 0x68, 0x65, 0x72, 0x72, 0x79, 0x2F]

  function NewProbe(deviceId: seq<byte>, mac: seq<byte>, port: uint32): Result<seq<byte>> {
    var payload :- MarshalLldp(Lldp(7, deviceId, 5, CHERRY + DecimalBytes(port), 120));
    Ok(Ethernets.Marshal(Ethernet(mac, LLDP_MULTICAST, LLDP_TYPE, payload)))
  }

  predicate IsCherry(p: Lldp) {
    p.chassisType == 7 && p.portType == 5 && |p.port| > 7 && CHERRY <= p.port
  }

  function ExtractDeviceInfo(p: Lldp): Result<(seq<byte>, nat)> {
    if !IsCherry(p) then Err
    else match Text.ParseUint(ToString(p.port[7..]), MAX_PORT)
      case None => Err
      case Some(n) => Ok((p.chassis, n))
  }

  /** What the controller learns from a received frame: the device and port that sent the probe. */
  function ReadProbe(frame: seq<byte>): Result<(seq<byte>, nat)> {
    var e :- Ethernets.Unmarshal(frame);
    if e.kind != LLDP_TYPE then Err
    else
      var p :- UnmarshalLldp(e.payload);
      ExtractDeviceInfo(p)
  }

  /** A unit is taken for a probe exactly if its subtypes fit and its port reads `cherry/` and a 32-bit numeral. */
  lemma OnlyProbesAreRead(p: Lldp)
    ensures ExtractDeviceInfo(p).Ok? <==>
      && p.chassisType == 7 && p.portType == 5 && |p.port| > 7 && ToString(p.port[..7]) == "cherry/"
      && (var s := ToString(p.port[7..]); Text.AllDigits(s) && Text.NumeralValue(s) < 0x1_0000_0000)
    ensures ExtractDeviceInfo(p).Ok? ==>
      ExtractDeviceInfo(p).value == (p.chassis, Text.NumeralValue(ToString(p.port[7..])))
  {
    CherryIsText();
    if |p.port| > 7 {
      Text.ParsesNumerals(ToString(p.port[7..]), MAX_PORT);
      SameText(p.port[..7], CHERRY);
    }
  }

  lemma SameText(a: seq<byte>, b: seq<byte>)
    ensures ToString(a) == ToString(b) <==> a == b
  {
    if ToString(a) == ToString(b) {
      assert |a| == |ToString(a)| == |b|;
      forall i | 0 <= i < |a| ensures a[i] == b[i] {
        assert ToString(a)[i] == ToString(b)[i];
      }
    }
  }

  /** A frame of another type is no probe. */
  lemma OtherFramesAreNot(frame: seq<byte>)
    requires |frame| >= 14 && ReadProbe(frame).Ok?
    ensures BigEndian(frame[12..14]) == 0x88CC ||
      (|frame| >= 18 && BigEndian(frame[12..14]) == 0x8100 && BigEndian(frame[16..18]) == 0x88CC)
  {
    Ethernets.Reads(frame);
  }

  lemma NumeralRoundTrip(n: nat)
    ensures ToString(DecimalBytes(n)) == Text.Decimal(n)
  {
    Text.DecimalDigits(n);
  }

  lemma PortNumeralIsShort(port: uint32)
    ensures 0 < |DecimalBytes(port)| <= 10
  {
    Text.DecimalDigits(port);
    assert Text.Power10(10) == 10_000_000_000 by {
      assert Text.Power10(5) == 100_000;
    }
    Text.DecimalLength(port, 10);
  }

  lemma CherryIsText()
    ensures ToString(CHERRY) == "cherry/"
  {
  }

  /** A probe in bytes: the LLDP multicast address, the port's own address, the LLDP type, and the unit. */
  lemma ProbeLayout(deviceId: seq<byte>, mac: seq<byte>, port: uint32) returns (unit: seq<byte>, frame: seq<byte>)
    requires |mac| == 6 && |deviceId| <= 255
    ensures MarshalLldp(Lldp(7, deviceId, 5, CHERRY + DecimalBytes(port), 120)) == Ok(unit)
    ensures NewProbe(deviceId, mac, port) == Ok(frame)
    ensures |frame| >= 14 && frame[..6] == [0x01, 0x80, 0xC2, 0x00, 0x00, 0x0E] && frame[6..12] == mac
    ensures BigEndian(frame[12..14]) == 0x88CC && frame[14..] == unit
  {
    PortNumeralIsShort(port);
    Layout(Lldp(7, deviceId, 5, CHERRY + DecimalBytes(port), 120));
    unit := MarshalLldp(Lldp(7, deviceId, 5, CHERRY + DecimalBytes(port), 120)).value;
    frame := ProbeFrame(mac, unit);
  }

  lemma ProbeFrame(mac: seq<byte>, unit: seq<byte>) returns (frame: seq<byte>)
    requires |mac| == 6
    ensures frame == Ethernets.Marshal(Ethernet(mac, LLDP_MULTICAST, LLDP_TYPE, unit)) && |frame| >= 14
    ensures frame[..6] == [0x01, 0x80, 0xC2, 0x00, 0x00, 0x0E] && frame[6..12] == mac
    ensures BigEndian(frame[12..14]) == 0x88CC && frame[14..] == unit
  {
    frame := Ethernets.Marshal(Ethernet(mac, LLDP_MULTICAST, LLDP_TYPE, unit));
    Ethernets.Layout(Ethernet(mac, LLDP_MULTICAST, LLDP_TYPE, unit));
  }

  /**
   End to end: a probe can be built exactly for device identifiers of at most 255 bytes, and whoever
   receives it, with or without padding, reads back the very device and port it was sent from.
   */
  lemma ProbeRoundTrip(deviceId: seq<byte>, mac: seq<byte>, port: uint32, padding: seq<byte>)
    requires |mac| == 6
    ensures NewProbe(deviceId, mac, port).Ok? <==> |deviceId| <= 255
    ensures NewProbe(deviceId, mac, port).Ok? ==>
      ReadProbe(NewProbe(deviceId, mac, port).value + padding) == Ok((deviceId, port))
  {
    var name := CHERRY + DecimalBytes(port);
    var p := Lldp(7, deviceId, 5, name, 120);
    PortNumeralIsShort(port);
    RoundTrip(p, padding);
    if |deviceId| <= 255 {
      var unit := MarshalLldp(p).value;
      PaddedFrame(mac, unit, padding);
      Ethernets.RoundTrip(Ethernet(mac, LLDP_MULTICAST, LLDP_TYPE, unit + padding));
      assert name[7..] == DecimalBytes(port);
      NumeralRoundTrip(port);
      Text.DecimalRoundTrip(port, MAX_PORT);
    }
  }

  /** Padding a frame is padding its payload. */
  lemma PaddedFrame(mac: seq<byte>, unit: seq<byte>, padding: seq<byte>)
    ensures Ethernets.Marshal(Ethernet(mac, LLDP_MULTICAST, LLDP_TYPE, unit)) + padding ==
      Ethernets.Marshal(Ethernet(mac, LLDP_MULTICAST, LLDP_TYPE, unit + padding))
  {
  }
}
