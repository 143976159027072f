/** Ethernet frames. */
module Ethernets {
  import opened Bytes

  datatype Ethernet = Ethernet(src: seq<byte>, dst: seq<byte>, kind: uint16, payload: seq<byte>)

  const VLAN_TAG: uint16 := 0x8100

  function Marshal(e: Ethernet): (r: seq<byte>)
    ensures |r| == 14 + |e.payload|
  {
    Fit(e.dst, 6) + Fit(e.src, 6) + PutUint16(e.kind) + e.payload
  }

  function Unmarshal(data: seq<byte>): Result<Ethernet> {
    if |data| < 14 then Err
    else if Uint16(data[12], data[13]) != VLAN_TAG then
      Ok(Ethernet(data[6..12], data[..6], Uint16(data[12], data[13]), data[14..]))
    else if |data| < 18 then Panic
    else Ok(Ethernet(data[6..12], data[..6], Uint16(data[16], data[17]), data[18..]))
  }

  /** A frame in bytes: destination, source, the type in network byte order, and the payload. */
  lemma Layout(e: Ethernet)
    requires |e.src| == 6 && |e.dst| == 6
    ensures var r := Marshal(e);
      && r[..6] == e.dst && r[6..12] == e.src && r[14..] == e.payload
      && Uint16(r[12], r[13]) == BigEndian(r[12..14]) == e.kind
  {
    var r := Marshal(e);
    Uint16RoundTrip(e.kind);
    Uint16IsBigEndian(r, 12);
    assert r == e.dst + (e.src + (PutUint16(e.kind) + e.payload));
    assert r[6..] == e.src + (PutUint16(e.kind) + e.payload);
    assert r[6..12] == e.src;
    assert r[12] == PutUint16(e.kind)[0] && r[13] == PutUint16(e.kind)[1];
  }

  /** Any frame by its bytes: behind the VLAN tag type, two bytes of tag come before the type proper. */
  lemma Reads(data: seq<byte>)
    ensures |data| < 14 <==> Unmarshal(data).Err?
    ensures |data| >= 14 && BigEndian(data[12..14]) != 0x8100 ==>
      Unmarshal(data) == Ok(Ethernet(data[6..12], data[..6], BigEndian(data[12..14]), data[14..]))
    ensures |data| >= 18 && BigEndian(data[12..14]) == 0x8100 ==>
      Unmarshal(data) == Ok(Ethernet(data[6..12], data[..6], BigEndian(data[16..18]), data[18..]))
    ensures 14 <= |data| < 18 && BigEndian(data[12..14]) == 0x8100 ==> Unmarshal(data).Panic?
  {
    if |data| >= 14 { Uint16IsBigEndian(data, 12); }
    if |data| >= 18 { Uint16IsBigEndian(data, 16); }
  }

  /** A frame with 6-byte addresses reads back as it was written exactly when its type is not the VLAN tag. */
  lemma RoundTrip(e: Ethernet)
    requires |e.src| == 6 && |e.dst| == 6
    ensures Unmarshal(Marshal(e)) == Ok(e) <==> e.kind != VLAN_TAG
  {
    Layout(e);
    if e.kind == VLAN_TAG && |Marshal(e)| >= 18 {
      assert |Unmarshal(Marshal(e)).value.payload| < |e.payload|;
    }
  }

  /** A tag that a switch puts in after the addresses changes nothing: the frame reads as the untagged one. */
  lemma TagIsSkipped(e: Ethernet, tag: uint16)
    requires |e.src| == 6 && |e.dst| == 6
    ensures Unmarshal(Marshal(e)[..12] + PutUint16(VLAN_TAG) + PutUint16(tag) + Marshal(e)[12..]) == Ok(e)
  {
    Layout(e);
    Uint16RoundTrip(VLAN_TAG);
    var r := Marshal(e);
    var data := r[..12] + PutUint16(VLAN_TAG) + PutUint16(tag) + r[12..];
    assert data[..12] == r[..12] && data[16..] == r[12..];
    assert data[6..12] == data[..12][6..12] == r[..12][6..12] == r[6..12];
    assert data[..6] == data[..12][..6] == r[..12][..6] == r[..6];
    assert data[12] == PutUint16(VLAN_TAG)[0] && data[13] == PutUint16(VLAN_TAG)[1];
    assert data[16] == r[12] && data[17] == r[13] && data[18..] == r[14..];
  }
}
