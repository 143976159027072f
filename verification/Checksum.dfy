/** The Internet checksum of section 1 of RFC 1071, and its use in IPv4 headers and ICMP echoes. */
module Checksums {
  import opened Bytes

  const WRAP: nat := 0x1_0000_0000

  /** The sum of the big-endian 16-bit words of `data`, padded with a zero byte if its length is odd. */
  function WordSum(data: seq<byte>): nat {
    if data == [] then 0
    else if |data| == 1 then Uint16(data[0], 0)
    else Uint16(data[0], data[1]) + WordSum(data[2..])
  }

  /** The 16-bit one's complement value of a sum: its residue modulo 65535, but zero only for zero. */
  function Fold(sum: nat): uint16 {
    if sum == 0 then 0 else (sum - 1) % 0xFFFF + 1
  }

  function Checksum(data: seq<byte>): uint16 {
    0xFFFF - Fold(WordSum(data))
  }

  method AroundCarry(sum: uint32) returns (v: uint16)
    ensures v == Fold(sum)
    ensures v % 0xFFFF == sum % 0xFFFF && (v == 0 <==> sum == 0)
  {
    var w: uint32 := sum;
    while w / 0x1_0000 != 0
      invariant w % 0xFFFF == sum % 0xFFFF && (w == 0 <==> sum == 0)
      decreases w
    {
      var upper := w / 0x1_0000 % 0x1_0000;
      var lower := w % 0x1_0000;
      CarryKeeps(upper, lower);
      w := upper + lower;
    }
    v := w;
    FoldUnique(sum, v);
  }

  lemma CarryKeeps(upper: nat, lower: nat)
    ensures (upper + lower) % 0xFFFF == (0x1_0000 * upper + lower) % 0xFFFF
  {
    assert 0x1_0000 * upper + lower == 0xFFFF * upper + (upper + lower);
  }

  lemma FoldUnique(sum: nat, v: uint16)
    requires v % 0xFFFF == sum % 0xFFFF && (v == 0 <==> sum == 0)
    ensures v == Fold(sum)
  {
    if sum > 0 {
      assert (sum - 1) % 0xFFFF == (v - 1) % 0xFFFF;
    }
  }

  /** The running sum of the words of `v` in a 32-bit variable. */
  method SumWords(v: seq<byte>) returns (sum: uint32)
    requires |v| % 2 == 0
    ensures sum == WordSum(v) % WRAP
  {
    sum := 0;
    var i := 0;
    while i < |v|
      invariant 0 <= i <= |v| && i % 2 == 0
      invariant (sum + WordSum(v[i..])) % WRAP == WordSum(v) % WRAP
    {
      NextWord(v, i);
      ModStep(sum + Uint16(v[i], v[i+1]), WordSum(v[i+2..]));
      sum := (sum + Uint16(v[i], v[i+1])) % WRAP;
      i := i + 2;
    }
    assert v[i..] == [] && WordSum(v[i..]) == 0;
    SmallMod(sum);
  }

  method CalculateChecksum(header: seq<byte>) returns (c: uint16)
    ensures c == 0xFFFF - Fold(WordSum(header) % WRAP)
    ensures |header| <= 131074 ==> c == Checksum(header)
  {
    var v := header;
    if |v| % 2 != 0 {
      v := v + [0];
      PadKeepsSum(header);
    }
    SumBound(header);
    var sum := SumWords(v);
    sum := AroundCarry(sum);
    c := 0xFFFF - sum;
  }

  lemma NextWord(v: seq<byte>, i: nat)
    requires i + 2 <= |v|
    ensures WordSum(v[i..]) == Uint16(v[i], v[i+1]) + WordSum(v[i+2..])
  {
    assert v[i..][2..] == v[i+2..];
  }

  lemma SmallMod(a: nat)
    ensures a < WRAP ==> a % WRAP == a
  {
  }

  lemma ModStep(a: nat, b: nat)
    ensures (a % WRAP + b) % WRAP == (a + b) % WRAP
  {
    assert a == WRAP * (a / WRAP) + a % WRAP;
  }

  lemma {:induction false} PadKeepsSum(data: seq<byte>)
    requires |data| % 2 == 1
    ensures WordSum(data + [0]) == WordSum(data)
    decreases |data|
  {
    if |data| > 1 {
      PadKeepsSum(data[2..]);
      assert (data + [0])[2..] == data[2..] + [0];
    } else {
      assert (data + [0])[2..] == [];
    }
  }

  lemma {:induction false} SumBound(data: seq<byte>)
    ensures WordSum(data) <= 0xFFFF * ((|data| + 1) / 2)
    ensures |data| <= 131074 ==> WordSum(data) < WRAP
    decreases |data|
  {
    if |data| > 1 {
      SumBound(data[2..]);
    }
  }

  /** The 32-bit sum is wide enough for every input of a given length exactly up to 131074 bytes. */
  lemma NoWrapExactly(n: nat)
    ensures (forall data: seq<byte> :: |data| == n ==> WordSum(data) < WRAP) <==> n <= 131074
  {
    if n <= 131074 {
      forall data: seq<byte> | |data| == n ensures WordSum(data) < WRAP {
        SumBound(data);
      }
    } else {
      var ones: seq<byte> := seq(n, _ => 0xFF);
      OnesAreLarge(n);
      assert |ones| == n && WordSum(ones) >= WRAP;
    }
  }

  lemma {:induction false} OnesAreLarge(n: nat)
    ensures WordSum(seq(n, _ => 0xFF)) >= 0xFFFF * (n / 2) + 0xFF00 * (n % 2)
    decreases n
  {
    if n >= 2 {
      OnesAreLarge(n - 2);
      assert seq<byte>(n, _ => 0xFF)[2..] == seq<byte>(n - 2, _ => 0xFF);
    }
  }

  // ---------- Inserting the checksum ----------

  /** `data` with the 16-bit word at `at` overwritten. */
  function Patched(data: seq<byte>, at: nat, word: uint16): (r: seq<byte>)
    requires at + 2 <= |data|
    ensures |r| == |data|
  {
    data[..at] + PutUint16(word) + data[at + 2..]
  }

  lemma {:induction false} PatchAddsWord(data: seq<byte>, at: nat, word: uint16)
    requires at % 2 == 0 && at + 2 <= |data| && data[at] == 0 && data[at+1] == 0
    ensures WordSum(Patched(data, at, word)) == WordSum(data) + word
    decreases at
  {
    var p := Patched(data, at, word);
    if at == 0 {
      assert p[2..] == data[2..];
      Uint16RoundTrip(word);
    } else {
      PatchAddsWord(data[2..], at - 2, word);
      assert p[2..] == Patched(data[2..], at - 2, word);
    }
  }

  /** Once its checksum is inserted where zeros were, a message sums to zero. */
  lemma InsertedChecksumVerifies(data: seq<byte>, at: nat)
    requires at % 2 == 0 && at + 2 <= |data| && data[at] == 0 && data[at+1] == 0
    ensures Checksum(Patched(data, at, Checksum(data))) == 0
  {
    var s := WordSum(data);
    PatchAddsWord(data, at, Checksum(data));
    FoldComplement(s);
  }

  /** Adding the one's complement of a sum's fold gives all ones. */
  lemma FoldComplement(s: nat)
    ensures Fold(s + 0xFFFF - Fold(s)) == 0xFFFF
  {
    if s > 0 {
      var q, r := (s - 1) / 0xFFFF, (s - 1) % 0xFFFF;
      assert s + 0xFFFF - Fold(s) == 0xFFFF * (q + 1);
      AllOnes(q);
    }
  }

  lemma AllOnes(q: nat)
    ensures Fold(0xFFFF * (q + 1)) == 0xFFFF
  {
    assert 0xFFFF * (q + 1) - 1 == 0xFFFF * q + 0xFFFE;
    assert (0xFFFF * q + 0xFFFE) % 0xFFFF == 0xFFFE;
  }

  // ---------- IPv4 ----------

  datatype IPv4 = IPv4(version: byte, ihl: byte, dscp: byte, ecn: byte, length: uint16, id: uint16, flags: byte,
    offset: uint16, ttl: byte, protocol: byte, src: seq<byte>, dst: seq<byte>, payload: seq<byte>)

  /** The header before its checksum is known. */
  function BlankHeader(p: IPv4, src: seq<byte>, dst: seq<byte>): (r: seq<byte>)
    requires |src| == 4 && |dst| == 4
    ensures |r| == 20 && r[10] == 0 && r[11] == 0
  {
    var length, id := PutUint16(p.length), PutUint16(p.id);
    var fragment := PutUint16(p.flags % 8 * 0x2000 + p.offset % 0x2000);
    [p.version % 0x10 * 0x10 + p.ihl % 0x10, p.dscp % 0x40 * 4 + p.ecn % 4, length[0], length[1],
     id[0], id[1], fragment[0], fragment[1],
     p.ttl, p.protocol, 0, 0,
     src[0], src[1], src[2], src[3],
     dst[0], dst[1], dst[2], dst[3]]
  }

  /** The header by the fields of section 3.1 of RFC 791, read from its bytes. */
  lemma HeaderLayout(p: IPv4, src: seq<byte>, dst: seq<byte>)
    requires |src| == 4 && |dst| == 4
    ensures var r := BlankHeader(p, src, dst);
      && r[0] / 0x10 == p.version % 0x10 && r[0] % 0x10 == p.ihl % 0x10
      && r[1] / 4 == p.dscp % 0x40 && r[1] % 4 == p.ecn % 4
      && BigEndian(r[2..4]) == p.length && BigEndian(r[4..6]) == p.id
      && BigEndian(r[6..8]) / 0x2000 == p.flags % 8 && BigEndian(r[6..8]) % 0x2000 == p.offset % 0x2000
      && r[8] == p.ttl && r[9] == p.protocol && r[12..16] == src && r[16..20] == dst
  {
    var r := BlankHeader(p, src, dst);
    Uint16IsBigEndian(r, 2);
    Uint16IsBigEndian(r, 4);
    Uint16IsBigEndian(r, 6);
    Uint16RoundTrip(p.length);
    Uint16RoundTrip(p.id);
    Uint16RoundTrip(p.flags % 8 * 0x2000 + p.offset % 0x2000);
  }

  /** A packet with its checksum in place. */
  function IPv4Bytes(p: IPv4, src: seq<byte>, dst: seq<byte>): seq<byte>
    requires |src| == 4 && |dst| == 4
  {
    Patched(BlankHeader(p, src, dst), 10, Checksum(BlankHeader(p, src, dst))) + p.payload
  }

  /** None stands for the error about an address that is not an IPv4 address. */
  method MarshalIPv4(p: IPv4) returns (r: Option<seq<byte>>)
    ensures r.Some? <==> To4(p.src).Some? && To4(p.dst).Some?
    ensures r.Some? ==> r.value == IPv4Bytes(p, To4(p.src).value, To4(p.dst).value)
    ensures r.Some? ==> |r.value| == 20 + |p.payload| && r.value[20..] == p.payload && Checksum(r.value[..20]) == 0
  {
    if To4(p.src) == None || To4(p.dst) == None {
      return None;
    }
    var blank := BlankHeader(p, To4(p.src).value, To4(p.dst).value);
    var checksum := CalculateChecksum(blank);
    InsertedChecksumVerifies(blank, 10);
    var header := Patched(blank, 10, checksum);
    r := Some(header + p.payload);
    assert r.value[..20] == header;
  }

  /** None stands for the error about a packet that is too short. */
  function UnmarshalIPv4(data: seq<byte>): Option<IPv4> {
    if |data| < 20 then None
    else
      var fragment := Uint16(data[6], data[7]);
      var headerLen := data[0] % 0x10 * 4;
      Some(IPv4(data[0] / 0x10, data[0] % 0x10, data[1] / 4, data[1] % 4, Uint16(data[2], data[3]),
        Uint16(data[4], data[5]), fragment / 0x2000, fragment % 0x2000, data[8], data[9], data[12..16], data[16..20],
        if |data| > headerLen then data[headerLen..] else []))
  }

  /** The fields fit the bits that the header has for them. */
  predicate FieldsFit(p: IPv4) {
    p.version < 0x10 && p.ihl < 0x10 && p.dscp < 0x40 && p.ecn < 4 && p.flags < 8 && p.offset < 0x2000
  }

  lemma PatchedKeepsRest(data: seq<byte>, at: nat, word: uint16)
    requires at + 2 <= |data|
    ensures var r := Patched(data, at, word);
      (forall i :: 0 <= i < |data| && i != at && i != at + 1 ==> r[i] == data[i])
      && r[..at] == data[..at] && r[at+2..] == data[at+2..]
  {
  }

  lemma HeaderReads(p: IPv4, src: seq<byte>, dst: seq<byte>)
    requires |src| == 4 && |dst| == 4
    ensures var q := UnmarshalIPv4(IPv4Bytes(p, src, dst));
      && q.Some? && q.value.src == src && q.value.dst == dst
      && q.value.version == p.version % 0x10 && q.value.ihl == p.ihl % 0x10
      && q.value.dscp == p.dscp % 0x40 && q.value.ecn == p.ecn % 4
      && q.value.length == p.length && q.value.id == p.id
      && q.value.flags == p.flags % 8 && q.value.offset == p.offset % 0x2000
      && q.value.ttl == p.ttl && q.value.protocol == p.protocol
  {
    var blank := BlankHeader(p, src, dst);
    var data := IPv4Bytes(p, src, dst);
    PatchedKeepsRest(blank, 10, Checksum(blank));
    HeaderLayout(p, src, dst);
    Uint16IsBigEndian(blank, 2);
    Uint16IsBigEndian(blank, 4);
    Uint16IsBigEndian(blank, 6);
    assert forall i :: 0 <= i < 20 && i != 10 && i != 11 ==> data[i] == blank[i];
    assert data[12..16] == blank[12..16] && data[16..20] == blank[16..20];
  }

  /** Reading takes the payload from where the header length says it begins. */
  lemma PayloadReads(p: IPv4, src: seq<byte>, dst: seq<byte>)
    requires |src| == 4 && |dst| == 4
    ensures var q, ihl := UnmarshalIPv4(IPv4Bytes(p, src, dst)), p.ihl % 0x10;
      q.Some? && (q.value.payload == p.payload <==> ihl == 5 || (ihl > 5 && p.payload == []))
  {
    HeaderReads(p, src, dst);
    var data := IPv4Bytes(p, src, dst);
    var headerLen: nat := p.ihl % 0x10 * 4;
    assert data[0] % 0x10 == p.ihl % 0x10;
    assert |data| == 20 + |p.payload| && data[20..] == p.payload;
    if |data| > headerLen {
      assert |data[headerLen..]| == 20 + |p.payload| - headerLen;
    }
  }

  /**
   A packet reads back as it was written exactly if its fields fit their bits and its header length is the
   20 bytes that are written, or is larger while there is no payload.
   */
  lemma IPv4RoundTrip(p: IPv4)
    requires |p.src| == 4 && |p.dst| == 4
    ensures UnmarshalIPv4(IPv4Bytes(p, p.src, p.dst)) == Some(p) <==>
      FieldsFit(p) && (p.ihl == 5 || (p.ihl > 5 && p.payload == []))
  {
    HeaderReads(p, p.src, p.dst);
    PayloadReads(p, p.src, p.dst);
    var q := UnmarshalIPv4(IPv4Bytes(p, p.src, p.dst)).value;
    SameFields(p, q);
  }

  /** Fields cut to their bits are the same exactly if they fit. */
  lemma SameFields(p: IPv4, q: IPv4)
    requires q.src == p.src && q.dst == p.dst && q.length == p.length && q.id == p.id && q.ttl == p.ttl && q.protocol == p.protocol
    requires q.version == p.version % 0x10 && q.ihl == p.ihl % 0x10 && q.dscp == p.dscp % 0x40 && q.ecn == p.ecn % 4
    requires q.flags == p.flags % 8 && q.offset == p.offset % 0x2000
    ensures q == p <==> FieldsFit(p) && q.payload == p.payload
  {
  }

  // ---------- ICMP echo ----------

  datatype Echo = Echo(kind: byte, code: byte, id: uint16, sequence: uint16, payload: seq<byte>)

  function BlankEcho(e: Echo): (r: seq<byte>)
    ensures |r| == 8 + |e.payload| && r[2] == 0 && r[3] == 0
  {
    [e.kind, e.code, 0, 0] + PutUint16(e.id) + PutUint16(e.sequence) + e.payload
  }

  /** The echo in bytes: type, code, the identifier and the sequence number in network byte order, and the payload. */
  lemma EchoLayout(e: Echo)
    ensures var r := BlankEcho(e);
      && r[0] == e.kind && r[1] == e.code && BigEndian(r[4..6]) == e.id && BigEndian(r[6..8]) == e.sequence
      && r[8..] == e.payload
  {
    var r := BlankEcho(e);
    Uint16IsBigEndian(r, 4);
    Uint16IsBigEndian(r, 6);
    Uint16RoundTrip(e.id);
    Uint16RoundTrip(e.sequence);
    assert r[4] == PutUint16(e.id)[0] && r[5] == PutUint16(e.id)[1];
    assert r[6] == PutUint16(e.sequence)[0] && r[7] == PutUint16(e.sequence)[1];
  }

  /** The checksum covers the payload, whose length may be odd. */
  method MarshalEcho(e: Echo) returns (r: seq<byte>)
    ensures |r| == 8 + |e.payload| && exists c :: r == Patched(BlankEcho(e), 2, c)
    ensures |e.payload| <= 131066 ==> r == Patched(BlankEcho(e), 2, Checksum(BlankEcho(e))) && Checksum(r) == 0
  {
    var v := BlankEcho(e);
    var checksum := CalculateChecksum(v);
    InsertedChecksumVerifies(v, 2);
    r := Patched(v, 2, checksum);
  }

  /** None stands for an error: a message too short, or one that is no echo. */
  function UnmarshalEcho(data: seq<byte>): Option<Echo> {
    if |data| < 8 || (data[0] != 8 && data[0] != 0) then None
    else Some(Echo(data[0], data[1], Uint16(data[4], data[5]), Uint16(data[6], data[7]), data[8..]))
  }

  /** Whatever its checksum, a message reads back as it was written exactly if it is an echo request or reply. */
  lemma EchoRoundTrip(e: Echo, checksum: uint16)
    ensures UnmarshalEcho(Patched(BlankEcho(e), 2, checksum)) == Some(e) <==> e.kind == 8 || e.kind == 0
  {
    var blank := BlankEcho(e);
    PatchedKeepsRest(blank, 2, checksum);
    EchoLayout(e);
    Uint16IsBigEndian(blank, 4);
    Uint16IsBigEndian(blank, 6);
    assert Patched(blank, 2, checksum)[8..] == blank[8..];
  }
}
