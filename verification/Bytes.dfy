/** Bytes, big-endian words and network addresses. */
module Bytes {

  type byte = x: int | 0 <= x < 0x100
  type uint16 = x: int | 0 <= x < 0x1_0000
  type uint32 = x: int | 0 <= x < 0x1_0000_0000

  datatype Option<+T> = None | Some(value: T)

  /** A value, a returned error, or a run-time panic such as an index out of range. */
  datatype Result<+T> = Ok(value: T) | Err | Panic {
    predicate IsFailure() {
      !Ok?
    }

    function PropagateFailure<U>(): Result<U>
      requires !Ok?
    {
      if Err? then Err else Panic
    }

    function Extract(): T
      requires Ok?
    {
      value
    }
  }

  function Uint16(hi: byte, lo: byte): uint16 {
    0x100 * hi + lo
  }

  function PutUint16(v: uint16): seq<byte> {
    [v / 0x100, v % 0x100]
  }

  function Uint32(a: byte, b: byte, c: byte, d: byte): uint32 {
    0x1_0000 * Uint16(a, b) + Uint16(c, d)
  }

  function PutUint32(v: uint32): seq<byte> {
    PutUint16(v / 0x1_0000) + PutUint16(v % 0x1_0000)
  }

  /** The number that a string of bytes stands for in network byte order, most significant byte first. */
  function BigEndian(s: seq<byte>): (n: nat)
    ensures (|s| <= 1 ==> n < 0x100) && (|s| == 2 ==> n < 0x1_0000)
    ensures (|s| == 3 ==> n < 0x100_0000) && (|s| == 4 ==> n < 0x1_0000_0000)
  {
    if s == [] then 0 else 0x100 * BigEndian(s[..|s|-1]) + s[|s|-1]
  }

  lemma Uint16IsBigEndian(s: seq<byte>, at: nat)
    requires at + 2 <= |s|
    ensures BigEndian(s[at..at+2]) == Uint16(s[at], s[at+1])
  {
    var w, v := s[at..at+2], [s[at]];
    assert w[..1] == v && w[1] == s[at+1] && v[..0] == [];
    assert BigEndian(v) == 0x100 * BigEndian(v[..0]) + v[0];
    assert BigEndian(w) == 0x100 * BigEndian(w[..1]) + w[1];
  }

  lemma Uint32IsBigEndian(s: seq<byte>, at: nat)
    requires at + 4 <= |s|
    ensures BigEndian(s[at..at+4]) == Uint32(s[at], s[at+1], s[at+2], s[at+3])
  {
    var w, v := s[at..at+4], s[at..at+3];
    assert w[..3] == v && w[3] == s[at+3];
    assert v[..2] == s[at..at+2] && v[2] == s[at+2];
    Uint16IsBigEndian(s, at);
    assert BigEndian(v) == 0x100 * BigEndian(v[..2]) + v[2];
    assert BigEndian(w) == 0x100 * BigEndian(w[..3]) + w[3];
  }

  lemma Uint16RoundTrip(v: uint16)
    ensures Uint16(PutUint16(v)[0], PutUint16(v)[1]) == v
  {
  }

  lemma Uint32RoundTrip(v: uint32)
    ensures var p := PutUint32(v); |p| == 4 && Uint32(p[0], p[1], p[2], p[3]) == v
  {
    var p, hi, lo := PutUint32(v), PutUint16(v / 0x1_0000), PutUint16(v % 0x1_0000);
    assert p[0] == hi[0] && p[1] == hi[1] && p[2] == lo[0] && p[3] == lo[1];
    Uint16RoundTrip(v / 0x1_0000);
    Uint16RoundTrip(v % 0x1_0000);
  }

  function Zeros(n: nat): seq<byte> {
    seq(n, _ => 0)
  }

  /** Copies as much of `src` as fits into `n` bytes, leaving zeros where it ends early. */
  function Fit(src: seq<byte>, n: nat): (r: seq<byte>)
    ensures |r| == n && forall i :: 0 <= i < n ==> r[i] == if i < |src| then src[i] else 0
  {
    if |src| >= n then src[..n] else src + Zeros(n - |src|)
  }

  const V4_PREFIX: seq<byte> := [0, 0, 0, 0, 0, 0, 0, 0, 0, 0, 0xFF, 0xFF]

  /** The four bytes of an IPv4 address in either of its two forms. */
  function To4(ip: seq<byte>): (r: Option<seq<byte>>)
    ensures r.Some? ==> |r.value| == 4 && (ip == r.value || ip == V4_PREFIX + r.value)
    ensures r.None? ==> forall v: seq<byte> :: |v| == 4 ==> ip != v && ip != V4_PREFIX + v
  {
    if |ip| == 4 then Some(ip)
    else if |ip| == 16 && ip[..12] == V4_PREFIX then Some(ip[12..])
    else None
  }
}
