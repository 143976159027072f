/** OpenFlow message framing over a buffered byte stream that may time out between any two chunks. */
module Framing {
  import opened Bytes

  // ---------- Messages ----------

  datatype Header = Header(version: byte, kind: byte, xid: uint32)

  /** The wire form; the 16-bit length wraps round, which panics or cuts the payload short when it is too long. */
  function Encode(h: Header, payload: seq<byte>): Result<seq<byte>> {
    var length := (8 + |payload|) % 0x1_0000;
    if length < 8 then Panic
    else Ok([h.version, h.kind] + PutUint16(length) + PutUint32(h.xid) + payload[..length - 8])
  }

  function Decode(data: seq<byte>): Result<(Header, seq<byte>)> {
    if |data| < 8 then Err
    else
      var length := Uint16(data[2], data[3]);
      if length < 8 || |data| < length then Err
      else Ok((Header(data[0], data[1], Uint32(data[4], data[5], data[6], data[7])), data[8..length]))
  }

  lemma EncodedParts(h: Header, payload: seq<byte>, rest: seq<byte>)
    requires |payload| <= 65527
    ensures Encode(h, payload).Ok?
    ensures var p := Encode(h, payload).value; |p| == 8 + |payload| && Uint16(p[2], p[3]) == |p|
    ensures Decode(Encode(h, payload).value + rest) == Ok((h, payload))
  {
    var length, xid := PutUint16(8 + |payload|), PutUint32(h.xid);
    Uint16RoundTrip(8 + |payload|);
    Uint32RoundTrip(h.xid);
    var p := Encode(h, payload).value + rest;
    assert p[0] == h.version && p[1] == h.kind && p[2] == length[0] && p[3] == length[1];
    assert p[4] == xid[0] && p[5] == xid[1] && p[6] == xid[2] && p[7] == xid[3];
    assert p[8..8 + |payload|] == payload;
  }

  /**
   A message in bytes: version, type, the total length and the transaction in network byte order, and as
   much of the payload as the length, which has wrapped round if the payload is too long, leaves room for.
   */
  lemma Layout(h: Header, payload: seq<byte>)
    ensures var n := (8 + |payload|) % 0x1_0000;
      && (n < 8 ==> Encode(h, payload).Panic?)
      && (n >= 8 ==>
        Encode(h, payload).Ok? &&
        var p := Encode(h, payload).value;
        && |p| == n && p[0] == h.version && p[1] == h.kind
        && BigEndian(p[2..4]) == n && BigEndian(p[4..8]) == h.xid && p[8..] == payload[..n - 8])
  {
    var n := (8 + |payload|) % 0x1_0000;
    if n >= 8 {
      EncodedParts(h, payload[..n - 8], []);
      var p := Encode(h, payload).value;
      assert payload[..n - 8][..n - 8] == payload[..n - 8];
      assert p == Encode(h, payload[..n - 8]).value && p + [] == p;
      Uint16IsBigEndian(p, 2);
      Uint32IsBigEndian(p, 4);
      assert p[8..] == payload[..n - 8];
    }
  }

  /** Any packet by its bytes: it is refused exactly if it is cut off or its length is below 8. */
  lemma Decodes(data: seq<byte>)
    ensures !Decode(data).Panic?
    ensures Decode(data).Err? <==> |data| < 8 || BigEndian(data[2..4]) < 8 || |data| < BigEndian(data[2..4])
    ensures Decode(data).Ok? ==>
      Decode(data).value == (Header(data[0], data[1], BigEndian(data[4..8])), data[8..BigEndian(data[2..4])])
  {
    if |data| >= 8 {
      Uint16IsBigEndian(data, 2);
      Uint32IsBigEndian(data, 4);
    }
  }

  /** A message reads back as it was written exactly when its payload is at most 65527 bytes long. */
  lemma MessageRoundTrip(h: Header, payload: seq<byte>)
    ensures (Encode(h, payload).Ok? && Decode(Encode(h, payload).value) == Ok((h, payload))) <==> |payload| <= 65527
  {
    if |payload| <= 65527 {
      EncodedParts(h, payload, []);
      assert Encode(h, payload).value + [] == Encode(h, payload).value;
    } else if Encode(h, payload).Ok? {
      assert |Encode(h, payload).value| < 0x1_0000;
    }
  }

  class Message {
    var header: Header
    var length: uint16
    var payload: seq<byte>

    constructor (header: Header)
      ensures this.header == header && length == 8 && payload == []
    {
      this.header, length, payload := header, 8, [];
    }

    method SetPayload(payload: seq<byte>)
      modifies this
      ensures this.payload == payload && header == old(header)
      ensures length == (8 + |payload|) % 0x1_0000
    {
      this.payload := payload;
      length := (8 + |payload|) % 0x1_0000;
    }

    method MarshalBinary() returns (r: Result<seq<byte>>)
      ensures r == Encode(header, payload)
    {
      var n := (8 + |payload|) % 0x1_0000;
      if n < 8 {
        return Panic;
      }
      var v := [header.version, header.kind] + PutUint16(n) + PutUint32(header.xid);
      if n > 8 {
        v := v + payload[..n - 8];
      } else {
        assert v + payload[..0] == v;
      }
      r := Ok(v);
    }

    /** On an error about the length, the first fields have already been overwritten. */
    method UnmarshalBinary(data: seq<byte>) returns (ok: bool)
      modifies this
      ensures ok <==> Decode(data).Ok?
      ensures ok ==> Decode(data).value == (header, payload) && length == 8 + |payload|
      ensures !ok ==> payload == old(payload) && header.xid == old(header.xid)
      ensures |data| < 8 ==> header == old(header) && length == old(length)
      ensures |data| >= 8 ==> length == Uint16(data[2], data[3]) && header.version == data[0] && header.kind == data[1]
    {
      if |data| < 8 {
        return false;
      }
      header := Header(data[0], data[1], header.xid);
      length := Uint16(data[2], data[3]);
      if length < 8 || |data| < length {
        return false;
      }
      header := header.(xid := Uint32(data[4], data[5], data[6], data[7]));
      payload := data[8..length];
      ok := true;
    }
  }

  // ---------- The stream ----------

  /**
   What the connection will deliver: bytes, or nothing before the read deadline.  After the last event it is
   closed.
   */
  datatype Event = Chunk(bytes: seq<byte>) | Timeout

  function Flatten(wire: seq<Event>): seq<byte> {
    if wire == [] then []
    else (if wire[0].Chunk? then wire[0].bytes else []) + Flatten(wire[1..])
  }

  datatype Problem = Fine | TimedOut | Closed | BufferFull | InvalidLength

  class Stream {
    const size: nat
    var buffered: seq<byte>
    var wire: seq<Event>

    ghost predicate Valid()
      reads this
    {
      |buffered| <= size && forall i :: 0 <= i < |wire| && wire[i].Chunk? ==> wire[i].bytes != []
    }

    /** All bytes not yet handed out. */
    ghost function Content(): seq<byte>
      reads this
    {
      buffered + Flatten(wire)
    }

    /** What is still to happen. */
    ghost function Ahead(): nat
      reads this
    {
      |Content()| + |wire|
    }

    constructor (size: nat, wire: seq<Event>)
      requires forall i :: 0 <= i < |wire| && wire[i].Chunk? ==> wire[i].bytes != []
      ensures Valid() && this.size == size && Content() == Flatten(wire)
    {
      this.size, this.wire, buffered := size, wire, [];
    }

    /** Reads once from the connection into the free part of the buffer. */
    method Fill() returns (problem: Problem)
      requires Valid() && |buffered| < size
      modifies this
      ensures Valid() && Content() == old(Content()) && |wire| <= |old(wire)|
      ensures old(buffered) <= buffered && (problem == Fine ==> |buffered| > |old(buffered)|)
      ensures problem != Fine ==> buffered == old(buffered)
      ensures problem == TimedOut ==> |wire| < |old(wire)|
      ensures problem == Closed ==> wire == []
      ensures problem in {Fine, TimedOut, Closed}
    {
      if wire == [] {
        return Closed;
      }
      match wire[0]
      case Timeout =>
        wire := wire[1..];
        problem := TimedOut;
      case Chunk(c) =>
        var free := size - |buffered|;
        ghost var rest := Flatten(wire[1..]);
        assert Content() == buffered + (c + rest);
        if |c| <= free {
          buffered := buffered + c;
          wire := wire[1..];
          assert Content() == old(buffered) + (c + rest);
        } else {
          buffered := buffered + c[..free];
          wire := wire[0 := Chunk(c[free..])];
          assert wire[1..] == old(wire)[1..];
          assert c[..free] + c[free..] == c;
          assert Content() == old(buffered) + (c + rest);
        }
        problem := Fine;
    }

    /** Buffers at least n bytes without consuming them, or reports why it cannot. */
    method Peek(n: nat) returns (problem: Problem)
      requires Valid()
      modifies this
      ensures Valid() && Content() == old(Content()) && |wire| <= |old(wire)| && old(buffered) <= buffered
      ensures problem == Fine ==> |buffered| >= n && n <= size
      ensures problem == TimedOut ==> |wire| < |old(wire)|
      ensures problem == Closed ==> wire == [] && |buffered| < n
      ensures problem == BufferFull ==> n > size
      ensures problem != InvalidLength
    {
      problem := Fine;
      while |buffered| < n && |buffered| < size && problem == Fine
        invariant Valid() && Content() == old(Content()) && |wire| <= |old(wire)| && old(buffered) <= buffered
        invariant problem in {Fine, TimedOut, Closed}
        invariant problem == TimedOut ==> |wire| < |old(wire)|
        invariant problem == Closed ==> wire == []
        invariant problem != Fine ==> |buffered| < n
        decreases size - |buffered|, problem == Fine
      {
        problem := Fill();
      }
      if n > size {
        problem := BufferFull;
      }
    }

    /** Takes exactly n bytes, or takes nothing. */
    method ReadN(n: nat) returns (problem: Problem, p: seq<byte>)
      requires Valid()
      modifies this
      ensures Valid() && |wire| <= |old(wire)|
      ensures problem == Fine ==> |p| == n && n <= size && old(Content()) == p + Content()
      ensures problem != Fine ==> Content() == old(Content())
      ensures problem == TimedOut ==> |wire| < |old(wire)|
      ensures problem == Closed ==> wire == [] && |buffered| < n
      ensures problem == BufferFull ==> n > size
      ensures problem != InvalidLength
    {
      p := [];
      problem := Peek(n);
      if problem != Fine {
        return;
      }
      ghost var all := Content();
      var c := if n <= |buffered| then n else |buffered|;
      p := buffered[..c];
      buffered := buffered[c..];
      // The panic about an insufficient read cannot happen.
      assert c == n;
      assert all == p + Content();
    }

    /** Reads the next whole packet; a packet's length is in its third and fourth bytes. */
    method ReadPacket() returns (problem: Problem, p: seq<byte>)
      requires Valid()
      modifies this
      ensures Valid() && |wire| <= |old(wire)|
      ensures problem == Fine ==>
        8 <= |p| <= size && |p| == Uint16(p[2], p[3]) && old(Content()) == p + Content()
      ensures problem != Fine ==> Content() == old(Content())
      ensures problem == TimedOut ==> |wire| < |old(wire)|
      ensures problem == Closed ==> wire == [] && (|Content()| < 8 || |Content()| < Uint16(Content()[2], Content()[3]))
      ensures problem == InvalidLength ==> |Content()| >= 8 && Uint16(Content()[2], Content()[3]) < 8
      ensures size >= 0xFFFF ==> problem != BufferFull
    {
      p := [];
      problem := Peek(8);
      if problem != Fine {
        assert problem == Closed ==> Content() == buffered;
        return;
      }
      assert Content()[2] == buffered[2] && Content()[3] == buffered[3];
      var length := Uint16(buffered[2], buffered[3]);
      if length < 8 {
        return InvalidLength, [];
      }
      ghost var all := Content();
      problem, p := ReadN(length);
      if problem == Fine {
        assert all[2] == p[2] && all[3] == p[3];
      } else {
        assert problem == Closed ==> Content() == buffered;
      }
    }

    /**
     The reader loop: collects packets and retries after timeouts until another error ends it.
     If the stream carries the frames of some messages, exactly their packets come out, in order.
     */
    method ReadAll(ghost messages: seq<Sent>) returns (problem: Problem, packets: seq<seq<byte>>)
      requires Valid() && Sendable(messages)
      modifies this
      ensures Valid() && problem != Fine && problem != TimedOut
      ensures Splits(old(Content()), packets, Content()) && Ended(problem, Content(), size)
      ensures old(Content()) == Frames(messages) && size >= 0xFFFF ==> problem == Closed && packets == Packets(messages)
    {
      packets := [];
      problem := TimedOut;
      ghost var all := Content();
      while problem == Fine || problem == TimedOut
        invariant Valid() && Splits(all, packets, Content())
        invariant Ended(problem, Content(), size)
        decreases Ahead(), problem == Fine || problem == TimedOut
      {
        var p;
        ghost var before := Content();
        problem, p := ReadPacket();
        if problem == Fine {
          SplitOneMore(all, packets, before, p, Content());
          packets := packets + [p];
        } else {
          assert problem == Closed ==> |Flatten(wire)| == 0;
        }
      }
      if all == Frames(messages) && size >= 0xFFFF {
        NothingLeft(messages, packets, Content(), problem, size);
      }
    }
  }

  // ---------- Whole conversations ----------

  /** A message as its sender holds it. */
  datatype Sent = Sent(header: Header, payload: seq<byte>)

  predicate Sendable(messages: seq<Sent>) {
    forall i :: 0 <= i < |messages| ==> |messages[i].payload| <= 65527
  }

  function Packets(messages: seq<Sent>): (r: seq<seq<byte>>)
    requires Sendable(messages)
    ensures |r| == |messages|
  {
    if messages == [] then []
    else
      EncodedParts(messages[0].header, messages[0].payload, []);
      [Encode(messages[0].header, messages[0].payload).value] + Packets(messages[1..])
  }

  /** The bytes of several packets one after the other. */
  function Concat(packets: seq<seq<byte>>): seq<byte> {
    if packets == [] then [] else packets[0] + Concat(packets[1..])
  }

  function Frames(messages: seq<Sent>): seq<byte>
    requires Sendable(messages)
  {
    Concat(Packets(messages))
  }

  /** A packet whose own length field is right. */
  predicate Whole(p: seq<byte>) {
    |p| >= 8 && Uint16(p[2], p[3]) == |p|
  }

  /** `all` is the given whole packets followed by what is left. */
  ghost predicate Splits(all: seq<byte>, packets: seq<seq<byte>>, left: seq<byte>) {
    && all == Concat(packets) + left
    && forall i :: 0 <= i < |packets| ==> Whole(packets[i])
  }

  /** What is left in the stream when reading stopped because of `problem`. */
  ghost predicate Ended(problem: Problem, left: seq<byte>, size: nat) {
    && (problem == Closed ==> |left| < 8 || |left| < Uint16(left[2], left[3]))
    && (problem == InvalidLength ==> |left| >= 8 && Uint16(left[2], left[3]) < 8)
    && (size >= 0xFFFF ==> problem != BufferFull)
  }

  lemma NothingLeft(messages: seq<Sent>, packets: seq<seq<byte>>, left: seq<byte>, problem: Problem, size: nat)
    requires Sendable(messages) && Splits(Frames(messages), packets, left) && Ended(problem, left, size)
    requires problem != Fine && problem != TimedOut && size >= 0xFFFF
    ensures problem == Closed && packets == Packets(messages)
  {
    SplitsIntoFrames(messages, packets, left);
    var rest := messages[|packets|..];
    if rest != [] {
      StartsWithFrame(rest);
    }
    assert |packets| == |messages|;
  }

  /** The bytes of one or more messages begin with a whole frame. */
  lemma StartsWithFrame(messages: seq<Sent>)
    requires Sendable(messages) && messages != []
    ensures var c := Frames(messages); |c| >= 8 && 8 <= Uint16(c[2], c[3]) <= |c|
  {
    EncodedParts(messages[0].header, messages[0].payload, []);
    var first := Encode(messages[0].header, messages[0].payload).value;
    var c := Frames(messages);
    assert c == first + Frames(messages[1..]);
    assert c[2] == first[2] && c[3] == first[3];
  }

  lemma {:induction false} ConcatAppend(packets: seq<seq<byte>>, p: seq<byte>)
    ensures Concat(packets + [p]) == Concat(packets) + p
    decreases packets
  {
    if packets == [] {
      assert Concat([p]) == p + Concat([]);
      assert [p][1..] == [];
    } else {
      ConcatAppend(packets[1..], p);
      assert (packets + [p])[1..] == packets[1..] + [p];
    }
  }

  lemma SplitOneMore(all: seq<byte>, packets: seq<seq<byte>>, before: seq<byte>, p: seq<byte>, left: seq<byte>)
    requires Splits(all, packets, before) && before == p + left && Whole(p)
    ensures Splits(all, packets + [p], left)
  {
    ConcatAppend(packets, p);
  }

  /** Bytes split into whole packets in only one way. */
  lemma {:induction false} SplitsIntoFrames(messages: seq<Sent>, packets: seq<seq<byte>>, left: seq<byte>)
    requires Sendable(messages) && Splits(Frames(messages), packets, left)
    ensures |packets| <= |messages| && packets == Packets(messages)[..|packets|]
    ensures left == Frames(messages[|packets|..])
    decreases packets
  {
    if packets == [] {
      assert messages[0..] == messages;
    } else {
      var m := messages;
      assert |Frames(m)| >= |packets[0]| >= 8;
      EncodedParts(m[0].header, m[0].payload, []);
      var first := Encode(m[0].header, m[0].payload).value;
      var all := Frames(m);
      assert all == first + Frames(m[1..]);
      assert all == packets[0] + (Concat(packets[1..]) + left);
      assert all[2] == first[2] == packets[0][2] && all[3] == first[3] == packets[0][3];
      assert all[..|first|] == first && all[..|packets[0]|] == packets[0];
      assert Frames(m[1..]) == all[|first|..] == Concat(packets[1..]) + left;
      SplitsIntoFrames(m[1..], packets[1..], left);
      assert m[1..][|packets|-1..] == m[|packets|..];
    }
  }
}
