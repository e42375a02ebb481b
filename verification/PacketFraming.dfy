/**
 TCP frame reassembly of packet.hpp: `[2B id][4B int32 body length][body]`, little-endian.
 */
module PacketFraming {
  import opened Basics
  import opened Bytes
  import opened WireFormat

  const HEADER_SIZE := 6

  datatype Packet = Packet(id: nat, body: bytes)

  /** What a parse delivers, what it leaves unread, and whether it accepts the stream. */
  datatype Parsed = Parsed(packets: seq<Packet>, rest: bytes, ok: bool)

  // -- The header policy -------------------------------------------------------------

  function HeaderId(bs: bytes): (id: nat)
    requires |bs| >= HEADER_SIZE
  {
    FromLE(bs[..2])
  }

  function HeaderLength(bs: bytes): (n: int)
    requires |bs| >= HEADER_SIZE
  {
    Pow256Small();
    ToInt32(FromLE(bs[2..6]))
  }

  function Header(id: nat, bodyLength: int): (bs: bytes)
    ensures |bs| == HEADER_SIZE
  {
    LE(id, 2) + LE(FromInt32(bodyLength), 4)
  }

  lemma HeaderRoundTrip(id: nat, bodyLength: nat, rest: bytes)
    requires id < 0x1_0000 && bodyLength < 0x8000_0000
    ensures var bs := Header(id, bodyLength) + rest;
            HeaderId(bs) == id && HeaderLength(bs) == bodyLength
  {
    var bs := Header(id, bodyLength) + rest;
    Pow256Small();
    assert bs[..2] == LE(id, 2) && bs[2..6] == LE(FromInt32(bodyLength), 4);
    FromLEOfLE(id, 2);
    FromLEOfLE(FromInt32(bodyLength), 4);
  }

  /** The six bytes of a header: the id in two, the body length in four. */
  lemma HeaderForm(id: nat, bodyLength: nat)
    requires id < 0x1_0000 && bodyLength < 0x8000_0000
    ensures var bs := Header(id, bodyLength);
            |bs| == 6 && bs[0] == id % 0x100 && bs[1] == id / 0x100 && Is32(bs, 2, bodyLength)
  {
    LittleEndian(id);
    Four(bodyLength);
    var a, b := LE(id, 2), LE(FromInt32(bodyLength), 4);
    assert Header(id, bodyLength) == a + b && Word(a + b, 2) == Word(b, 0);
  }

  // -- The reference: one pass over the whole stream ------------------------------------

  datatype Next = Incomplete | Rejected | Complete(packet: Packet, size: nat)

  /** The frame at the front of `bs`. */
  function NextFrame(bs: bytes, max: nat): (f: Next)
    ensures f.Complete? ==> HEADER_SIZE <= f.size <= |bs|
    ensures f.Incomplete? ==> |bs| < HEADER_SIZE + max
  {
    if |bs| < HEADER_SIZE then Incomplete
    else
      var n := HeaderLength(bs);
      if n < 0 || n > max then Rejected
      else if |bs| < HEADER_SIZE + n then Incomplete
      else Complete(Packet(HeaderId(bs), bs[HEADER_SIZE..HEADER_SIZE + n]), HEADER_SIZE + n)
  }

  /**
   The frame at the front, in numbers: negative lengths and those above the maximum are rejected as soon
   as the six bytes of the header are there.
   */
  lemma NextFrameIs(bs: bytes, max: nat)
    ensures NextFrame(bs, max) ==
            if |bs| < 6 then Incomplete
            else
              var lo: int, hi: int, n := bs[0], bs[1], Word(bs, 2);
              if n >= 0x8000_0000 || n > max then Rejected
              else if |bs| < 6 + n then Incomplete
              else Complete(Packet(lo + 0x100 * hi, bs[6..6 + n]), 6 + n)
  {
    if |bs| >= 6 {
      var a, b := bs[..2], bs[2..6];
      TwoByteNumber(a);
      FourByteNumber(b);
      assert Word(b, 0) == Word(bs, 2);
    }
  }

  /** A frame does not depend on what follows it. */
  lemma NextFrameExtends(a: bytes, b: bytes, max: nat)
    requires !NextFrame(a, max).Incomplete?
    ensures NextFrame(a + b, max) == NextFrame(a, max)
  {
    assert (a + b)[..2] == a[..2] && (a + b)[2..6] == a[2..6];
    assert |a| <= |a + b|;
    if NextFrame(a, max).Complete? {
      var n := HeaderLength(a);
      assert (a + b)[HEADER_SIZE..HEADER_SIZE + n] == a[HEADER_SIZE..HEADER_SIZE + n];
    }
  }

  /** Parses frames from the front of `bs` until one is incomplete or rejected. */
  function Parse(bs: bytes, max: nat): (p: Parsed)
    ensures p.ok ==> NextFrame(p.rest, max).Incomplete?
    ensures !p.ok ==> p.rest == []
    decreases |bs|
  {
    match NextFrame(bs, max)
    case Incomplete => Parsed([], bs, true)
    case Rejected => Parsed([], [], false)
    case Complete(packet, size) =>
      var p := Parse(bs[size..], max);
      p.(packets := [packet] + p.packets)
  }

  /** Parsing what is left over together with more bytes continues exactly where parsing stopped. */
  lemma {:induction false} ParseContinues(a: bytes, b: bytes, max: nat)
    ensures var p := Parse(a, max);
            Parse(a + b, max) ==
            if p.ok then
              var q := Parse(p.rest + b, max);
              q.(packets := p.packets + q.packets)
            else p
    decreases |a|
  {
    var f := NextFrame(a, max);
    if !f.Incomplete? {
      NextFrameExtends(a, b, max);
      if f.Complete? {
        ParseContinues(a[f.size..], b, max);
        assert (a + b)[f.size..] == a[f.size..] + b;
        var p := Parse(a[f.size..], max);
        var q := Parse(p.rest + b, max);
        assert [f.packet] + (p.packets + q.packets) == [f.packet] + p.packets + q.packets;
      }
    }
  }

  /** Parsing `all` amounts to delivering `packets` and going on with `rest`. */
  ghost predicate Delivered(all: bytes, packets: seq<Packet>, rest: bytes, max: nat)
  {
    var q := Parse(rest, max);
    Parse(all, max) == q.(packets := packets + q.packets)
  }

  lemma DeliverNext(all: bytes, packets: seq<Packet>, rest: bytes, max: nat)
    requires Delivered(all, packets, rest, max) && NextFrame(rest, max).Complete?
    ensures var f := NextFrame(rest, max); Delivered(all, packets + [f.packet], rest[f.size..], max)
  {
    var f := NextFrame(rest, max);
    var q := Parse(rest[f.size..], max);
    assert packets + ([f.packet] + q.packets) == packets + [f.packet] + q.packets;
  }

  lemma DeliveryEnds(all: bytes, packets: seq<Packet>, rest: bytes, max: nat)
    requires Delivered(all, packets, rest, max) && !NextFrame(rest, max).Complete?
    ensures Parse(all, max) ==
            if NextFrame(rest, max).Incomplete? then Parsed(packets, rest, true) else Parsed(packets, [], false)
  {
    assert packets + [] == packets;
  }

  // -- The stateful parser ---------------------------------------------------------------

  class PacketFrameParser {
    var buffer: bytes
    var consumed: nat
    const maxBodyLength: nat

    ghost predicate Valid()
      reads this
    {
      consumed <= |buffer|
    }

    /** The bytes received but not yet delivered. */
    ghost function Unread(): (bs: bytes)
      requires Valid()
      reads this
    {
      buffer[consumed..]
    }

    /** What holds between two calls of Feed. */
    ghost predicate Settled()
      requires Valid()
      reads this
    {
      && NextFrame(Unread(), maxBodyLength).Incomplete?
      && (consumed > 0 ==> consumed <= 4096 && consumed * 2 < |buffer|)
    }

    constructor (maxBodyLength: nat := 8 * 1024 * 1024)
      ensures Valid() && Settled() && Unread() == [] && this.maxBodyLength == maxBodyLength
    {
      buffer, consumed := [], 0;
      this.maxBodyLength := maxBodyLength;
    }

    method Buffered() returns (n: nat)
      requires Valid()
      ensures n == |Unread()|
    {
      n := |buffer| - consumed;
    }

    method Reset()
      modifies this
      ensures Valid() && Settled() && Unread() == []
    {
      buffer, consumed := [], 0;
    }

    /** Drops consumed bytes when there are many or they are at least half of the buffer. */
    method Compact()
      requires Valid()
      modifies this
      ensures Valid() && Unread() == old(Unread())
      ensures consumed > 0 ==> consumed <= 4096 && consumed * 2 < |buffer|
    {
      if consumed == 0 {
        return;
      }
      if consumed == |buffer| {
        buffer := [];
      } else if consumed > 4096 || consumed * 2 >= |buffer| {
        buffer := buffer[consumed..];
      } else {
        return;
      }
      consumed := 0;
    }

    /** Reads the header at the consumed position, and the body if it is complete. */
    method ReadFrame() returns (f: Next)
      requires Valid()
      ensures f == NextFrame(Unread(), maxBodyLength)
    {
      var available := |buffer| - consumed;
      if available < HEADER_SIZE {
        return Incomplete;
      }
      var id, bodyLength := HeaderId(buffer[consumed..]), HeaderLength(buffer[consumed..]);
      if bodyLength < 0 || bodyLength > maxBodyLength {
        return Rejected;
      }
      var frameSize := HEADER_SIZE + bodyLength;
      if available < frameSize {
        return Incomplete;
      }
      var body := buffer[consumed + HEADER_SIZE..consumed + frameSize];
      assert body == Unread()[HEADER_SIZE..frameSize];
      f := Complete(Packet(id, body), frameSize);
    }

    /** Appends `data` and delivers every complete frame. */
    method Feed(data: bytes) returns (ok: bool, packets: seq<Packet>)
      requires Valid()
      modifies this
      ensures Valid()
      ensures var p := Parse(old(Unread()) + data, maxBodyLength);
              ok == p.ok && packets == p.packets && Unread() == p.rest
      ensures Settled() && |Unread()| < HEADER_SIZE + maxBodyLength
    {
      ghost var all := Unread() + data;
      buffer := buffer + data;
      packets := [];
      assert Unread() == all;
      while true
        invariant Valid() && Delivered(all, packets, Unread(), maxBodyLength)
        decreases |buffer| - consumed
      {
        var f;
        f, packets := DeliverNextFrame(all, packets);
        match f {
          case Incomplete =>
            break;
          case Rejected =>
            Reset();
            return false, packets;
          case Complete(_, _) =>
        }
      }
      Compact();
      ok := true;
    }

    /** One round of the loop. */
    method DeliverNextFrame(ghost all: bytes, packets: seq<Packet>) returns (f: Next, delivered: seq<Packet>)
      requires Valid() && Delivered(all, packets, Unread(), maxBodyLength)
      modifies this`consumed
      ensures Valid() && f == NextFrame(old(Unread()), maxBodyLength)
      ensures f.Complete? ==> consumed > old(consumed) && Delivered(all, delivered, Unread(), maxBodyLength)
      ensures !f.Complete? ==> consumed == old(consumed) && delivered == packets
      ensures f.Incomplete? ==> Parse(all, maxBodyLength) == Parsed(packets, Unread(), true)
      ensures f.Rejected? ==> Parse(all, maxBodyLength) == Parsed(packets, [], false)
    {
      f := ReadFrame();
      delivered := packets;
      if f.Complete? {
        DeliverNext(all, packets, Unread(), maxBodyLength);
        assert buffer[consumed + f.size..] == Unread()[f.size..];
        delivered := packets + [f.packet];
        consumed := consumed + f.size;
      } else {
        DeliveryEnds(all, packets, Unread(), maxBodyLength);
      }
    }

    /** A receive loop: feeds the chunks of a stream in order and stops at the first rejection. */
    method FeedAll(chunks: seq<bytes>) returns (ok: bool, packets: seq<Packet>)
      requires Valid() && Settled()
      modifies this
      ensures Valid() && Settled()
      ensures var p := Parse(old(Unread()) + Flatten(chunks), maxBodyLength);
              ok == p.ok && packets == p.packets && Unread() == p.rest
      decreases |chunks|
    {
      if chunks == [] {
        assert Unread() + Flatten(chunks) == Unread();
        return true, [];
      }
      ParseContinues(Unread() + chunks[0], Flatten(chunks[1..]), maxBodyLength);
      assert Unread() + Flatten(chunks) == Unread() + chunks[0] + Flatten(chunks[1..]);
      ok, packets := Feed(chunks[0]);
      if ok {
        var more: seq<Packet>;
        ok, more := FeedAll(chunks[1..]);
        packets := packets + more;
      }
    }
  }

  // -- Framed streams -----------------------------------------------------------------------

  predicate Sendable(p: Packet, max: nat)
  {
    p.id < 0x1_0000 && |p.body| <= max && |p.body| < 0x8000_0000
  }

  function Frame(p: Packet): (bs: bytes)
  {
    Header(p.id, |p.body|) + p.body
  }

  function Frames(ps: seq<Packet>): (bs: bytes)
  {
    if ps == [] then [] else Frame(ps[0]) + Frames(ps[1..])
  }

  lemma NextFrameOfFrame(p: Packet, rest: bytes, max: nat)
    requires Sendable(p, max)
    ensures NextFrame(Frame(p) + rest, max) == Complete(p, |Frame(p)|)
  {
    var bs := Frame(p) + rest;
    assert bs == Header(p.id, |p.body|) + (p.body + rest);
    HeaderRoundTrip(p.id, |p.body|, p.body + rest);
    assert bs[HEADER_SIZE..HEADER_SIZE + |p.body|] == p.body;
  }

  /** A stream of framed packets parses into exactly those packets with nothing left over. */
  lemma {:induction false} ParseFrames(ps: seq<Packet>, max: nat)
    requires forall p | p in ps :: Sendable(p, max)
    ensures Parse(Frames(ps), max) == Parsed(ps, [], true)
  {
    if ps != [] {
      var p, rest := ps[0], Frames(ps[1..]);
      ParseFrames(ps[1..], max);
      assert Sendable(p, max);
      NextFrameOfFrame(p, rest, max);
      assert Frames(ps)[|Frame(p)|..] == rest;
    }
  }
}
