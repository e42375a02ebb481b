/**
 The sending side of packet.hpp, and what arrives of it however the network cuts the stream.
 */
module PacketWriting {
  import opened Basics
  import opened Bytes
  import opened Wire
  import opened PacketFraming
  import Writer

  /** Something to be sent under a packet id. */
  datatype Message = Message(id: nat, t: Ty, v: Val)

  function PacketOf(env: Env, m: Message): (p: Packet)
  {
    Packet(m.id, Enc(env, m.t, m.v))
  }

  function PacketsOf(env: Env, ms: seq<Message>): (ps: seq<Packet>)
    ensures |ps| == |ms|
  {
    if ms == [] then [] else [PacketOf(env, ms[0])] + PacketsOf(env, ms[1..])
  }

  /** Serializes behind space for the header and patches the header afterwards. */
  method WritePacket(out: Writer.ByteVector, env: Env, m: Message)
    modifies out
    ensures Writer.Writable(env, m.t, m.v) ==> out.items == old(out.items) + Frame(PacketOf(env, m))
  {
    var headerAt := |out.items|;
    out.items := out.items + Zeros(HEADER_SIZE);
    ghost var before := out.items;
    WriteBody(out, env, m);
    ghost var written := out.items;
    var bodyLength := |out.items| - headerAt - HEADER_SIZE;
    out.items := out.items[..headerAt] + Header(m.id, bodyLength) + out.items[headerAt + HEADER_SIZE..];
    if Writer.Writable(env, m.t, m.v) {
      Patched(old(out.items), written, PacketOf(env, m), out.items);
    }
  }

  method WriteBody(out: Writer.ByteVector, env: Env, m: Message)
    modifies out
    ensures old(out.items) <= out.items
    ensures Writer.Writable(env, m.t, m.v) ==> out.items == old(out.items) + Enc(env, m.t, m.v)
  {
    var writer := new Writer.MemoryPackWriter.ToVector(out);
    writer.Write(env, m.t, m.v);
  }

  /** The space before the body becomes the header. */
  lemma Patched(old_: bytes, written: bytes, p: Packet, patched: bytes)
    requires written == old_ + Zeros(HEADER_SIZE) + p.body
    requires patched == written[..|old_|] + Header(p.id, |p.body|) + written[|old_| + HEADER_SIZE..]
    ensures patched == old_ + Frame(p)
  {
    assert written == old_ + (Zeros(HEADER_SIZE) + p.body);
  }

  method WritePackets(out: Writer.ByteVector, env: Env, ms: seq<Message>)
    requires forall i | 0 <= i < |ms| :: Writer.Writable(env, ms[i].t, ms[i].v)
    modifies out
    ensures out.items == old(out.items) + Frames(PacketsOf(env, ms))
  {
    ghost var before := out.items;
    var i := 0;
    assert ms[0..] == ms;
    while i < |ms|
      invariant 0 <= i <= |ms|
      invariant out.items + Frames(PacketsOf(env, ms[i..])) == before + Frames(PacketsOf(env, ms))
    {
      FrameNext(out.items, env, ms, i);
      WritePacket(out, env, ms[i]);
      i := i + 1;
    }
    assert ms[i..] == [] && out.items + [] == out.items;
  }

  lemma FrameNext(sent: bytes, env: Env, ms: seq<Message>, i: nat)
    requires i < |ms|
    ensures sent + Frames(PacketsOf(env, ms[i..])) == sent + Frame(PacketOf(env, ms[i])) + Frames(PacketsOf(env, ms[i + 1..]))
  {
    var rest := PacketsOf(env, ms[i + 1..]);
    assert ms[i..][0] == ms[i] && ms[i..][1..] == ms[i + 1..];
    assert ([PacketOf(env, ms[i])] + rest)[1..] == rest;
  }

  /**
   A fresh parser fed a stream of packets, in any chunks, delivers exactly these packets in order and
   keeps nothing back.
   */
  method Receive(chunks: seq<bytes>, maxBodyLength: nat, ghost ps: seq<Packet>)
    returns (ok: bool, packets: seq<Packet>, buffered: nat)
    requires forall p | p in ps :: Sendable(p, maxBodyLength)
    requires Flatten(chunks) == Frames(ps)
    ensures ok && packets == ps && buffered == 0
  {
    var parser := new PacketFrameParser(maxBodyLength);
    assert [] + Flatten(chunks) == Flatten(chunks);
    ParseFrames(ps, maxBodyLength);
    ok, packets := parser.FeedAll(chunks);
    buffered := parser.Buffered();
  }
}
