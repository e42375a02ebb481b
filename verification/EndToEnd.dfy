/**
 The writer and the reader together: Deserialize(Serialize(v)), VersionTolerant objects and packets.
 */
module EndToEnd {
  import opened Basics
  import opened Bytes
  import opened Transcode
  import opened Wire
  import opened WireFormat
  import opened RoundTrip
  import D = Decoder
  import Identity
  import Reader
  import Writer
  import V = VersionTolerant
  import F = PacketFraming
  import P = PacketWriting

  /** What fits a reader can be written. */
  lemma {:induction false} FitsWritable(env: Env, env': Env, opts: D.Options, depth: nat, t: Ty, v: Val)
    requires WfEnv(env) && WfTy(env, t) && Fits(env, env', opts, depth, t, v)
    ensures Writer.Writable(env, t, v)
    decreases v, 1
  {
    if IsLeaf(t) {
    } else if IsCollection(t) {
      MinimumFits(env, t);
      EachWritable(env, env', opts, depth, ElemOf(t), v.elems);
    } else {
      match (t, v)
      case (Obj(id), VObj(fields)) =>
        FitsAllLength(env, env', opts, depth + 1, env[id].members, fields);
        AllWritable(env, env', opts, depth + 1, env[id].members, fields);
      case (Pair(a, b), VPair(x, y)) =>
        FitsWritable(env, env', opts, depth, a, x);
        FitsWritable(env, env', opts, depth, b, y);
      case (Tuple(ts), VTuple(vs)) =>
        FitsAllLength(env, env', opts, depth, ts, vs);
        AllWritable(env, env', opts, depth, ts, vs);
      case (Opt(i), VSome(x)) => FitsWritable(env, env', opts, depth, i, x);
      case (Ptr(i), VSome(x)) => FitsWritable(env, env', opts, depth, i, x);
      case (Union(tags, alts), VUnion(tag, x)) =>
        UnionParts(env, env', opts, depth, tags, alts, v);
        FitsWritable(env, env', opts, depth, alts[FindTag(tags, tag)], x);
      case _ =>
    }
  }

  lemma {:induction false} EachWritable(env: Env, env': Env, opts: D.Options, depth: nat, e: Ty, vs: seq<Val>)
    requires WfEnv(env) && WfTy(env, e) && FitsEach(env, env', opts, depth, e, vs)
    ensures Writer.WritableEach(env, e, vs)
    decreases vs, 0
  {
    if vs != [] {
      FitsWritable(env, env', opts, depth, e, vs[0]);
      EachWritable(env, env', opts, depth, e, vs[1..]);
    }
  }

  lemma {:induction false} AllWritable(env: Env, env': Env, opts: D.Options, depth: nat, ts: seq<Ty>, vs: seq<Val>)
    requires WfEnv(env) && WfAll(env, ts) && FitsAll(env, env', opts, depth, ts, vs)
    ensures Writer.WritableAll(env, ts, vs)
    decreases vs, 0
  {
    if vs != [] {
      AllParts(env, env', opts, depth, ts, vs);
      FitsWritable(env, env', opts, depth, ts[0], vs[0]);
      AllWritable(env, env', opts, depth, ts[1..], vs[1..]);
    }
  }

  /** The reader class on exactly the encoding of a value. */
  method ReadBack(ghost env: Env, env': Env, t: Ty, ghost v: Val, bs: bytes, options: D.Options)
    returns (r: Val, error: MemoryPackError, left: nat)
    requires WfEnv(env) && Extends(env, env') && WfTy(env, t) && Fits(env, env', options, 0, t, v)
    requires bs == Enc(env, t, v)
    ensures error == NoError && left == 0 && r == Received(env', t, D.Default(env', t), v)
  {
    ghost var s := Identity.Start(bs, options);
    assert bs[0..|bs|] == bs;
    var value := D.Default(env', t);
    DecOfEnc(env, env', t, value, v, s);
    var reader := new Reader.MemoryPackReader(bs, options);
    r := reader.Read(env', t, value);
    error, left := reader.error, |bs| - reader.pos;
  }

  /**
   A value written by the writer and read by the reader: nothing fails, every byte is consumed, and the
   value is the same if and only if it is faithful.
   */
  method SerializeDeserialize(env: Env, t: Ty, v: Val, options: D.Options) returns (r: Val, error: MemoryPackError, left: nat)
    requires WfEnv(env) && WfTy(env, t) && Fits(env, env, options, 0, t, v)
    ensures error == NoError && left == 0 && r == Received(env, t, D.Default(env, t), v)
    ensures r == v <==> Identity.Faithful(env, t, v)
  {
    FitsWritable(env, env, options, 0, t, v);
    var ok, bs := Writer.Serialize(env, t, v);
    Identity.ReceivedIdentity(env, options, 0, t, D.Default(env, t), v);
    r, error, left := ReadBack(env, env, t, v, bs, options);
  }

  /**
   A string of scalar values as Serialize writes it: the complement of the UTF-8 byte count, the number of
   UTF-16 units, and the UTF-8 bytes.
   */
  method SerializeText(env: Env, cs: seq<codepoint>) returns (bs: bytes)
    requires AllScalar(cs) && cs != [] && |EncodeUtf8(cs)| <= 0x7FFF_FFFF
    ensures var text := EncodeUtf8(cs);
            && |bs| == 8 + |text| && bs[8..] == text
            && Is32(bs, 0, 0xFFFF_FFFF - |text|) && Is32(bs, 4, |EncodeUtf16(cs)|)
  {
    TextForm(env, cs);
    var ok;
    ok, bs := Writer.Serialize(env, Str, VStr(EncodeUtf8(cs)));
  }

  // -- Packets ----------------------------------------------------------------------------------------

  /** The pieces the network cuts a stream into: of these sizes, and the rest. */
  function Cut(bs: bytes, sizes: seq<nat>): (chunks: seq<bytes>)
    ensures Flatten(chunks) == bs
  {
    if sizes == [] || sizes[0] > |bs| then [bs] else [bs[..sizes[0]]] + Cut(bs[sizes[0]..], sizes[1..])
  }

  function SizesOf(chunks: seq<bytes>): (ns: seq<nat>)
  {
    if chunks == [] then [] else [|chunks[0]|] + SizesOf(chunks[1..])
  }

  /** Whatever the network makes of the stream, there are sizes for it. */
  lemma {:induction false} AnyCut(chunks: seq<bytes>)
    requires chunks != []
    ensures Cut(Flatten(chunks), SizesOf(chunks[..|chunks| - 1])) == chunks
  {
    var bs, n := Flatten(chunks), |chunks[0]|;
    if |chunks| == 1 {
      assert chunks[1..] == [] && Flatten(chunks[1..]) == [];
      assert bs == chunks[0] && chunks == [chunks[0]] && chunks[..0] == [];
    } else {
      assert chunks[..|chunks| - 1][0] == chunks[0];
      assert chunks[..|chunks| - 1][1..] == chunks[1..][..|chunks| - 2];
      assert bs[..n] == chunks[0] && bs[n..] == Flatten(chunks[1..]);
      AnyCut(chunks[1..]);
    }
  }

  /** A message the receiver knows the type of and accepts. */
  predicate Acceptable(env: Env, env': Env, types: map<nat, Ty>, options: D.Options, max: nat, m: P.Message)
  {
    && m.id in types && types[m.id] == m.t && WfTy(env, m.t) && Fits(env, env', options, 0, m.t, m.v)
    && F.Sendable(P.PacketOf(env, m), max)
  }

  /** The values the messages arrive as. */
  function ValuesOf(env: Env, ms: seq<P.Message>): (vs: seq<Val>)
    ensures |vs| == |ms|
  {
    if ms == [] then [] else [Received(env, ms[0].t, D.Default(env, ms[0].t), ms[0].v)] + ValuesOf(env, ms[1..])
  }

  /**
   Messages written as packets, cut into any chunks, parsed, and read by the type their id stands for: the
   values arrive in order, nothing fails and nothing is left over.
   */
  method DeliverMessages(env: Env, env': Env, types: map<nat, Ty>, options: D.Options, max: nat,
                         ms: seq<P.Message>, sizes: seq<nat>)
    returns (ok: bool, values: seq<Val>)
    requires WfEnv(env) && Extends(env, env')
    requires forall m | m in ms :: Acceptable(env, env', types, options, max, m)
    ensures ok && values == ValuesOf(env', ms)
  {
    AllSendable(env, env', types, options, max, ms);
    forall i | 0 <= i < |ms| ensures Writer.Writable(env, ms[i].t, ms[i].v) {
      assert ms[i] in ms;
      FitsWritable(env, env', options, 0, ms[i].t, ms[i].v);
    }
    var parsed, packets, buffered := SendAndParse(env, max, ms, sizes);
    ok, values := ReadBodies(env, env', types, options, max, ms, packets);
    ok := ok && parsed && buffered == 0;
  }

  method SendAndParse(env: Env, max: nat, ms: seq<P.Message>, sizes: seq<nat>)
    returns (ok: bool, packets: seq<F.Packet>, buffered: nat)
    requires forall i | 0 <= i < |ms| :: Writer.Writable(env, ms[i].t, ms[i].v)
    requires forall p | p in P.PacketsOf(env, ms) :: F.Sendable(p, max)
    ensures ok && packets == P.PacketsOf(env, ms) && buffered == 0
  {
    ghost var ps := P.PacketsOf(env, ms);
    var out := new Writer.ByteVector([]);
    P.WritePackets(out, env, ms);
    assert [] + F.Frames(ps) == F.Frames(ps);
    ok, packets, buffered := P.Receive(Cut(out.items, sizes), max, ps);
  }

  lemma {:induction false} AllSendable(env: Env, env': Env, types: map<nat, Ty>, options: D.Options, max: nat,
                                       ms: seq<P.Message>)
    requires forall m | m in ms :: Acceptable(env, env', types, options, max, m)
    ensures forall p | p in P.PacketsOf(env, ms) :: F.Sendable(p, max)
  {
    if ms != [] {
      assert ms[0] in ms;
      AllSendable(env, env', types, options, max, ms[1..]);
    }
  }

  /** The receiver's handlers, one packet after the other. */
  method ReadBodies(ghost env: Env, env': Env, types: map<nat, Ty>, options: D.Options, ghost max: nat,
                    ghost ms: seq<P.Message>, packets: seq<F.Packet>)
    returns (ok: bool, values: seq<Val>)
    requires WfEnv(env) && Extends(env, env') && packets == P.PacketsOf(env, ms)
    requires forall m | m in ms :: Acceptable(env, env', types, options, max, m)
    ensures ok && values == ValuesOf(env', ms)
    decreases |packets|
  {
    if packets == [] {
      return true, [];
    }
    assert ms[0] in ms && packets[0] == P.PacketOf(env, ms[0]);
    var x, error, left := ReadBack(env, env', types[packets[0].id], ms[0].v, packets[0].body, options);
    var rest;
    ok, rest := ReadBodies(env, env', types, options, max, ms[1..], packets[1..]);
    ok := ok && error == NoError && left == 0;
    values := [x] + rest;
  }

  // -- VersionTolerant objects ------------------------------------------------------------------------

  /** A member: its type and value. */
  datatype Member = Member(t: Ty, v: Val)

  function Encodings(env: Env, ms: seq<Member>): (bss: seq<bytes>)
    ensures |bss| == |ms|
  {
    if ms == [] then [] else [Enc(env, ms[0].t, ms[0].v)] + Encodings(env, ms[1..])
  }

  lemma {:induction false} EncodingsAt(env: Env, ms: seq<Member>, i: nat)
    requires i < |ms|
    ensures Encodings(env, ms)[i] == Enc(env, ms[i].t, ms[i].v)
  {
    if i > 0 {
      EncodingsAt(env, ms[1..], i - 1);
    }
  }

  /** Members that can be written and read, at most 249, none of 4 GiB. */
  predicate Exchangeable(env: Env, env': Env, options: D.Options, ms: seq<Member>)
  {
    && WfEnv(env) && Extends(env, env') && |ms| <= MAX_MEMBER_COUNT && V.Fit32(V.Sizes(Encodings(env, ms)))
    && forall m | m in ms :: WfTy(env, m.t) && Fits(env, env', options, 0, m.t, m.v)
  }

  /** The writer class, from its creation to Finish. */
  method WriteObject(env: Env, env': Env, options: D.Options, ms: seq<Member>) returns (bs: bytes)
    requires Exchangeable(env, env', options, ms)
    ensures bs == V.ObjectBytes(Encodings(env, ms))
  {
    var out := new Writer.MemoryPackWriter();
    var packer := new V.VersionTolerantWriter(out);
    forall m | m in ms ensures Writer.Writable(env, m.t, m.v) {
      FitsWritable(env, env', options, 0, m.t, m.v);
    }
    WriteMembers(env, packer, ms);
    assert [] + Encodings(env, ms) == Encodings(env, ms) == packer.members;
    packer.Finish();
    Writer.AfterNothing(out.State(), V.ObjectBytes(Encodings(env, ms)), true);
    bs := out.GetSpan();
  }

  method WriteMembers(env: Env, packer: V.VersionTolerantWriter, ms: seq<Member>)
    requires packer.Valid() && packer.body.error == NoError
    requires forall m | m in ms :: Writer.Writable(env, m.t, m.v)
    modifies packer, packer.body
    ensures packer.Valid() && packer.body.error == NoError && packer.finished == old(packer.finished)
    ensures packer.members == old(packer.members) + Encodings(env, ms)
    decreases |ms|
  {
    ghost var before := packer.members;
    if ms == [] {
      assert before + [] == before;
    } else {
      assert ms[0] in ms;
      packer.WriteMember(env, ms[0].t, ms[0].v);
      WriteMembers(env, packer, ms[1..]);
      ghost var first, others := Enc(env, ms[0].t, ms[0].v), Encodings(env, ms[1..]);
      assert before + [first] + others == before + ([first] + others);
    }
  }

  /** Reads or skips as many members as there are operations. */
  method PerformOps(env: Env, reader: V.VersionTolerantReader, ops: seq<V.Op>)
    requires reader.Valid() && V.Usable(reader.State())
    modifies reader, reader.input
    ensures reader.Valid() && V.Usable(reader.State())
    ensures reader.State() == V.PerformAll(env, old(reader.State()), ops)
    decreases |ops|
  {
    if ops != [] {
      if ops[0].Skip? {
        var present := reader.SkipMember();
      } else {
        var present, x := reader.ReadMember(env, ops[0].t, ops[0].out);
      }
      PerformOps(env, reader, ops[1..]);
    }
  }

  /**
   An object written by the one class and read by the other, which first reads and skips members in any
   mix, then reads the next member as the type it was written with, and finishes. Unless the mix ended in
   an error, that member arrives; in the end every byte is consumed.
   */
  method ExchangeObject(env: Env, env': Env, options: D.Options, ms: seq<Member>, ops: seq<V.Op>, into: Val)
    returns (x: Val, mixFailed: bool, left: int)
    requires Exchangeable(env, env', options, ms) && |ops| < |ms|
    ensures !mixFailed ==> x == Received(env', ms[|ops|].t, into, ms[|ops|].v) && left == 0
    ensures var v := V.Open(Identity.Start(V.ObjectBytes(Encodings(env, ms)), options));
            V.Usable(v) && (mixFailed <==> !V.PerformAll(env', v, ops).input.Ok())
  {
    MixThenMember(env, env', options, ms, ops, into);
    var bs := WriteObject(env, env', options, ms);
    var input := new Reader.MemoryPackReader(bs, options);
    var reader := new V.VersionTolerantReader(input);
    PerformOps(env', reader, ops);
    mixFailed := input.error != NoError;
    var present;
    present, x := reader.ReadMember(env', ms[|ops|].t, into);
    reader.Finish();
    left := |bs| - input.pos;
  }

  lemma MixThenMember(env: Env, env': Env, options: D.Options, ms: seq<Member>, ops: seq<V.Op>, into: Val)
    requires Exchangeable(env, env', options, ms) && |ops| < |ms|
    ensures var bs, m := V.ObjectBytes(Encodings(env, ms)), ms[|ops|];
            var start := V.Open(Identity.Start(bs, options));
            && V.Usable(start)
            && var (_, x, v) := V.AfterRead(env', m.t, into, V.PerformAll(env', start, ops));
               V.PerformAll(env', start, ops).input.Ok() ==>
                 x == Received(env', m.t, into, m.v) && V.AfterFinish(v).input.pos == |bs|
  {
    var bss, m := Encodings(env, ms), ms[|ops|];
    var bs := V.ObjectBytes(bss);
    var s, op := Identity.Start(bs, options), V.Read(m.t, into);
    assert bs[0..|bs|] == bs;
    V.OpenAt(s, bss);
    if V.PerformAll(env', V.Open(s), ops).input.Ok() {
      assert m in ms;
      EncodingsAt(env, ms, |ops|);
      V.MemberArrives(env, env', s, bss, ops, m.t, m.v, into);
      AndOneMore(env', V.Open(s), ops, op);
      V.EveryMixEnds(env', s, bss, ops + [op]);
    }
  }

  lemma {:induction false} AndOneMore(env: Env, v: V.VtState, ops: seq<V.Op>, op: V.Op)
    requires V.Usable(v)
    ensures V.PerformAll(env, v, ops + [op]) == V.Perform(env, V.PerformAll(env, v, ops), op)
    decreases |ops|
  {
    if ops == [] {
      assert ([] + [op])[1..] == [];
    } else {
      assert (ops + [op])[1..] == ops[1..] + [op];
      AndOneMore(env, V.Perform(env, v, ops[0]), ops[1..], op);
    }
  }
}
