/**
 VersionTolerant objects: the members are preceded by their byte lengths, so that a reader can read
 or skip each of them.
 */
module VersionTolerant {
  import opened Basics
  import opened Bytes
  import opened Wire
  import D = Decoder
  import opened RoundTrip
  import R = Reader
  import W = Writer

  // -- The bytes -------------------------------------------------------------------------------

  function Sizes(members: seq<bytes>): (ns: seq<nat>)
    ensures |ns| == |members|
  {
    if members == [] then [] else [|members[0]|] + Sizes(members[1..])
  }

  function Lengths(ns: seq<nat>): (bs: bytes)
  {
    if ns == [] then [] else VarIntBytes(ns[0]) + Lengths(ns[1..])
  }

  function Total(ns: seq<nat>): (n: nat)
  {
    if ns == [] then 0 else ns[0] + Total(ns[1..])
  }

  /** Lengths a uint32_t can hold. */
  predicate Fit32(ns: seq<nat>)
  {
    forall i | 0 <= i < |ns| :: ns[i] < 0x1_0000_0000
  }

  /** What VersionTolerantWriter emits for members with these encodings. */
  function ObjectBytes(members: seq<bytes>): (bs: bytes)
  {
    LE(|members|, 1) + Lengths(Sizes(members)) + Flatten(members)
  }

  /** Two members of one and of two bytes: the count, the lengths, the members. */
  lemma ObjectExample()
    ensures ObjectBytes([[7], [8, 9]]) == [2, 1, 2, 7, 8, 9]
  {
    var members: seq<bytes> := [[7], [8, 9]];
    assert members[1..] == [[8, 9]] && members[1..][1..] == [];
    assert Sizes([[8, 9]]) == [2] && Sizes(members) == [1] + [2] && [1, 2][1..] == [2];
    assert Lengths([2]) == [2] && Lengths([1, 2]) == [1] + [2];
    assert Flatten([[8, 9]]) == [8, 9] && Flatten(members) == [7] + [8, 9];
    assert LE(2, 1) == [2] && ObjectBytes(members) == [2] + ([1] + [2]) + ([7] + [8, 9]);
  }

  lemma {:induction false} SizesAt(members: seq<bytes>, i: nat)
    requires i < |members|
    ensures Sizes(members)[i] == |members[i]|
  {
    if i > 0 {
      SizesAt(members[1..], i - 1);
    }
  }

  lemma {:induction false} TotalIsSize(members: seq<bytes>)
    ensures Total(Sizes(members)) == |Flatten(members)|
  {
    if members != [] {
      TotalIsSize(members[1..]);
    }
  }

  lemma {:induction false} FlattenSnoc(members: seq<bytes>, m: bytes)
    ensures Flatten(members + [m]) == Flatten(members) + m
  {
    if members == [] {
      assert Flatten([m]) == m + Flatten([]);
    } else {
      FlattenSnoc(members[1..], m);
      assert (members + [m])[1..] == members[1..] + [m];
    }
  }

  lemma {:induction false} LengthsSnoc(ns: seq<nat>, n: nat)
    ensures Lengths(ns + [n]) == Lengths(ns) + VarIntBytes(n)
  {
    if ns == [] {
      assert Lengths([n]) == VarIntBytes(n) + Lengths([]);
    } else {
      var a, b, c := VarIntBytes(ns[0]), Lengths(ns[1..]), VarIntBytes(n);
      LengthsSnoc(ns[1..], n);
      assert (ns + [n])[0] == ns[0] && (ns + [n])[1..] == ns[1..] + [n];
      assert a + (b + c) == (a + b) + c;
    }
  }

  lemma {:induction false} FlattenSplit(members: seq<bytes>, k: nat)
    requires k <= |members|
    ensures Flatten(members) == Flatten(members[..k]) + Flatten(members[k..])
    decreases k
  {
    if k == 0 {
      assert members[0..] == members;
    } else {
      FlattenSplit(members[1..], k - 1);
      assert members[..k][1..] == members[1..][..k - 1] && members[k..] == members[1..][k - 1..];
    }
  }

  // -- Writing ---------------------------------------------------------------------------------

  class VersionTolerantWriter {
    const out: W.MemoryPackWriter
    const body: W.MemoryPackWriter
    var lengths: seq<nat>
    var finished: bool
    /** The encodings buffered so far. */
    ghost var members: seq<bytes>

    ghost predicate Valid()
      reads this, body, body.Target(), out, out.Target()
    {
      && body.mode == W.Owned && body.Valid() && out.Valid() && body != out
      && body.Contents() == Flatten(members)
      && |lengths| == |members| && (forall i | 0 <= i < |lengths| :: lengths[i] == |members[i]| % 0x1_0000_0000)
    }

    constructor (out: W.MemoryPackWriter)
      requires out.Valid()
      ensures Valid() && this.out == out && fresh(body) && members == [] && !finished && body.error == NoError
    {
      this.out := out;
      body := new W.MemoryPackWriter();
      lengths, members, finished := [], [], false;
    }

    /** Buffers a member and records its length. */
    method WriteMember(env: Env, t: Ty, v: Val)
      requires Valid()
      modifies this, body
      ensures Valid() && finished == old(finished) && |members| == |old(members)| + 1 && old(members) <= members
      ensures body.error == NoError <==> old(body.error) == NoError && W.Writable(env, t, v)
      ensures body.error == NoError ==> members == old(members) + [Enc(env, t, v)]
    {
      var length, bs := Buffer(body, env, t, v);
      FlattenSnoc(members, bs);
      lengths := lengths + [length];
      members := members + [bs];
    }

    /** Appends the value, and its length as a uint32_t. */
    static method Buffer(body: W.MemoryPackWriter, env: Env, t: Ty, v: Val) returns (length: nat, ghost bs: bytes)
      requires body.Valid() && body.mode == W.Owned
      modifies body
      ensures body.Valid() && body.Contents() == old(body.Contents()) + bs && length == |bs| % 0x1_0000_0000
      ensures body.error == NoError <==> old(body.error) == NoError && W.Writable(env, t, v)
      ensures body.error == NoError ==> bs == Enc(env, t, v)
    {
      ghost var s := body.State();
      var start := body.Size();
      body.Write(env, t, v);
      var end := body.Size();
      bs := Appended(s, body.State(), Enc(env, t, v), W.Writable(env, t, v));
      length := (end - start) % 0x1_0000_0000;
    }

    /** What a writer without limit appended, even if an error stopped it. */
    static lemma Appended(s: W.WState, r: W.WState, bs: bytes, p: bool) returns (added: bytes)
      requires W.Wrote(s, r, bs, p) && s.room.Unbounded?
      ensures r.contents == s.contents + added && (r.Ok() <==> s.Ok() && p) && (r.Ok() ==> added == bs)
    {
      added := r.contents[|s.contents|..];
    }

    /** Emits the object once. */
    method Finish()
      requires Valid()
      modifies this, out, out.Target()
      ensures Valid() && finished && members == old(members)
      ensures old(finished) ==> out.State() == old(out.State())
      ensures !old(finished) && Fit32(Sizes(members)) ==>
                W.Wrote(old(out.State()), out.State(), ObjectBytes(members), |members| <= MAX_MEMBER_COUNT)
    {
      if finished {
        return;
      }
      finished := true;
      if |lengths| > MAX_MEMBER_COUNT {
        out.WriteObjectHeader(NULL_OBJECT);
        return;
      }
      ghost var s := out.State();
      out.WriteObjectHeader(|lengths|);
      ghost var m1 := out.State();
      WriteLengths(out, lengths);
      ghost var m2, header, sizes := out.State(), LE(|lengths|, 1), Lengths(lengths);
      W.WroteBoth(s, m1, m2, header, sizes, true, true);
      var span := body.GetSpan();
      out.AppendBytes(span);
      W.WroteBoth(s, m2, out.State(), header + sizes, span, true, true);
      if Fit32(Sizes(members)) {
        SameLengths();
      }
    }

    lemma SameLengths()
      requires Valid() && Fit32(Sizes(members))
      ensures lengths == Sizes(members)
    {
      forall i | 0 <= i < |lengths| ensures lengths[i] == Sizes(members)[i] {
        SizesAt(members, i);
      }
    }

    static method WriteLengths(out: W.MemoryPackWriter, lengths: seq<nat>)
      requires out.Valid()
      modifies out, out.Target()
      ensures out.Valid() && W.Wrote(old(out.State()), out.State(), Lengths(lengths), true)
    {
      ghost var s, done := out.State(), [];
      W.WroteNothing(s);
      assert lengths[..0] == [];
      var i := 0;
      while i < |lengths|
        invariant 0 <= i <= |lengths| && out.Valid()
        invariant done == Lengths(lengths[..i]) && W.Wrote(s, out.State(), done, true)
      {
        ghost var m, b := out.State(), VarIntBytes(lengths[i]);
        out.WriteVarIntLength(lengths[i]);
        W.WroteBoth(s, m, out.State(), done, b, true, true);
        LengthsSnoc(lengths[..i], lengths[i]);
        assert lengths[..i + 1] == lengths[..i] + [lengths[i]];
        done := done + b;
        i := i + 1;
      }
      assert lengths[..i] == lengths;
    }
  }

  // -- What the reader does, as functions on its state --------------------------------------------

  datatype VtState = VtState(input: D.RState, lengths: seq<nat>, count: nat, index: nat, next: nat, isNull: bool)

  /** The constructor did not fail, so there is a length for every member. */
  predicate Usable(v: VtState)
  {
    v.index <= v.count == |v.lengths|
  }

  function ReadLengths(n: nat, s: D.RState): (r: (seq<nat>, D.RState))
    ensures D.Follows(s, r.1) && (r.1.Ok() ==> |r.0| == n)
  {
    if n == 0 || !s.Ok() then ([], s)
    else
      var (len, s1) := D.ReadVarIntLength(s);
      var (rest, s2) := ReadLengths(n - 1, s1);
      ([len] + rest, s2)
  }

  function Open(s: D.RState): (v: VtState)
    ensures v.input.Ok() ==> Usable(v)
  {
    var (h, s1) := D.ReadObjectHeader(s);
    if h.isNull then VtState(s1, [], 0, 0, 0, true)
    else
      var (lengths, s2) := ReadLengths(h.count, s1);
      VtState(s2, lengths, h.count, 0, s2.pos, false)
  }

  /** Whether the member was there, its value (else `out`), and the state afterwards. */
  function AfterRead(env: Env, t: Ty, out: Val, v: VtState): (r: (bool, Val, VtState))
    requires Usable(v)
    ensures Usable(r.2)
  {
    if v.isNull || v.index >= v.count then (false, out, v)
    else
      var end := v.next + v.lengths[v.index];
      var s1 := D.Seek(v.input, v.next);
      if !s1.Ok() then (false, out, v.(index := v.index + 1, input := s1))
      else
        var (x, s2) := D.Dec(env, t, out, s1);
        (true, x, v.(index := v.index + 1, input := D.Seek(s2, end), next := end))
  }

  function AfterSkip(v: VtState): (r: (bool, VtState))
    requires Usable(v)
    ensures Usable(r.1) && r.1.index == if v.isNull || v.index >= v.count then v.index else v.index + 1
  {
    if v.isNull || v.index >= v.count then (false, v)
    else
      var end := v.next + v.lengths[v.index];
      (true, v.(index := v.index + 1, input := D.Seek(v.input, end), next := end))
  }

  function AfterFinish(v: VtState): (r: VtState)
    requires Usable(v)
    ensures Usable(r)
    decreases v.count - v.index
  {
    if v.isNull then v
    else if v.index < v.count then AfterFinish(AfterSkip(v).1)
    else v.(input := D.Seek(v.input, v.next))
  }

  /** A caller reads members, as types of its own choosing, and skips others. */
  datatype Op = Read(t: Ty, out: Val) | Skip

  function Perform(env: Env, v: VtState, op: Op): (r: VtState)
    requires Usable(v)
    ensures Usable(r)
  {
    if op.Skip? then AfterSkip(v).1 else AfterRead(env, op.t, op.out, v).2
  }

  function PerformAll(env: Env, v: VtState, ops: seq<Op>): (r: VtState)
    requires Usable(v)
    ensures Usable(r)
    decreases |ops|
  {
    if ops == [] then v else PerformAll(env, Perform(env, v, ops[0]), ops[1..])
  }

  // -- Where the reader ends up ------------------------------------------------------------------

  /** The bytes of a member asked for after an error: it is passed over, but its bytes are not. */
  function LostBy(v: VtState, op: Op): (n: nat)
    requires Usable(v)
  {
    if op.Read? && !v.isNull && v.index < v.count && !D.Seek(v.input, v.next).Ok() then v.lengths[v.index] else 0
  }

  function Lost(env: Env, v: VtState, ops: seq<Op>): (n: nat)
    requires Usable(v)
    decreases |ops|
  {
    if ops == [] then 0 else LostBy(v, ops[0]) + Lost(env, Perform(env, v, ops[0]), ops[1..])
  }

  /** Where the object ends, according to the lengths not yet used. */
  function End(v: VtState): (n: nat)
    requires Usable(v)
  {
    v.next + Total(v.lengths[v.index..])
  }

  lemma PerformKeepsEnd(env: Env, v: VtState, op: Op)
    requires Usable(v) && !v.isNull
    ensures var r := Perform(env, v, op); !r.isNull && r.input.data == v.input.data && End(r) + LostBy(v, op) == End(v)
  {
    if v.index < v.count {
      var rest := v.lengths[v.index..];
      assert rest[0] == v.lengths[v.index] && rest[1..] == v.lengths[v.index + 1..];
    }
  }

  lemma {:induction false} PerformAllKeepsEnd(env: Env, v: VtState, ops: seq<Op>)
    requires Usable(v) && !v.isNull
    ensures var r := PerformAll(env, v, ops); !r.isNull && r.input.data == v.input.data && End(r) + Lost(env, v, ops) == End(v)
    decreases |ops|
  {
    if ops != [] {
      PerformKeepsEnd(env, v, ops[0]);
      PerformAllKeepsEnd(env, Perform(env, v, ops[0]), ops[1..]);
    }
  }

  lemma {:induction false} FinishAtEnd(v: VtState)
    requires Usable(v) && !v.isNull && End(v) <= |v.input.data|
    ensures AfterFinish(v).input.pos == End(v)
    decreases v.count - v.index
  {
    if v.index < v.count {
      var rest := v.lengths[v.index..];
      assert rest[0] == v.lengths[v.index] && rest[1..] == v.lengths[v.index + 1..];
      FinishAtEnd(AfterSkip(v).1);
    } else {
      assert v.lengths[v.index..] == [];
    }
  }

  /** Nothing is lost without an error. */
  lemma {:induction false} LostOnlyAfterError(env: Env, v: VtState, ops: seq<Op>)
    requires Usable(v) && PerformAll(env, v, ops).input.Ok()
    ensures v.input.Ok() && Lost(env, v, ops) == 0
    decreases |ops|
  {
    if ops != [] {
      LostOnlyAfterError(env, Perform(env, v, ops[0]), ops[1..]);
    }
  }

  // -- Reading what was written ------------------------------------------------------------------

  lemma ReadVarIntAt(s: D.RState, n: nat)
    requires s.Ok() && n < 0x1_0000_0000 && HasAt(s.data, s.pos, VarIntBytes(n))
    ensures D.ReadVarIntLength(s) == (n, Moved(s, |VarIntBytes(n)|))
  {
    Pow256Small();
    assert VarIntBytes(n)[0] == s.data[s.pos..s.pos + |VarIntBytes(n)|][0] == s.data[s.pos];
    if n > 0xFFFF {
      HasAtSplit(s.data, s.pos, [0x82], LE(n, 4));
      ReadRawAt(Moved(s, 1), 4, n);
    } else if n > 127 {
      HasAtSplit(s.data, s.pos, [0x84], LE(n, 2));
      ReadRawAt(Moved(s, 1), 2, n);
    }
  }

  /** The lengths `ns` are next and end before `end`. */
  predicate LengthsAt(s: D.RState, ns: seq<nat>, end: nat)
  {
    s.Ok() && Fit32(ns) && HasAt(s.data, s.pos, Lengths(ns)) && s.pos + |Lengths(ns)| == end
  }

  lemma {:induction false} ReadLengthsAt(s: D.RState, ns: seq<nat>, end: nat)
    requires LengthsAt(s, ns, end)
    ensures end <= |s.data| && ReadLengths(|ns|, s) == (ns, s.(pos := end))
    decreases |ns|
  {
    if ns != [] {
      var s1 := FirstLengthAt(s, ns, end);
      ReadLengthsAt(s1, ns[1..], end);
      LengthsBehindFirst(|ns| - 1, s, ns[0], s1, ns[1..], s1.(pos := end));
      assert ns == [ns[0]] + ns[1..];
    }
  }

  lemma FirstLengthAt(s: D.RState, ns: seq<nat>, end: nat) returns (s1: D.RState)
    requires LengthsAt(s, ns, end) && ns != []
    ensures D.ReadVarIntLength(s) == (ns[0], s1) && s1 == s.(pos := s1.pos) && LengthsAt(s1, ns[1..], end)
  {
    var head, tail := VarIntBytes(ns[0]), Lengths(ns[1..]);
    HasAtSplit(s.data, s.pos, head, tail);
    ReadVarIntAt(s, ns[0]);
    s1 := Moved(s, |head|);
  }

  lemma LengthsBehindFirst(k: nat, s: D.RState, n: nat, s1: D.RState, rest: seq<nat>, s2: D.RState)
    requires s.Ok() && D.ReadVarIntLength(s) == (n, s1) && ReadLengths(k, s1) == (rest, s2)
    ensures ReadLengths(k + 1, s) == ([n] + rest, s2)
  {
  }

  /** An object with these members is next. */
  predicate ObjectAt(s: D.RState, members: seq<bytes>)
  {
    && s.Ok() && |members| <= MAX_MEMBER_COUNT && Fit32(Sizes(members))
    && HasAt(s.data, s.pos, ObjectBytes(members))
  }

  /** Where the first member starts. */
  function Base(s: D.RState, members: seq<bytes>): (n: nat)
  {
    s.pos + 1 + |Lengths(Sizes(members))|
  }

  lemma ObjectParts(s: D.RState, members: seq<bytes>)
    requires ObjectAt(s, members)
    ensures HasAt(s.data, s.pos, LE(|members|, 1)) && HasAt(s.data, s.pos + 1, Lengths(Sizes(members)))
    ensures HasAt(s.data, Base(s, members), Flatten(members))
  {
    ThreeParts(s.data, s.pos, LE(|members|, 1), s.pos + 1, Lengths(Sizes(members)), Base(s, members), Flatten(members));
  }

  lemma ThreeParts(data: bytes, pos: nat, a: bytes, p: nat, b: bytes, q: nat, c: bytes)
    requires HasAt(data, pos, a + b + c) && p == pos + |a| && q == p + |b|
    ensures HasAt(data, pos, a) && HasAt(data, p, b) && HasAt(data, q, c)
  {
    HasAtSplit(data, pos, a + b, c);
    HasAtSplit(data, pos, a, b);
  }

  lemma OpenAt(s: D.RState, members: seq<bytes>)
    requires ObjectAt(s, members)
    ensures Base(s, members) <= |s.data|
    ensures Open(s) == VtState(s.(pos := Base(s, members)), Sizes(members), |members|, 0, Base(s, members), false)
  {
    var n, ns := |members|, Sizes(members);
    ObjectParts(s, members);
    ReadHeaderAt(s, n);
    ReadLengthsAt(Moved(s, 1), ns, Base(s, members));
    OpenBehindHeader(s, n, ns, s.(pos := Base(s, members)));
  }

  lemma OpenBehindHeader(s: D.RState, n: nat, ns: seq<nat>, s2: D.RState)
    requires s.pos < |s.data| && D.ReadObjectHeader(s) == (D.Header(n, false), Moved(s, 1))
    requires ReadLengths(n, Moved(s, 1)) == (ns, s2)
    ensures Open(s) == VtState(s2, ns, n, 0, s2.pos, false)
  {
  }

  /**
   Every mix of ReadMember and SkipMember, ending in Finish, leaves the reader on the first byte
   behind the object, short only of the members asked for after an error. In particular it ends
   there whenever no error was recorded.
   */
  lemma EveryMixEnds(env: Env, s: D.RState, members: seq<bytes>, ops: seq<Op>)
    requires ObjectAt(s, members)
    ensures var v := Open(s);
            && Usable(v)
            && var end := s.pos + |ObjectBytes(members)|;
               var r := PerformAll(env, v, ops);
               && AfterFinish(r).input.pos + Lost(env, v, ops) == end
               && (r.input.Ok() ==> AfterFinish(r).input.pos == end)
  {
    OpenAt(s, members);
    var v := Open(s);
    var r := PerformAll(env, v, ops);
    assert v.lengths[0..] == v.lengths;
    TotalIsSize(members);
    PerformAllKeepsEnd(env, v, ops);
    FinishAtEnd(r);
    if r.input.Ok() {
      LostOnlyAfterError(env, v, ops);
    }
  }

  /**
   An object of two one-byte members. The first is read as 100 bytes, which is an error, so the second is
   passed over but its byte is not: the reader ends one byte short of the object.
   */
  lemma ShortAfterError(env: Env, s: D.RState)
    requires s == D.RState(ObjectBytes([[7], [8]]), D.Options(0, 0, 0), 0, 0, NoError)
    ensures ObjectAt(s, [[7], [8]]) && Usable(Open(s))
    ensures var v, ops := Open(s), [Read(Raw(100, 1), VNull), Read(Prim(1, false), VNull)];
            Lost(env, v, ops) == 1 && AfterFinish(PerformAll(env, v, ops)).input.pos + 1 == |s.data|
  {
    var members: seq<bytes>, ops := [[7], [8]], [Read(Raw(100, 1), VNull), Read(Prim(1, false), VNull)];
    TwoByteMembers(s, members);
    OpenAt(s, members);
    EveryMixEnds(env, s, members, ops);
    SecondIsLost(env, Open(s), ops[0], ops[1]);
    assert ops == [ops[0], ops[1]];
  }

  lemma TwoByteMembers(s: D.RState, members: seq<bytes>)
    requires members == [[7], [8]] && s == D.RState(ObjectBytes(members), D.Options(0, 0, 0), 0, 0, NoError)
    ensures ObjectAt(s, members) && Sizes(members) == [1, 1] && Base(s, members) + 2 == |s.data|
  {
    assert members[1..] == [[8]] && Flatten([[8]]) == [8] && Flatten(members) == [7] + [8];
    assert [1, 1][1..] == [1];
    assert Sizes([[8]]) == [1] && Sizes(members) == [1] + [1];
    assert Lengths([1]) == [1] && Lengths([1, 1]) == [1] + [1];
    assert LE(2, 1) == [2] && ObjectBytes(members) == [2] + ([1] + [1]) + ([7] + [8]);
    assert s.data[0..|s.data|] == s.data;
  }

  /** What is read first does not fit, so the member behind it is not reached. */
  lemma SecondIsLost(env: Env, v: VtState, first: Op, second: Op)
    requires Usable(v) && !v.isNull && v.input.Ok() && v.lengths == [1, 1] && v.index == 0
    requires v.next + 2 == |v.input.data| && first == Read(Raw(100, 1), VNull) && second.Read?
    ensures Lost(env, v, [first, second]) == 1
  {
    var v1 := Perform(env, v, first);
    assert !D.Dec(env, first.t, first.out, D.Seek(v.input, v.next)).1.Ok();
    assert [first, second][1..] == [second] && [second][1..] == [];
    assert Lost(env, Perform(env, v1, second), []) == 0;
    assert Lost(env, v1, [second]) == 1;
  }

  /**
   The constructor leaves a usable reader, one with a length for every member, exactly if all lengths but
   the last were read without an error.
   */
  lemma UsableIff(s: D.RState)
    ensures var (h, s1) := D.ReadObjectHeader(s);
            Usable(Open(s)) <==> h.count == 0 || ReadLengths(h.count - 1, s1).1.Ok()
  {
    var (h, s1) := D.ReadObjectHeader(s);
    if h.count > 0 {
      AllLengthsIff(h.count, s1);
    }
  }

  lemma {:induction false} AllLengthsIff(n: nat, s: D.RState)
    requires n > 0
    ensures |ReadLengths(n, s).0| == n <==> ReadLengths(n - 1, s).1.Ok()
  {
    if n > 1 && s.Ok() {
      AllLengthsIff(n - 1, D.ReadVarIntLength(s).1);
    }
  }

  /** Two members announced, the first length malformed: the second has no length to be found by. */
  lemma FailedOpen(s: D.RState)
    requires s == D.RState([2, 0x85], D.Options(0, 0, 0), 0, 0, NoError)
    ensures !Usable(Open(s)) && Open(s).count == 2 && |Open(s).lengths| == 1 && Open(s).input.error == InvalidHeader
  {
    var s1 := s.(pos := 1);
    assert D.ReadObjectHeader(s) == (D.Header(2, false), s1);
    var (n, s2) := D.ReadVarIntLength(s1);
    assert !s2.Ok() && ReadLengths(1, s2) == ([], s2);
    LengthsBehindFirst(1, s1, n, s2, [], s2);
  }

  /** The reader is at one of these members, or behind the last. */
  predicate At(v: VtState, s: D.RState, members: seq<bytes>, k: nat)
  {
    && v.input.Ok() && v.input.data == s.data && v.input.opts == s.opts && v.input.depth == s.depth
    && !v.isNull && v.lengths == Sizes(members) && v.count == |members|
    && v.index == k <= |members| && v.next == Base(s, members) + |Flatten(members[..k])|
  }

  lemma PerformMoves(env: Env, v: VtState, s: D.RState, members: seq<bytes>, k: nat, op: Op)
    requires At(v, s, members, k) && Perform(env, v, op).input.Ok()
    ensures At(Perform(env, v, op), s, members, if k < |members| then k + 1 else k)
  {
    if k < |members| {
      FlattenSnoc(members[..k], members[k]);
      SizesAt(members, k);
      assert members[..k + 1] == members[..k] + [members[k]];
    }
  }

  lemma {:induction false} PerformAllMoves(env: Env, v: VtState, s: D.RState, members: seq<bytes>, k: nat, ops: seq<Op>)
    requires At(v, s, members, k) && PerformAll(env, v, ops).input.Ok()
    ensures At(PerformAll(env, v, ops), s, members, if k + |ops| <= |members| then k + |ops| else |members|)
    decreases |ops|
  {
    if ops != [] {
      LostOnlyAfterError(env, Perform(env, v, ops[0]), ops[1..]);
      PerformMoves(env, v, s, members, k, ops[0]);
      PerformAllMoves(env, Perform(env, v, ops[0]), s, members, if k < |members| then k + 1 else k, ops[1..]);
    }
  }

  lemma MemberAt(data: bytes, base: nat, members: seq<bytes>, k: nat, at: nat)
    requires k < |members| && HasAt(data, base, Flatten(members)) && at == base + |Flatten(members[..k])|
    ensures HasAt(data, at, members[k])
  {
    var a, b, c := Flatten(members[..k]), members[k], Flatten(members[k..][1..]);
    FlattenSplit(members, k);
    assert members[k..][0] == b;
    assert a + (b + c) == a + b + c;
    ThreeParts(data, base, a, at, b, at + |b|, c);
  }

  /** The state after any mix that recorded no error: at the member with that number, or behind the last. */
  lemma MixMoves(env: Env, s: D.RState, members: seq<bytes>, ops: seq<Op>)
    requires ObjectAt(s, members) && Usable(Open(s)) && PerformAll(env, Open(s), ops).input.Ok()
    ensures At(PerformAll(env, Open(s), ops), s, members, if |ops| <= |members| then |ops| else |members|)
  {
    OpenAt(s, members);
    assert members[..0] == [];
    PerformAllMoves(env, Open(s), s, members, 0, ops);
  }

  /** Members beyond the written ones are reported absent and leave the output and the reader alone. */
  lemma MemberAbsent(env: Env, s: D.RState, members: seq<bytes>, ops: seq<Op>, t: Ty, out: Val)
    requires ObjectAt(s, members) && Usable(Open(s)) && PerformAll(env, Open(s), ops).input.Ok()
    requires |ops| >= |members|
    ensures var v := PerformAll(env, Open(s), ops); AfterRead(env, t, out, v) == (false, out, v)
  {
    MixMoves(env, s, members, ops);
  }

  /**
   After any mix that recorded no error, whatever types the earlier members were read as and however
   many bytes their decoders consumed, the next member read as the type it was written with arrives,
   also by a reader with later versions of its classes.
   */
  lemma MemberArrives(env: Env, env': Env, s: D.RState, members: seq<bytes>, ops: seq<Op>, t: Ty, x: Val, out: Val)
    requires ObjectAt(s, members) && Usable(Open(s)) && PerformAll(env', Open(s), ops).input.Ok()
    requires |ops| < |members| && members[|ops|] == Enc(env, t, x) && Readable(env, env', t, x, s)
    ensures var (present, y, v) := AfterRead(env', t, out, PerformAll(env', Open(s), ops));
            present && y == Received(env', t, out, x) && v.input.Ok()
  {
    MixMoves(env', s, members, ops);
    ObjectParts(s, members);
    NextArrives(env, env', PerformAll(env', Open(s), ops), s, members, |ops|, t, x, out);
  }

  lemma NextArrives(env: Env, env': Env, v: VtState, s: D.RState, members: seq<bytes>, k: nat, t: Ty, x: Val, out: Val)
    requires Usable(v) && At(v, s, members, k) && k < |members| && HasAt(s.data, Base(s, members), Flatten(members))
    requires members[k] == Enc(env, t, x) && Readable(env, env', t, x, s)
    ensures var (present, y, r) := AfterRead(env', t, out, v); present && y == Received(env', t, out, x) && r.input.Ok()
  {
    MemberAt(s.data, Base(s, members), members, k, v.next);
    SizesAt(members, k);
    var s1 := v.input.(pos := v.next);
    DecOfEnc(env, env', t, out, x, s1);
    var s2, end := Moved(s1, |members[k]|), v.next + |members[k]|;
    BehindSeek(env', t, out, v, s1, Received(env', t, out, x), s2, end,
               VtState(D.Seek(s2, end), v.lengths, v.count, k + 1, end, false));
  }

  /** With `n` more lengths the list and the reader are as in `end`. */
  ghost predicate LengthsLeft(got: seq<nat>, n: nat, s: D.RState, end: (seq<nat>, D.RState))
  {
    var (rest, r) := ReadLengths(n, s);
    got + rest == end.0 && r == end.1
  }

  lemma LengthsBegin(n: nat, s: D.RState) returns (end: (seq<nat>, D.RState))
    ensures end == ReadLengths(n, s) && LengthsLeft([], n, s, end)
  {
    end := ReadLengths(n, s);
    assert [] + end.0 == end.0;
  }

  lemma LengthNext(got: seq<nat>, n: nat, s: D.RState, end: (seq<nat>, D.RState), len: nat, s1: D.RState)
    requires n > 0 && s.Ok() && LengthsLeft(got, n, s, end) && D.ReadVarIntLength(s) == (len, s1)
    ensures LengthsLeft(got + [len], n - 1, s1, end)
  {
    var (rest, s2) := ReadLengths(n - 1, s1);
    LengthsBehindFirst(n - 1, s, len, s1, rest, s2);
    assert got + ([len] + rest) == got + [len] + rest;
  }

  lemma LengthsEnd(got: seq<nat>, n: nat, s: D.RState, end: (seq<nat>, D.RState))
    requires (n == 0 || !s.Ok()) && LengthsLeft(got, n, s, end)
    ensures (got, s) == end
  {
    assert got + [] == got;
  }

  lemma NotReached(env: Env, t: Ty, out: Val, v: VtState, s1: D.RState, r: VtState)
    requires Usable(v) && !v.isNull && v.index < v.count && s1 == D.Seek(v.input, v.next) && !s1.Ok()
    requires r == VtState(s1, v.lengths, v.count, v.index + 1, v.next, v.isNull)
    ensures AfterRead(env, t, out, v) == (false, out, r)
  {
  }

  lemma BehindSeek(env: Env, t: Ty, out: Val, v: VtState, s1: D.RState, x: Val, s2: D.RState, end: nat, r: VtState)
    requires Usable(v) && !v.isNull && v.index < v.count && end == v.next + v.lengths[v.index]
    requires s1 == D.Seek(v.input, v.next) && s1.Ok() && D.Dec(env, t, out, s1) == (x, s2)
    requires r == VtState(D.Seek(s2, end), v.lengths, v.count, v.index + 1, end, v.isNull)
    ensures AfterRead(env, t, out, v) == (true, x, r)
  {
  }

  // -- The reader --------------------------------------------------------------------------------

  class VersionTolerantReader {
    const input: R.MemoryPackReader
    var lengths: seq<nat>
    var count: nat
    var index: nat
    var next: nat
    var isNull: bool

    ghost predicate Valid()
      reads this, input
    {
      input.Valid()
    }

    ghost function State(): (v: VtState)
      requires Valid()
      reads this, input
    {
      VtState(input.State(), lengths, count, index, next, isNull)
    }

    constructor (input: R.MemoryPackReader)
      requires input.Valid()
      modifies input
      ensures Valid() && this.input == input && State() == Open(old(input.State()))
    {
      this.input := input;
      lengths, count, index, next, isNull := [], 0, 0, 0, false;
      new;
      var header := input.ReadObjectHeader();
      if header.isNull {
        isNull := true;
        return;
      }
      count := header.count;
      var ns := ReadAllLengths(input, header.count);
      lengths := ns;
      next := input.pos;
    }

    static method ReadAllLengths(input: R.MemoryPackReader, count: nat) returns (lengths: seq<nat>)
      requires input.Valid()
      modifies input
      ensures input.Valid() && (lengths, input.State()) == ReadLengths(count, old(input.State()))
    {
      ghost var end := LengthsBegin(count, input.State());
      lengths := [];
      var i := 0;
      while i < count && input.error == NoError
        invariant 0 <= i <= count && input.Valid() && LengthsLeft(lengths, count - i, input.State(), end)
      {
        ghost var s := input.State();
        var len := input.ReadVarIntLength();
        LengthNext(lengths, count - i, s, end, len, input.State());
        lengths := lengths + [len];
        i := i + 1;
      }
      LengthsEnd(lengths, count - i, input.State(), end);
    }

    method ReadMember(env: Env, t: Ty, out: Val) returns (present: bool, x: Val)
      requires Valid() && Usable(State())
      modifies this, input
      ensures Valid() && (present, x, State()) == AfterRead(env, t, out, old(State()))
    {
      if isNull || index >= count {
        return false, out;
      }
      ghost var v := State();
      var start := next;
      var end := start + lengths[index];
      index := index + 1;
      ghost var s1, s2;
      present, x, s1, s2 := ReadAt(input, env, t, out, start, end);
      if present {
        next := end;
        BehindSeek(env, t, out, v, s1, x, s2, end, State());
      } else {
        NotReached(env, t, out, v, s1, State());
      }
    }

    /** Reads at `start` and goes on at `end`, whatever was consumed. */
    static method ReadAt(input: R.MemoryPackReader, env: Env, t: Ty, out: Val, start: nat, end: nat)
      returns (present: bool, x: Val, ghost s1: D.RState, ghost s2: D.RState)
      requires input.Valid()
      modifies input
      ensures input.Valid() && s1 == D.Seek(old(input.State()), start) && present == s1.Ok()
      ensures !present ==> x == out && input.State() == s1
      ensures present ==> D.Dec(env, t, out, s1) == (x, s2) && input.State() == D.Seek(s2, end)
    {
      input.Seek(start);
      s1 := input.State();
      if input.error != NoError {
        return false, out, s1, s1;
      }
      x := input.Read(env, t, out);
      s2 := input.State();
      input.Seek(end);
      present := true;
    }

    method SkipMember() returns (present: bool)
      requires Valid() && Usable(State())
      modifies this, input
      ensures Valid() && (present, State()) == AfterSkip(old(State()))
    {
      if isNull || index >= count {
        return false;
      }
      next := next + lengths[index];
      index := index + 1;
      input.Seek(next);
      return true;
    }

    /** Skips the members the caller did not ask for and moves behind the object. */
    method Finish()
      requires Valid() && Usable(State())
      modifies this, input
      ensures Valid() && State() == AfterFinish(old(State()))
    {
      if isNull {
        return;
      }
      while index < count
        invariant Valid() && Usable(State()) && !isNull && AfterFinish(State()) == AfterFinish(old(State()))
        decreases count - index
      {
        var present := SkipMember();
      }
      input.Seek(next);
    }
  }
}
