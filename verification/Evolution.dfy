/**
 Objects read as a version of their class that has more or fewer members than the one written.
 */
module Evolution {
  import opened Basics
  import opened Bytes
  import opened Wire
  import opened Decoder
  import opened DecoderSteps
  import opened RoundTrip

  lemma {:induction false} EncAllSplit(env: Env, ts: seq<Ty>, vs: seq<Val>, k: nat)
    requires |ts| == |vs| && k <= |ts|
    ensures EncAll(env, ts, vs) == EncAll(env, ts[..k], vs[..k]) + EncAll(env, ts[k..], vs[k..])
    decreases k
  {
    if k > 0 {
      EncAllSplit(env, ts[1..], vs[1..], k - 1);
      assert ts[..k][1..] == ts[1..][..k - 1] && vs[..k][1..] == vs[1..][..k - 1];
      assert ts[k..] == ts[1..][k - 1..] && vs[k..] == vs[1..][k - 1..];
    } else {
      assert ts[0..] == ts && vs[0..] == vs;
    }
  }

  /** A header that announces more members than the reader knows is like one that announces those. */
  lemma {:induction false} SurplusIgnored(env: Env, ts: seq<Ty>, ds: seq<Val>, count: nat, n: nat, s: RState)
    requires |ds| == |ts| == n <= count
    ensures DecAll(env, ts, ds, count, s) == DecAll(env, ts, ds, n, s)
    decreases n
  {
    if n > 0 {
      SurplusIgnored(env, ts[1..], ds[1..], count - 1, n - 1, Dec(env, ts[0], ds[0], s).1);
    }
  }

  lemma {:induction false} ReceivedAllAt(env: Env, ts: seq<Ty>, ds: seq<Val>, vs: seq<Val>, i: nat)
    requires |ds| == |ts| && |vs| <= |ts| && i < |ts|
    ensures var r := ReceivedAll(env, ts, ds, vs);
            |r| == |ts| && r[i] == if i < |vs| then Received(env, ts[i], ds[i], vs[i]) else ds[i]
    decreases vs
  {
    if vs != [] {
      ReceivedAllLength(env, ts[1..], ds[1..], vs[1..]);
      if i > 0 {
        ReceivedAllAt(env, ts[1..], ds[1..], vs[1..], i - 1);
      }
    }
  }

  lemma {:induction false} ReceivedAllLength(env: Env, ts: seq<Ty>, ds: seq<Val>, vs: seq<Val>)
    requires |ds| == |ts|
    ensures |ReceivedAll(env, ts, ds, vs)| == |ts|
    decreases vs
  {
    if vs != [] && ts != [] {
      ReceivedAllLength(env, ts[1..], ds[1..], vs[1..]);
    }
  }

  // -- Classes that mean the same to both sides ------------------------------------------------------

  /** The classes of `known` are classes of `env`. */
  predicate Within(known: Env, env: Env)
  {
    forall id | id in known :: id in env && known[id] == env[id]
  }

  /** Values of known types are written in the same way whatever other classes there are. */
  lemma {:induction false} SameEncoding(known: Env, env: Env, t: Ty, v: Val)
    requires Within(known, env) && WfEnv(known) && WfTy(known, t)
    ensures Enc(known, t, v) == Enc(env, t, v)
    decreases v, 1
  {
    if IsLeaf(t) {
      SameLeaf(known, env, t, v);
    } else if IsCollection(t) {
      SameCollection(known, env, t, v);
    } else {
      match t
      case Obj(id) => if v.VObj? { SameAll(known, env, known[id].members, v.fields); }
      case Pair(a, b) => if v.VPair? { SameEncoding(known, env, a, v.fst); SameEncoding(known, env, b, v.snd); }
      case Tuple(ts) => if v.VTuple? { SameAll(known, env, ts, v.items); }
      case Opt(i) => if v.VSome? { SameEncoding(known, env, i, v.val); }
      case Ptr(i) => if v.VSome? { SameEncoding(known, env, i, v.val); }
      case Union(tags, alts) => if v.VUnion? { SameAlternative(known, env, tags, alts, v); }
    }
  }

  lemma SameLeaf(known: Env, env: Env, t: Ty, v: Val)
    requires IsLeaf(t)
    ensures Enc(known, t, v) == Enc(env, t, v)
  {
  }

  lemma SameCollection(known: Env, env: Env, t: Ty, v: Val)
    requires Within(known, env) && WfEnv(known) && WfTy(known, t) && IsCollection(t)
    ensures Enc(known, t, v) == Enc(env, t, v)
    decreases v, 0
  {
    if v.VList? {
      ElemWf(known, t);
      SameEach(known, env, ElemOf(t), v.elems);
    }
  }

  lemma SameAlternative(known: Env, env: Env, tags: seq<nat>, alts: seq<Ty>, v: Val)
    requires Within(known, env) && WfEnv(known) && WfTy(known, Union(tags, alts)) && v.VUnion?
    ensures Enc(known, Union(tags, alts), v) == Enc(env, Union(tags, alts), v)
    decreases v, 0
  {
    var i := FindTag(tags, v.tag);
    if i < |alts| {
      assert alts[i] in alts;
      SameEncoding(known, env, alts[i], v.alt);
    }
  }

  lemma ElemWf(env: Env, t: Ty)
    requires IsCollection(t) && WfTy(env, t)
    ensures WfTy(env, ElemOf(t))
  {
  }

  lemma {:induction false} SameEach(known: Env, env: Env, e: Ty, vs: seq<Val>)
    requires Within(known, env) && WfEnv(known) && WfTy(known, e)
    ensures EncEach(known, e, vs) == EncEach(env, e, vs)
    decreases vs, 0
  {
    if vs != [] {
      SameEncoding(known, env, e, vs[0]);
      SameEach(known, env, e, vs[1..]);
    }
  }

  lemma {:induction false} SameAll(known: Env, env: Env, ts: seq<Ty>, vs: seq<Val>)
    requires Within(known, env) && WfEnv(known) && WfAll(known, ts)
    ensures EncAll(known, ts, vs) == EncAll(env, ts, vs)
    decreases vs, 0
  {
    if vs != [] && ts != [] {
      assert ts[0] in ts;
      SameEncoding(known, env, ts[0], vs[0]);
      SameAll(known, env, ts[1..], vs[1..]);
    }
  }

  // -- An object of another version ------------------------------------------------------------------

  /**
   The first `k` members mean the same to writer and reader: their types use classes of `known` only,
   which are the writer's and which the reader has, possibly with more members. Nothing is asked of
   other classes: the reader may lack them or have shorter versions of them.
   */
  predicate Agreed(env: Env, known: Env, env': Env, ts: seq<Ty>, vs: seq<Val>, k: nat, s: RState)
    requires k <= |ts| && k <= |vs|
  {
    && Within(known, env) && WfEnv(known) && Extends(known, env') && WfAll(known, ts[..k])
    && FitsAll(known, env', s.opts, s.depth + 1, ts[..k], vs[..k])
  }

  /** An object with members `ts` and values `vs` is next, and the reader knows it as `c'`. */
  predicate Evolved(env: Env, known: Env, env': Env, ts: seq<Ty>, vs: seq<Val>, c': Class, s: RState)
  {
    var k := Min(|ts|, |c'.members|);
    && s.Ok() && |ts| == |vs| <= MAX_MEMBER_COUNT
    && ts[..k] == c'.members[..k] && Agreed(env, known, env', ts, vs, k, s)
    && (forall i | k <= i < |ts| :: Enc(env, ts[i], vs[i]) != [])
    && (c'.members == [] || s.depth < s.opts.maxDepth)
    && HasAt(s.data, s.pos, LE(|ts|, 1) + EncAll(env, ts, vs))
  }

  /** What reading such an object into one with members `ds` gives. */
  predicate ReadAs(env: Env, env': Env, ts: seq<Ty>, vs: seq<Val>, c': Class, ds: seq<Val>, s: RState, v: Val, r: RState)
    requires |ts| == |vs| && |ds| == |c'.members|
  {
    var k, end := Min(|ts|, |c'.members|), s.pos + 1 + |EncAll(env, ts, vs)|;
    && r.Ok() && r.depth == s.depth
    && v.VObj? && |v.fields| == |c'.members|
    && (forall i | 0 <= i < k :: v.fields[i] == Received(env', ts[i], ds[i], vs[i]))
    && (forall i | k <= i < |c'.members| :: v.fields[i] == ds[i])
    && r.pos + |EncAll(env, ts[k..], vs[k..])| == end
    && (r.pos == end <==> |ts| <= |c'.members|)
  }

  /**
   The members both versions know arrive, the others stay as they are in the object that is read into
   (its defaults, if it is new). The reader stops behind the last member it knows, so it ends exactly
   behind the object if and only if it knows all members that were written.
   */
  lemma EvolvedObject(env: Env, known: Env, env': Env, ts: seq<Ty>, vs: seq<Val>, c': Class, ds: seq<Val>, t': Ty, s: RState)
    requires Evolved(env, known, env', ts, vs, c', s) && |ds| == |c'.members|
    ensures var (v, r) := DecObject(env', t', c', ds, s); ReadAs(env, env', ts, vs, c', ds, s, v, r)
  {
    var k := Min(|ts|, |c'.members|);
    var s1, end := EvolvedParts(env, known, env', ts, vs, c', k, s);
    if c'.members == [] {
      NoMembersArrive(env', c', ds, t', s, |ts|);
      assert vs[..k] == [] && end == s.pos + 1;
    } else {
      MembersArrive(known, env', ts[..k], vs[..k], |ts|, c', ds, t', s, s1, end);
    }
    ReceivedFields(env', ts, vs, k, c', ds);
  }

  /** The header, the shared members one level deeper, and the bytes of the surplus ones, if there are any. */
  lemma EvolvedParts(env: Env, known: Env, env': Env, ts: seq<Ty>, vs: seq<Val>, c': Class, k: nat, s: RState)
    returns (s1: RState, end: nat)
    requires Evolved(env, known, env', ts, vs, c', s) && k == Min(|ts|, |c'.members|)
    ensures s.pos < |s.data| && s1 == Moved(s, 1).(depth := s.depth + 1)
    ensures ReadObjectHeader(s) == (Header(|ts|, false), Moved(s, 1))
    ensures AllAt(known, env', ts[..k], vs[..k], s1, end)
    ensures end + |EncAll(env, ts[k..], vs[k..])| == s.pos + 1 + |EncAll(env, ts, vs)|
    ensures EncAll(env, ts[k..], vs[k..]) == [] <==> k == |ts|
  {
    var head, tail := EncAll(env, ts[..k], vs[..k]), EncAll(env, ts[k..], vs[k..]);
    EncAllSplit(env, ts, vs, k);
    RestTakesBytes(env, ts, vs, k);
    SameAll(known, env, ts[..k], vs[..k]);
    HeadIsThere(s.data, s.pos, LE(|ts|, 1), head, tail, EncAll(env, ts, vs));
    ReadHeaderAt(s, |ts|);
    s1, end := Moved(s, 1).(depth := s.depth + 1), s.pos + 1 + |head|;
  }

  lemma HeadIsThere(data: bytes, pos: nat, header: bytes, head: bytes, tail: bytes, all: bytes)
    requires |header| == 1 && all == head + tail && HasAt(data, pos, header + all)
    ensures pos < |data| && HasAt(data, pos, header) && HasAt(data, pos + 1, head)
  {
    HasAtSplit(data, pos, header, all);
    HasAtSplit(data, pos + 1, head, tail);
  }

  /** A read through the class table: the reader's version of the class the object was written as. */
  lemma EvolvedRead(env: Env, known: Env, env': Env, id: string, into: Val, vs: seq<Val>, s: RState)
    requires |vs| == |ClassOf(env, id).members| && HasAt(s.data, s.pos, Enc(env, Obj(id), VObj(vs)))
    requires Evolved(env, known, env', ClassOf(env, id).members, vs, ClassOf(env', id), s)
    ensures var (v, r) := Dec(env', Obj(id), into, s);
            var c' := ClassOf(env', id);
            ReadAs(env, env', ClassOf(env, id).members, vs, c', FieldsOf(c', into), s, v, r)
  {
    var c' := ClassOf(env', id);
    EvolvedObject(env, known, env', ClassOf(env, id).members, vs, c', FieldsOf(c', into), Obj(id), s);
  }

  lemma MembersArrive(known: Env, env': Env, ts: seq<Ty>, vs: seq<Val>, count: nat, c': Class, ds: seq<Val>, t': Ty,
                      s: RState, s1: RState, end: nat)
    requires |ds| == |c'.members| && ts <= c'.members && c'.members != [] && s.depth < s.opts.maxDepth
    requires |ts| == |vs| <= count && (|ts| < count ==> |ts| == |c'.members|)
    requires s.pos < |s.data| && ReadObjectHeader(s) == (Header(count, false), Moved(s, 1))
    requires s1 == Moved(s, 1).(depth := s.depth + 1) && AllAt(known, env', ts, vs, s1, end)
    ensures end <= |s.data| && DecObject(env', t', c', ds, s) == (VObj(ReceivedAll(env', c'.members, ds, vs)), s.(pos := end))
  {
    SharedArrive(known, env', ts, vs, count, c', ds, s1, end);
    var fields := ReceivedAll(env', c'.members, ds, vs);
    ObjectBehindHeader(env', t', c', ds, s, Header(count, false), Moved(s, 1), fields, s1.(pos := end));
    assert Leave(s1.(pos := end)) == s.(pos := end);
  }

  lemma NoMembersArrive(env: Env, c: Class, ds: seq<Val>, t: Ty, s: RState, n: nat)
    requires c.members == [] && |ds| == 0 && s.pos < |s.data| && ReadObjectHeader(s) == (Header(n, false), Moved(s, 1))
    ensures DecObject(env, t, c, ds, s) == (VObj(ReceivedAll(env, c.members, ds, [])), Moved(s, 1))
  {
  }

  /** The members left unread take at least a byte, if there are any. */
  lemma RestTakesBytes(env: Env, ts: seq<Ty>, vs: seq<Val>, k: nat)
    requires |ts| == |vs| && k <= |ts| && forall i | k <= i < |ts| :: Enc(env, ts[i], vs[i]) != []
    ensures EncAll(env, ts[k..], vs[k..]) == [] <==> k == |ts|
  {
    if k < |ts| {
      assert ts[k..][0] == ts[k] && vs[k..][0] == vs[k];
    }
  }

  lemma SharedArrive(known: Env, env': Env, ts: seq<Ty>, vs: seq<Val>, count: nat, c': Class, ds: seq<Val>, s: RState,
                     end: nat)
    requires |ds| == |c'.members| && ts <= c'.members
    requires |ts| == |vs| <= count && (|ts| < count ==> |ts| == |c'.members|)
    requires AllAt(known, env', ts, vs, s, end)
    ensures end <= |s.data|
    ensures DecAll(env', c'.members, ds, count, s) == (ReceivedAll(env', c'.members, ds, vs), s.(pos := end))
  {
    AllArrive(known, env', ts, c'.members, ds, vs, s, end);
    if |vs| < count {
      SurplusIgnored(env', c'.members, ds, count, |vs|, s);
    }
  }

  /** What ReceivedAll gives, member by member. */
  lemma ReceivedFields(env: Env, ts: seq<Ty>, vs: seq<Val>, k: nat, c: Class, ds: seq<Val>)
    requires |ds| == |c.members| && |ts| == |vs| && k <= |ts| && k <= |c.members| && ts[..k] == c.members[..k]
    ensures var fields := ReceivedAll(env, c.members, ds, vs[..k]);
            && |fields| == |c.members|
            && (forall i | 0 <= i < k :: fields[i] == Received(env, ts[i], ds[i], vs[i]))
            && (forall i | k <= i < |c.members| :: fields[i] == ds[i])
  {
    if c.members == [] {
      assert ReceivedAll(env, c.members, ds, vs[..k]) == ds;
    } else {
      ReceivedAllAt(env, c.members, ds, vs[..k], 0);
    }
    forall i | 0 <= i < |c.members|
      ensures ReceivedAll(env, c.members, ds, vs[..k])[i] == if i < k then Received(env, ts[i], ds[i], vs[i]) else ds[i]
    {
      ReceivedAllAt(env, c.members, ds, vs[..k], i);
      assert i < k ==> ts[..k][i] == c.members[..k][i];
    }
  }

  // -- Why a shorter version must not be read inside a container ----------------------------------

  const BYTE := Prim(1, false)

  const OLD: Env := map["P" := Class([BYTE], [VInt(0)])]

  const NEW: Env := map["P" := Class([BYTE, BYTE], [VInt(0), VInt(0)])]

  const OLD_LIST := Sequence(Obj("P"), true)

  /** The shorter version of an object of the longer one, wherever it stands. */
  lemma ReadOldVersion(a: byte, b: byte, s: RState)
    requires s.Ok() && s.depth < s.opts.maxDepth && HasAt(s.data, s.pos, [2, a, b])
    ensures Dec(OLD, Obj("P"), Default(OLD, Obj("P")), s) == (VObj([VInt(a)]), Moved(s, 2))
  {
    var vs := [VInt(a), VInt(b)];
    NewEvolved(a, b, s);
    EncodedNew(a, b);
    EvolvedRead(NEW, map[], OLD, "P", VObj([VInt(0)]), vs, s);
    var (v, r) := Dec(OLD, Obj("P"), VObj([VInt(0)]), s);
    OldIsRead(a, b, s, v, r);
  }

  lemma NewEvolved(a: byte, b: byte, s: RState)
    requires s.Ok() && s.depth < s.opts.maxDepth && HasAt(s.data, s.pos, [2, a, b])
    ensures Evolved(NEW, map[], OLD, [BYTE, BYTE], [VInt(a), VInt(b)], OLD["P"], s)
  {
    EncodedNew(a, b);
    ByteFits(map[], OLD, s.opts, s.depth + 1, a);
    assert [BYTE, BYTE][..1] == [BYTE] && [VInt(a), VInt(b)][..1] == [VInt(a)];
  }

  lemma OldIsRead(a: byte, b: byte, s: RState, v: Val, r: RState)
    requires Follows(s, r) && ReadAs(NEW, OLD, [BYTE, BYTE], [VInt(a), VInt(b)], OLD["P"], [VInt(0)], s, v, r)
    ensures s.pos + 2 <= |s.data| && v == VObj([VInt(a)]) && r == Moved(s, 2)
  {
    EncodedNew(a, b);
    assert [BYTE, BYTE][1..] == [BYTE] && [VInt(a), VInt(b)][1..] == [VInt(b)];
    assert v.fields == [VInt(a)];
  }

  lemma ByteFits(env: Env, env': Env, opts: Options, depth: nat, a: byte)
    ensures FitsAll(env, env', opts, depth, [BYTE], [VInt(a)])
  {
    Pow256Small();
    assert [BYTE][1..] == [] && [VInt(a)][1..] == [];
  }

  lemma EncodedTwice()
    ensures var v := VList([VObj([VInt(1), VInt(2)]), VObj([VInt(3), VInt(4)])]);
            Enc(NEW, OLD_LIST, v) == [2, 0, 0, 0] + [2, 1, 2] + [2, 3, 4]
  {
    var p, q := VObj([VInt(1), VInt(2)]), VObj([VInt(3), VInt(4)]);
    assert LE(2, 4) == [2, 0, 0, 0];
    EncodedNew(1, 2);
    EncodedNew(3, 4);
    assert [p, q][1..] == [q] && [q][1..] == [];
    assert EncEach(NEW, Obj("P"), [q]) == [2, 3, 4];
    assert EncEach(NEW, Obj("P"), [p, q]) == [2, 1, 2] + [2, 3, 4];
  }

  lemma EncodedNew(a: byte, b: byte)
    ensures EncAll(NEW, [BYTE], [VInt(b)]) == [b] && EncAll(NEW, [BYTE, BYTE], [VInt(a), VInt(b)]) == [a, b]
    ensures Enc(NEW, Obj("P"), VObj([VInt(a), VInt(b)])) == [2, a, b] == LE(2, 1) + [a, b]
    ensures Enc(NEW, BYTE, VInt(b)) == [b]
  {
    assert [VInt(a), VInt(b)][1..] == [VInt(b)] && [BYTE, BYTE][1..] == [BYTE];
    assert LE(a, 1) == [a] && LE(b, 1) == [b] && LE(2, 1) == [2];
    assert EncAll(NEW, [BYTE], [VInt(b)]) == [b];
    assert EncAll(NEW, [BYTE, BYTE], [VInt(a), VInt(b)]) == [a] + [b];
  }

  /** Two elements, read one behind the other: the second starts at the surplus member of the first. */
  lemma ReadTwoOld(s: RState)
    requires s.Ok() && s.depth < s.opts.maxDepth && HasAt(s.data, s.pos, [2, 1, 2]) && HasAt(s.data, s.pos + 2, [2, 2, 3])
    ensures DecEach(OLD, Obj("P"), 2, s) == ([VObj([VInt(1)]), VObj([VInt(2)])], Moved(s, 4))
  {
    ReadOldVersion(1, 2, s);
    ReadOldVersion(2, 3, Moved(s, 2));
    EachOfTwo(OLD, Obj("P"), s, VObj([VInt(1)]), Moved(s, 2), VObj([VInt(2)]), Moved(s, 4));
  }

  lemma EachOfTwo(env: Env, e: Ty, s: RState, x: Val, s1: RState, y: Val, s2: RState)
    requires s.Ok() && Dec(env, e, Default(env, e), s) == (x, s1)
    requires s1.Ok() && Dec(env, e, Default(env, e), s1) == (y, s2)
    ensures DecEach(env, e, 2, s) == ([x, y], s2)
  {
    assert DecEach(env, e, 0, s2) == ([], s2);
    EachBehindFirst(env, e, 1, s1, y, s2, [], s2);
    EachBehindFirst(env, e, 2, s, x, s1, [y] + [], s2);
    assert [x] + ([y] + []) == [x, y];
  }

  /**
   Two objects of the longer version, read as a list of the shorter one: no error is recorded, and
   the second object is made of what was left of the first.
   */
  lemma ShrunkListMisread()
    ensures var v := VList([VObj([VInt(1), VInt(2)]), VObj([VInt(3), VInt(4)])]);
            var bs := Enc(NEW, OLD_LIST, v);
            var (r, s) := Dec(OLD, OLD_LIST, VList([]), RState(bs, Options(9, 9, 9), 0, 0, NoError));
            s.Ok() && r == VList([VObj([VInt(1)]), VObj([VInt(2)])])
  {
    EncodedTwice();
    var data: bytes := [2, 0, 0, 0] + [2, 1, 2] + [2, 3, 4];
    var s := RState(data, Options(9, 9, 9), 0, 0, NoError);
    assert LE(2, 4) == [2, 0, 0, 0] == data[0..4] && data[4..7] == [2, 1, 2] && data[6..9] == [2, 2, 3];
    ReadLengthAt(s, 2, 1);
    ReadTwoOld(Moved(s, 4));
    ItemsBehindLength(OLD, OLD_LIST, Obj("P"), 1, 2, s, Moved(s, 4), [VObj([VInt(1)]), VObj([VInt(2)])], Moved(s, 8));
  }
}
