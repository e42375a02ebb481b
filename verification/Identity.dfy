/**
 When reading returns the written value itself, for a reader with the writer's own classes.
 */
module Identity {
  import opened Bytes
  import opened Transcode
  import opened Wire
  import opened Decoder
  import opened RoundTrip

  /** UTF-16 strings are well-formed, set elements and map keys are distinct. */
  predicate Faithful(env: Env, t: Ty, v: Val)
    decreases v
  {
    if IsLeaf(t) then v.VStr16? ==> WellFormedUtf16(v.utf16)
    else if IsCollection(t) then
      v.VList? ==>
        && FaithfulEach(env, ElemOf(t), v.elems)
        && (t.Set? || t.Map? ==> UniqueKeys(t.Map?, v.elems))
    else
      match (t, v)
      case (Obj(id), VObj(fields)) => FaithfulAll(env, ClassOf(env, id).members, fields)
      case (Pair(a, b), VPair(x, y)) => Faithful(env, a, x) && Faithful(env, b, y)
      case (Tuple(ts), VTuple(vs)) => FaithfulAll(env, ts, vs)
      case (Opt(i), VSome(x)) => Faithful(env, i, x)
      case (Ptr(i), VSome(x)) => Faithful(env, i, x)
      case (Union(tags, alts), VUnion(tag, x)) =>
        var i := FindTag(tags, tag);
        i < |alts| ==> Faithful(env, alts[i], x)
      case _ => true
  }

  predicate FaithfulEach(env: Env, e: Ty, vs: seq<Val>)
    decreases vs
  {
    vs == [] || (Faithful(env, e, vs[0]) && FaithfulEach(env, e, vs[1..]))
  }

  predicate FaithfulAll(env: Env, ts: seq<Ty>, vs: seq<Val>)
    decreases vs
  {
    ts == [] || vs == [] || (Faithful(env, ts[0], vs[0]) && FaithfulAll(env, ts[1..], vs[1..]))
  }

  lemma {:induction false} InsertAllGrows(isMap: bool, entries: seq<Val>, vs: seq<Val>)
    ensures var r := InsertAll(isMap, entries, vs);
            |r| <= |entries| + |vs| && (|r| == |entries| + |vs| ==> r == entries + vs)
    decreases |vs|
  {
    if vs == [] {
      assert entries + vs == entries;
    } else {
      InsertAllGrows(isMap, Inserted(isMap, entries, vs[0]), vs[1..]);
      assert entries + [vs[0]] + vs[1..] == entries + vs;
    }
  }

  lemma RepeatedKey(isMap: bool, entries: seq<Val>, vs: seq<Val>)
    requires vs != [] && HasKey(isMap, entries, KeyOf(isMap, vs[0]))
    ensures !UniqueKeys(isMap, entries + vs)
  {
    var i :| 0 <= i < |entries| && KeyOf(isMap, entries[i]) == KeyOf(isMap, vs[0]);
    assert (entries + vs)[i] == entries[i] && (entries + vs)[|entries|] == vs[0];
  }

  /** Nothing is dropped when all keys are distinct. */
  lemma {:induction false} InsertAllDistinct(isMap: bool, entries: seq<Val>, vs: seq<Val>)
    requires UniqueKeys(isMap, entries + vs)
    ensures InsertAll(isMap, entries, vs) == entries + vs
    decreases |vs|
  {
    if vs == [] {
      assert entries + vs == entries;
    } else {
      if HasKey(isMap, entries, KeyOf(isMap, vs[0])) {
        RepeatedKey(isMap, entries, vs);
      }
      assert entries + [vs[0]] + vs[1..] == entries + vs;
      InsertAllDistinct(isMap, entries + [vs[0]], vs[1..]);
    }
  }

  lemma CollectedIdentity(env: Env, t: Ty, vs: seq<Val>, rs: seq<Val>)
    requires IsCollection(t) && |rs| == |vs| && (t.Arr? ==> |vs| == t.n)
    ensures Collect(env, t, rs) == VList(vs) <==> rs == vs && (t.Set? || t.Map? ==> UniqueKeys(t.Map?, vs))
  {
    if t.Set? || t.Map? {
      assert [] + rs == rs;
      InsertAllGrows(t.Map?, [], rs);
      if UniqueKeys(t.Map?, rs) {
        InsertAllDistinct(t.Map?, [], rs);
      }
    }
  }

  /** The received value is the written one exactly if the value is faithful. */
  lemma {:induction false} ReceivedIdentity(env: Env, opts: Options, depth: nat, t: Ty, into: Val, v: Val)
    requires Fits(env, env, opts, depth, t, v)
    ensures Received(env, t, into, v) == v <==> Faithful(env, t, v)
    decreases v, 1
  {
    if IsLeaf(t) {
      if v.VStr16? {
        RepairIdentity(v.utf16);
      }
    } else if IsCollection(t) {
      EachIdentity(env, opts, depth, ElemOf(t), v.elems);
      CollectedIdentity(env, t, v.elems, ReceivedEach(env, ElemOf(t), v.elems));
    } else {
      match (t, v)
      case (Obj(id), VObj(fields)) =>
        var c := ClassOf(env, id);
        AllIdentity(env, opts, depth + 1, c.members, FieldsOf(c, into), fields);
      case (Pair(a, b), VPair(x, y)) =>
        var (x0, y0) := PartsOf(env, a, b, into);
        ReceivedIdentity(env, opts, depth, a, x0, x);
        ReceivedIdentity(env, opts, depth, b, y0, y);
      case (Tuple(ts), VTuple(vs)) => AllIdentity(env, opts, depth, ts, DefaultAll(env, ts), vs);
      case (Opt(i), VSome(x)) => ReceivedIdentity(env, opts, depth, i, Default(env, i), x);
      case (Ptr(i), VSome(x)) => ReceivedIdentity(env, opts, depth, i, Default(env, i), x);
      case (Union(tags, alts), VUnion(tag, x)) =>
        var a := alts[FindTag(tags, tag)];
        ReceivedIdentity(env, opts, depth, a, Default(env, a), x);
      case _ =>
    }
  }

  lemma {:induction false} EachIdentity(env: Env, opts: Options, depth: nat, e: Ty, vs: seq<Val>)
    requires FitsEach(env, env, opts, depth, e, vs)
    ensures ReceivedEach(env, e, vs) == vs <==> FaithfulEach(env, e, vs)
    decreases vs, 0
  {
    if vs != [] {
      ReceivedIdentity(env, opts, depth, e, Default(env, e), vs[0]);
      EachIdentity(env, opts, depth, e, vs[1..]);
      ConsEqual(vs, Received(env, e, Default(env, e), vs[0]), ReceivedEach(env, e, vs[1..]));
    }
  }

  lemma {:induction false} AllIdentity(env: Env, opts: Options, depth: nat, ts: seq<Ty>, ds: seq<Val>, vs: seq<Val>)
    requires |ds| == |ts| && FitsAll(env, env, opts, depth, ts, vs)
    ensures ReceivedAll(env, ts, ds, vs) == vs <==> FaithfulAll(env, ts, vs)
    decreases vs, 0
  {
    if vs != [] {
      ReceivedIdentity(env, opts, depth, ts[0], ds[0], vs[0]);
      AllIdentity(env, opts, depth, ts[1..], ds[1..], vs[1..]);
      ConsEqual(vs, Received(env, ts[0], ds[0], vs[0]), ReceivedAll(env, ts[1..], ds[1..], vs[1..]));
    }
  }

  lemma ConsEqual(vs: seq<Val>, head: Val, tail: seq<Val>)
    requires vs != []
    ensures [head] + tail == vs <==> head == vs[0] && tail == vs[1..]
  {
    var s := [head] + tail;
    assert s[0] == head && s[1..] == tail;
    assert vs == [vs[0]] + vs[1..];
  }

  /** A fresh reader on `data`. */
  function Start(data: bytes, opts: Options): (s: RState)
  {
    RState(data, opts, 0, 0, NoError)
  }

  /**
   Deserialize(Serialize(v)), with any bytes behind the encoding: no error, exactly the encoding is
   consumed, and the value is the written one if and only if it is faithful.
   */
  lemma ExactRoundTrip(env: Env, t: Ty, into: Val, v: Val, opts: Options, suffix: bytes)
    requires WfEnv(env) && WfTy(env, t) && Fits(env, env, opts, 0, t, v)
    ensures var (r, s) := Dec(env, t, into, Start(Enc(env, t, v) + suffix, opts));
            s.Ok() && s.data[s.pos..] == suffix && s.depth == 0 && (r == v <==> Faithful(env, t, v))
  {
    var bs := Enc(env, t, v);
    var s := Start(bs + suffix, opts);
    assert s.data[0..|bs|] == bs && s.data[|bs|..] == suffix;
    DecOfEnc(env, env, t, into, v, s);
    ReceivedIdentity(env, opts, 0, t, into, v);
  }
}
