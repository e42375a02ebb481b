/**
 The input it takes to make the reader store elements, for any classes and whatever their default
 objects contain: what is counted is the elements that are read, not those a value holds.
 */
module DecoderCost {
  import opened Wire
  import opened Decoder
  import opened DecoderSteps

  /** The elements that reading a `t` puts into growable collections, at any depth. */
  function Stored(env: Env, t: Ty, into: Val, s: RState): (n: nat)
    decreases s.Remaining(), t, 1
  {
    if IsLeaf(t) then 0
    else if IsCollection(t) then StoredItems(env, t, ElemOf(t), s)
    else
      match t
      case Obj(id) => StoredObject(env, t, ClassOf(env, id), FieldsOf(ClassOf(env, id), into), s)
      case Pair(a, b) =>
        var (x0, y0) := PartsOf(env, a, b, into);
        Stored(env, a, x0, s) + Stored(env, b, y0, Dec(env, a, x0, s).1)
      case Tuple(ts) =>
        var (h, s1) := ReadObjectHeader(s);
        if h.isNull then 0 else StoredAll(env, ts, DefaultAll(env, ts), h.count, s1)
      case Opt(i) => StoredOptional(env, i, s)
      case Ptr(i) => StoredNullable(env, i, s)
      case Union(tags, alts) =>
        var (m, s1) := ReadUnionHeader(s);
        if m.NullUnion? then 0
        else
          var i := FindTag(tags, m.tag);
          if i >= |tags| || i >= |alts| then 0 else Stored(env, alts[i], Default(env, alts[i]), s1)
  }

  function StoredObject(env: Env, ghost t: Ty, c: Class, fields: seq<Val>, s: RState): (n: nat)
    requires |fields| == |c.members|
    decreases s.Remaining(), t, 0
  {
    var (h, s1) := ReadObjectHeader(s);
    var s2 := s1.(depth := s1.depth + 1);
    if h.isNull || c.members == [] || s2.depth > s2.opts.maxDepth || h.count == 0 then 0
    else StoredAll(env, c.members, fields, h.count, s2)
  }

  function StoredItems(env: Env, t: Ty, e: Ty, s: RState): (n: nat)
    requires IsCollection(t)
    decreases s.Remaining(), t, 0
  {
    var (len, s1) := ReadCollectionLength(s, MinElementOf(t));
    if len <= 0 then 0
    else (if t.Arr? then 0 else |DecEach(env, e, len, s1).0|) + StoredEach(env, e, len, s1)
  }

  function StoredNullable(env: Env, i: Ty, s: RState): (n: nat)
    decreases s.Remaining(), i, 2
  {
    if s.PeekIsNull() then 0 else Stored(env, i, Default(env, i), s)
  }

  function StoredOptional(env: Env, i: Ty, s: RState): (n: nat)
    decreases s.Remaining(), i, 3
  {
    match NullEncoding(i)
    case NullableValue => 0
    case StringNull => 0
    case CollectionNull =>
      if s.Remaining() >= 4 && ReadInt32(s).0 == -1 then 0 else Stored(env, i, Default(env, i), s)
    case ObjectNull => StoredNullable(env, i, s)
  }

  function StoredEach(env: Env, e: Ty, n: nat, s: RState): (k: nat)
    decreases s.Remaining(), e, n + 4
  {
    if n == 0 || !s.Ok() then 0
    else
      var into := Default(env, e);
      Stored(env, e, into, s) + StoredEach(env, e, n - 1, Dec(env, e, into, s).1)
  }

  function StoredAll(env: Env, ts: seq<Ty>, ds: seq<Val>, count: nat, s: RState): (k: nat)
    requires |ds| == |ts|
    decreases s.Remaining(), ts, 0
  {
    if ts == [] || count == 0 then 0
    else Stored(env, ts[0], ds[0], s) + StoredAll(env, ts[1..], ds[1..], count - 1, Dec(env, ts[0], ds[0], s).1)
  }

  // -- The cost --------------------------------------------------------------------------------

  /** From `s` to `r` the reader consumed at least `n` bytes, if there was no error. */
  predicate Consumed(s: RState, r: RState, n: nat)
  {
    r.Ok() ==> s.pos + n <= r.pos
  }

  /** Whatever the input: success consumed at least a byte, and one more for every element stored. */
  lemma {:induction false} Costs(env: Env, t: Ty, into: Val, s: RState)
    requires WfEnv(env) && WfTy(env, t)
    ensures Consumed(s, Dec(env, t, into, s).1, 1 + Stored(env, t, into, s))
    decreases s.Remaining(), t, 1
  {
    if IsLeaf(t) {
    } else if IsCollection(t) {
      ItemsCost(env, t, into, s);
    } else {
      match t
      case Obj(id) => ObjectCost(env, id, into, s);
      case Pair(a, b) => PairCost(env, a, b, into, s);
      case Tuple(ts) => TupleCost(env, ts, into, s);
      case Opt(i) => OptionalCost(env, i, s);
      case Ptr(i) => NullableCost(env, i, s);
      case Union(tags, alts) => UnionCost(env, tags, alts, into, s);
    }
  }

  lemma ItemsCost(env: Env, t: Ty, into: Val, s: RState)
    requires WfEnv(env) && WfTy(env, t) && IsCollection(t)
    ensures Consumed(s, Dec(env, t, into, s).1, 1 + Stored(env, t, into, s))
    decreases s.Remaining(), t, 0
  {
    var e := ElemOf(t);
    var (len, s1) := ReadCollectionLength(s, MinElementOf(t));
    if len > 0 {
      EachCost(env, e, len, s1);
      var (vs, r) := DecEach(env, e, len, s1);
      ItemsBehindLength(env, t, e, MinElementOf(t), len, s, s1, vs, r);
      CollectionBehindItems(env, t, into, s, vs, r);
      ItemsSum(env, t, into, s, len, s1, vs);
    } else {
      CollectionBehindItems(env, t, into, s, [], s1);
      assert Stored(env, t, into, s) == StoredItems(env, t, e, s) == 0;
    }
  }

  lemma ItemsSum(env: Env, t: Ty, into: Val, s: RState, len: nat, s1: RState, vs: seq<Val>)
    requires IsCollection(t) && ReadCollectionLength(s, MinElementOf(t)) == (len, s1) && len > 0
    requires vs == DecEach(env, ElemOf(t), len, s1).0
    ensures Stored(env, t, into, s) == (if t.Arr? then 0 else |vs|) + StoredEach(env, ElemOf(t), len, s1)
  {
    assert Stored(env, t, into, s) == StoredItems(env, t, ElemOf(t), s);
  }

  lemma PairCost(env: Env, a: Ty, b: Ty, into: Val, s: RState)
    requires WfEnv(env) && WfTy(env, a) && WfTy(env, b)
    ensures Consumed(s, Dec(env, Pair(a, b), into, s).1, 1 + Stored(env, Pair(a, b), into, s))
    decreases s.Remaining(), Pair(a, b), 0
  {
    var (x0, y0) := PartsOf(env, a, b, into);
    var s1 := Dec(env, a, x0, s).1;
    Costs(env, a, x0, s);
    Costs(env, b, y0, s1);
    PairSum(env, a, b, into, s, x0, y0, s1, Stored(env, a, x0, s), Stored(env, b, y0, s1));
  }

  lemma PairSum(env: Env, a: Ty, b: Ty, into: Val, s: RState, x0: Val, y0: Val, s1: RState, m: nat, n: nat)
    requires (x0, y0) == PartsOf(env, a, b, into) && s1 == Dec(env, a, x0, s).1
    requires m == Stored(env, a, x0, s) && n == Stored(env, b, y0, s1)
    requires Consumed(s, s1, 1 + m) && Consumed(s1, Dec(env, b, y0, s1).1, 1 + n)
    ensures Consumed(s, Dec(env, Pair(a, b), into, s).1, 1 + Stored(env, Pair(a, b), into, s))
  {
    assert Dec(env, Pair(a, b), into, s).1 == Dec(env, b, y0, s1).1;
    assert Stored(env, Pair(a, b), into, s) == m + n;
  }

  lemma TupleCost(env: Env, ts: seq<Ty>, into: Val, s: RState)
    requires WfEnv(env) && WfTy(env, Tuple(ts))
    ensures Consumed(s, Dec(env, Tuple(ts), into, s).1, 1 + Stored(env, Tuple(ts), into, s))
    decreases s.Remaining(), Tuple(ts), 0
  {
    var (h, s1) := ReadObjectHeader(s);
    if !h.isNull {
      AllCost(env, ts, DefaultAll(env, ts), h.count, s1);
      assert Dec(env, Tuple(ts), into, s).1 == DecAll(env, ts, DefaultAll(env, ts), h.count, s1).1;
    }
  }

  lemma ObjectCost(env: Env, id: string, into: Val, s: RState)
    requires WfEnv(env) && id in env
    ensures Consumed(s, Dec(env, Obj(id), into, s).1, 1 + Stored(env, Obj(id), into, s))
    decreases s.Remaining(), Obj(id), 0
  {
    var c := env[id];
    var ds := FieldsOf(c, into);
    var (h, s1) := ReadObjectHeader(s);
    var s2 := s1.(depth := s1.depth + 1);
    if !h.isNull && c.members != [] && s2.depth <= s2.opts.maxDepth && h.count != 0 {
      AllCost(env, c.members, ds, h.count, s2);
      var (vs, r) := DecAll(env, c.members, ds, h.count, s2);
      ObjectBehindHeader(env, Obj(id), c, ds, s, h, s1, vs, r);
    }
  }

  lemma NullableCost(env: Env, i: Ty, s: RState)
    requires WfEnv(env) && WfTy(env, i)
    ensures Consumed(s, DecNullable(env, i, s).1, 1 + StoredNullable(env, i, s))
    decreases s.Remaining(), i, 2
  {
    if !s.PeekIsNull() {
      Costs(env, i, Default(env, i), s);
    }
  }

  lemma OptionalCost(env: Env, i: Ty, s: RState)
    requires WfEnv(env) && WfTy(env, i)
    ensures Consumed(s, DecOptional(env, i, s).1, 1 + StoredOptional(env, i, s))
    decreases s.Remaining(), i, 3
  {
    match NullEncoding(i)
    case NullableValue =>
    case StringNull =>
    case CollectionNull => Costs(env, i, Default(env, i), s);
    case ObjectNull => NullableCost(env, i, s);
  }

  lemma UnionCost(env: Env, tags: seq<nat>, alts: seq<Ty>, into: Val, s: RState)
    requires WfEnv(env) && WfTy(env, Union(tags, alts))
    ensures Consumed(s, Dec(env, Union(tags, alts), into, s).1, 1 + Stored(env, Union(tags, alts), into, s))
    decreases s.Remaining(), Union(tags, alts), 0
  {
    var (m, s1) := ReadUnionHeader(s);
    if m.Tag? {
      var i := FindTag(tags, m.tag);
      if i < |alts| && i < |tags| {
        assert alts[i] in alts;
        Costs(env, alts[i], Default(env, alts[i]), s1);
      }
    }
  }

  lemma {:induction false} EachCost(env: Env, e: Ty, n: nat, s: RState)
    requires WfEnv(env) && WfTy(env, e)
    ensures var (vs, r) := DecEach(env, e, n, s); Consumed(s, r, |vs| + StoredEach(env, e, n, s))
    decreases s.Remaining(), e, n + 4
  {
    if n > 0 && s.Ok() {
      var into := Default(env, e);
      Costs(env, e, into, s);
      var (v, s1) := Dec(env, e, into, s);
      EachCost(env, e, n - 1, s1);
      var (vs, r) := DecEach(env, e, n - 1, s1);
      EachBehindFirst(env, e, n, s, v, s1, vs, r);
    }
  }

  lemma {:induction false} AllCost(env: Env, ts: seq<Ty>, ds: seq<Val>, count: nat, s: RState)
    requires WfEnv(env) && WfAll(env, ts) && |ds| == |ts|
    ensures Consumed(s, DecAll(env, ts, ds, count, s).1, StoredAll(env, ts, ds, count, s))
    decreases s.Remaining(), ts, 0
  {
    if ts != [] && count > 0 {
      assert ts[0] in ts;
      Costs(env, ts[0], ds[0], s);
      var (v, s1) := Dec(env, ts[0], ds[0], s);
      AllCost(env, ts[1..], ds[1..], count - 1, s1);
      var (vs, r) := DecAll(env, ts[1..], ds[1..], count - 1, s1);
      AllBehindFirst(env, ts, ds, count, s, v, s1, vs, r);
      var m, n := Stored(env, ts[0], ds[0], s), StoredAll(env, ts[1..], ds[1..], count - 1, s1);
      StoredAllSum(env, ts, ds, count, s, s1, m, n);
      ConsumedBoth(s, s1, r, 1 + m, n);
    }
  }

  lemma ConsumedBoth(s: RState, s1: RState, r: RState, m: nat, n: nat)
    requires Consumed(s, s1, m) && Consumed(s1, r, n) && Follows(s1, r)
    ensures Consumed(s, r, m + n)
  {
  }

  lemma StoredAllSum(env: Env, ts: seq<Ty>, ds: seq<Val>, count: nat, s: RState, s1: RState, m: nat, n: nat)
    requires ts != [] && count > 0 && |ds| == |ts| && s1 == Dec(env, ts[0], ds[0], s).1
    requires m == Stored(env, ts[0], ds[0], s) && n == StoredAll(env, ts[1..], ds[1..], count - 1, s1)
    ensures StoredAll(env, ts, ds, count, s) == m + n
  {
  }

  /** A growable collection holds no more than was stored, since repeated keys are dropped. */
  lemma HeldIsStored(env: Env, t: Ty, into: Val, s: RState)
    requires IsCollection(t) && !t.Arr?
    ensures var v := Dec(env, t, into, s).0; v.VList? && |v.elems| <= Stored(env, t, into, s)
  {
    var (vs, r) := DecItems(env, t, ElemOf(t), MinElementOf(t), s);
    InsertAllShrinks(t.Map?, [], vs);
  }

  lemma {:induction false} InsertAllShrinks(isMap: bool, entries: seq<Val>, vs: seq<Val>)
    ensures |InsertAll(isMap, entries, vs)| <= |entries| + |vs|
    decreases |vs|
  {
    if vs != [] {
      InsertAllShrinks(isMap, Inserted(isMap, entries, vs[0]), vs[1..]);
    }
  }
}
