/**
 One step of the reader at a time: what reading gives, from what reading its first part and its rest
 gives. The proofs about the reader call these instead of unfolding it.
 */
module DecoderSteps {
  import opened Wire
  import opened Decoder

  lemma EachBehindFirst(env: Env, e: Ty, n: nat, s: RState, v: Val, s1: RState, vs: seq<Val>, r: RState)
    requires n > 0 && s.Ok() && Dec(env, e, Default(env, e), s) == (v, s1) && DecEach(env, e, n - 1, s1) == (vs, r)
    ensures DecEach(env, e, n, s) == ([v] + vs, r)
  {
  }

  lemma AllBehindFirst(env: Env, ts: seq<Ty>, ds: seq<Val>, n: nat, s: RState, v: Val, s1: RState, vs: seq<Val>, r: RState)
    requires n > 0 && ts != [] && |ds| == |ts|
    requires Dec(env, ts[0], ds[0], s) == (v, s1) && DecAll(env, ts[1..], ds[1..], n - 1, s1) == (vs, r)
    ensures DecAll(env, ts, ds, n, s) == ([v] + vs, r)
  {
  }

  lemma ItemsBehindLength(env: Env, t: Ty, e: Ty, min: nat, n: nat, s: RState, s1: RState, rs: seq<Val>, r: RState)
    requires ReadCollectionLength(s, min) == (n, s1) && DecEach(env, e, n, s1) == (rs, r)
    ensures DecItems(env, t, e, min, s) == (rs, r)
  {
  }

  lemma CollectionBehindItems(env: Env, t: Ty, into: Val, s: RState, vs: seq<Val>, r: RState)
    requires IsCollection(t) && DecItems(env, t, ElemOf(t), MinElementOf(t), s) == (vs, r)
    ensures Dec(env, t, into, s) == (Collect(env, t, vs), r)
  {
  }

  lemma PairBehindFirst(env: Env, a: Ty, b: Ty, into: Val, s: RState, s1: RState, x: Val, y: Val, r: RState)
    requires Dec(env, a, PartsOf(env, a, b, into).0, s) == (x, s1)
    requires Dec(env, b, PartsOf(env, a, b, into).1, s1) == (y, r)
    ensures Dec(env, Pair(a, b), into, s) == (VPair(x, y), r)
  {
  }

  lemma TupleBehindHeader(env: Env, ts: seq<Ty>, into: Val, s: RState, h: Header, s1: RState, vs: seq<Val>, r: RState)
    requires ReadObjectHeader(s) == (h, s1) && !h.isNull && DecAll(env, ts, DefaultAll(env, ts), h.count, s1) == (vs, r)
    ensures Dec(env, Tuple(ts), into, s) == (VTuple(vs), r)
  {
  }

  lemma ObjectBehindHeader(env: Env, t: Ty, c: Class, ds: seq<Val>, s: RState, h: Header, s1: RState, vs: seq<Val>, r: RState)
    requires ReadObjectHeader(s) == (h, s1) && !h.isNull && c.members != [] && |ds| == |c.members|
    requires s1.depth < s1.opts.maxDepth && DecAll(env, c.members, ds, h.count, s1.(depth := s1.depth + 1)) == (vs, r)
    ensures DecObject(env, t, c, ds, s) == (VObj(vs), Leave(r))
  {
    if h.count == 0 {
      NoMembersRead(env, c.members, ds, s1.(depth := s1.depth + 1));
    }
  }

  lemma NoMembersRead(env: Env, ts: seq<Ty>, ds: seq<Val>, s: RState)
    requires |ds| == |ts|
    ensures DecAll(env, ts, ds, 0, s) == (ds, s)
  {
  }

  lemma UnionBehindHeader(env: Env, tags: seq<nat>, alts: seq<Ty>, into: Val, tag: nat, s: RState, s1: RState,
                          x: Val, r: RState)
    requires ReadUnionHeader(s) == (Tag(tag), s1) && FindTag(tags, tag) < |tags| && FindTag(tags, tag) < |alts|
    requires var i := FindTag(tags, tag); Dec(env, alts[i], Default(env, alts[i]), s1) == (x, r)
    ensures Dec(env, Union(tags, alts), into, s) == (VUnion(tag, x), r)
  {
  }

  lemma {:induction false} InsertLast(isMap: bool, entries: seq<Val>, vs: seq<Val>, v: Val)
    ensures InsertAll(isMap, entries, vs + [v]) == Inserted(isMap, InsertAll(isMap, entries, vs), v)
    decreases |vs|
  {
    if vs == [] {
      assert (vs + [v])[1..] == [];
    } else {
      assert (vs + [v])[1..] == vs[1..] + [v];
      InsertLast(isMap, Inserted(isMap, entries, vs[0]), vs[1..], v);
    }
  }
}
