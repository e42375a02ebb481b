/**
 The depth limit: how many levels of objects the reader enters, whatever the input, the classes and
 the outcome.
 */
module DecoderDepth {
  import opened Basics
  import opened Bytes
  import opened Wire
  import opened Decoder

  /** The levels of objects, one inside the other, whose members are read. */
  function Entered(env: Env, t: Ty, into: Val, s: RState): (n: nat)
    decreases s.Remaining(), t, 1
  {
    if IsLeaf(t) then 0
    else if IsCollection(t) then EnteredItems(env, t, ElemOf(t), s)
    else
      match t
      case Obj(id) => EnteredObject(env, t, ClassOf(env, id), FieldsOf(ClassOf(env, id), into), s)
      case Pair(a, b) =>
        var (x0, y0) := PartsOf(env, a, b, into);
        Max(Entered(env, a, x0, s), Entered(env, b, y0, Dec(env, a, x0, s).1))
      case Tuple(ts) =>
        var (h, s1) := ReadObjectHeader(s);
        if h.isNull then 0 else EnteredAll(env, ts, DefaultAll(env, ts), h.count, s1)
      case Opt(i) => EnteredOptional(env, i, s)
      case Ptr(i) => EnteredNullable(env, i, s)
      case Union(tags, alts) =>
        var (m, s1) := ReadUnionHeader(s);
        if m.NullUnion? then 0
        else
          var i := FindTag(tags, m.tag);
          if i >= |tags| || i >= |alts| then 0 else Entered(env, alts[i], Default(env, alts[i]), s1)
  }

  /** An object that is null, without members, too deep or announced without members is not entered. */
  function EnteredObject(env: Env, t: Ty, c: Class, fields: seq<Val>, s: RState): (n: nat)
    requires |fields| == |c.members|
    decreases s.Remaining(), t, 0
  {
    var (h, s1) := ReadObjectHeader(s);
    var s2 := s1.(depth := s1.depth + 1);
    if h.isNull || c.members == [] || s2.depth > s2.opts.maxDepth || h.count == 0 then 0
    else 1 + EnteredAll(env, c.members, fields, h.count, s2)
  }

  function EnteredItems(env: Env, t: Ty, e: Ty, s: RState): (n: nat)
    requires IsCollection(t)
    decreases s.Remaining(), t, 0
  {
    var (len, s1) := ReadCollectionLength(s, MinElementOf(t));
    if len <= 0 then 0 else EnteredEach(env, e, len, s1)
  }

  function EnteredNullable(env: Env, i: Ty, s: RState): (n: nat)
    decreases s.Remaining(), i, 2
  {
    if s.PeekIsNull() then 0 else Entered(env, i, Default(env, i), s)
  }

  function EnteredOptional(env: Env, i: Ty, s: RState): (n: nat)
    decreases s.Remaining(), i, 3
  {
    match NullEncoding(i)
    case NullableValue => 0
    case StringNull => 0
    case CollectionNull =>
      if s.Remaining() >= 4 && ReadInt32(s).0 == -1 then 0 else Entered(env, i, Default(env, i), s)
    case ObjectNull => EnteredNullable(env, i, s)
  }

  function EnteredEach(env: Env, e: Ty, n: nat, s: RState): (k: nat)
    decreases s.Remaining(), e, n + 4
  {
    if n == 0 || !s.Ok() then 0
    else
      var into := Default(env, e);
      Max(Entered(env, e, into, s), EnteredEach(env, e, n - 1, Dec(env, e, into, s).1))
  }

  function EnteredAll(env: Env, ts: seq<Ty>, ds: seq<Val>, count: nat, s: RState): (k: nat)
    requires |ds| == |ts|
    decreases s.Remaining(), ts, 0
  {
    if ts == [] || count == 0 then 0
    else Max(Entered(env, ts[0], ds[0], s), EnteredAll(env, ts[1..], ds[1..], count - 1, Dec(env, ts[0], ds[0], s).1))
  }

  /** How many more levels the reader may enter: none after an error. */
  function Allowed(s: RState): (n: nat)
  {
    if s.Ok() && s.depth < s.opts.maxDepth then s.opts.maxDepth - s.depth else 0
  }

  /** Reading something never allows more levels for what comes behind it. */
  lemma AllowedLater(s: RState, r: RState)
    requires Follows(s, r)
    ensures Allowed(r) <= Allowed(s)
  {
  }

  /**
   On any bytes, in any state, for any classes, and whether or not reading succeeds: no member is
   read at a depth beyond maxDepth.
   */
  lemma {:induction false} NeverTooDeep(env: Env, t: Ty, into: Val, s: RState)
    ensures Entered(env, t, into, s) <= Allowed(s)
    decreases s.Remaining(), t, 1
  {
    if IsLeaf(t) {
    } else if IsCollection(t) {
      ItemsNeverTooDeep(env, t, ElemOf(t), s);
    } else {
      match t
      case Obj(id) => ObjectNeverTooDeep(env, t, ClassOf(env, id), FieldsOf(ClassOf(env, id), into), s);
      case Pair(a, b) =>
        var (x0, y0) := PartsOf(env, a, b, into);
        var s1 := Dec(env, a, x0, s).1;
        AllowedLater(s, s1);
        NeverTooDeep(env, a, x0, s);
        NeverTooDeep(env, b, y0, s1);
      case Tuple(ts) =>
        var (h, s1) := ReadObjectHeader(s);
        AllowedLater(s, s1);
        AllNeverTooDeep(env, ts, DefaultAll(env, ts), h.count, s1);
      case Opt(i) => OptionalNeverTooDeep(env, i, s);
      case Ptr(i) => NullableNeverTooDeep(env, i, s);
      case Union(tags, alts) => UnionNeverTooDeep(env, tags, alts, into, s);
    }
  }

  lemma ItemsNeverTooDeep(env: Env, t: Ty, e: Ty, s: RState)
    requires IsCollection(t)
    ensures EnteredItems(env, t, e, s) <= Allowed(s)
    decreases s.Remaining(), t, 0
  {
    var (len, s1) := ReadCollectionLength(s, MinElementOf(t));
    AllowedLater(s, s1);
    if len > 0 {
      EachNeverTooDeep(env, e, len, s1);
    }
  }

  lemma ObjectNeverTooDeep(env: Env, t: Ty, c: Class, fields: seq<Val>, s: RState)
    requires |fields| == |c.members|
    ensures EnteredObject(env, t, c, fields, s) <= Allowed(s)
    decreases s.Remaining(), t, 0
  {
    var (h, s1) := ReadObjectHeader(s);
    var s2 := s1.(depth := s1.depth + 1);
    if !h.isNull && c.members != [] && s2.depth <= s2.opts.maxDepth && h.count != 0 {
      AllNeverTooDeep(env, c.members, fields, h.count, s2);
      assert 1 + Allowed(s2) == Allowed(s);
    }
  }

  lemma NullableNeverTooDeep(env: Env, i: Ty, s: RState)
    ensures EnteredNullable(env, i, s) <= Allowed(s)
    decreases s.Remaining(), i, 2
  {
    NeverTooDeep(env, i, Default(env, i), s);
  }

  lemma OptionalNeverTooDeep(env: Env, i: Ty, s: RState)
    ensures EnteredOptional(env, i, s) <= Allowed(s)
    decreases s.Remaining(), i, 3
  {
    NeverTooDeep(env, i, Default(env, i), s);
    NullableNeverTooDeep(env, i, s);
  }

  lemma UnionNeverTooDeep(env: Env, tags: seq<nat>, alts: seq<Ty>, into: Val, s: RState)
    ensures Entered(env, Union(tags, alts), into, s) <= Allowed(s)
    decreases s.Remaining(), Union(tags, alts), 0
  {
    var (m, s1) := ReadUnionHeader(s);
    AllowedLater(s, s1);
    if m.Tag? {
      var i := FindTag(tags, m.tag);
      if i < |tags| && i < |alts| {
        NeverTooDeep(env, alts[i], Default(env, alts[i]), s1);
      }
    }
  }

  lemma {:induction false} EachNeverTooDeep(env: Env, e: Ty, n: nat, s: RState)
    ensures EnteredEach(env, e, n, s) <= Allowed(s)
    decreases s.Remaining(), e, n + 4
  {
    if n > 0 && s.Ok() {
      var into := Default(env, e);
      var s1 := Dec(env, e, into, s).1;
      AllowedLater(s, s1);
      NeverTooDeep(env, e, into, s);
      EachNeverTooDeep(env, e, n - 1, s1);
    }
  }

  lemma {:induction false} AllNeverTooDeep(env: Env, ts: seq<Ty>, ds: seq<Val>, count: nat, s: RState)
    requires |ds| == |ts|
    ensures EnteredAll(env, ts, ds, count, s) <= Allowed(s)
    decreases s.Remaining(), ts, 0
  {
    if ts != [] && count > 0 {
      var s1 := Dec(env, ts[0], ds[0], s).1;
      AllowedLater(s, s1);
      NeverTooDeep(env, ts[0], ds[0], s);
      AllNeverTooDeep(env, ts[1..], ds[1..], count - 1, s1);
    }
  }

  // -- The limit is exact ------------------------------------------------------------------------

  const LINK := Ptr(Obj("Node"))

  /** A class whose only member points to another object of the class. */
  const CHAIN: Env := map["Node" := Class([LINK], [VNull])]

  /** `n` objects, one inside the other. */
  function ChainBytes(n: nat): (bs: bytes)
  {
    if n == 0 then [NULL_OBJECT] else [1] + ChainBytes(n - 1)
  }

  /**
   A chain is entered as far as the limit allows. It is read without an error exactly if it is no longer
   than that; a longer one is answered with LengthLimit.
   */
  lemma {:induction false} ChainRead(n: nat, s: RState)
    requires s.Ok() && HasAt(s.data, s.pos, ChainBytes(n))
    ensures Entered(CHAIN, LINK, VNull, s) == Min(n, Allowed(s))
    ensures Dec(CHAIN, LINK, VNull, s).1.error == if n <= Allowed(s) then NoError else LengthLimit
  {
    assert s.data[s.pos] == s.data[s.pos..s.pos + |ChainBytes(n)|][0];
    if n > 0 {
      HasAtSplit(s.data, s.pos, [1], ChainBytes(n - 1));
      var s1 := s.(pos := s.pos + 1);
      assert ReadObjectHeader(s) == (Header(1, false), s1);
      LinkRead(s, s1);
      if s.depth < s.opts.maxDepth {
        ChainRead(n - 1, s1.(depth := s.depth + 1));
      }
    }
  }

  lemma LinkRead(s: RState, s1: RState)
    requires s.Ok() && !s.PeekIsNull() && ReadObjectHeader(s) == (Header(1, false), s1) && s1 == s.(pos := s.pos + 1)
    ensures var s2 := s1.(depth := s.depth + 1);
            if s.depth < s.opts.maxDepth then
              && Entered(CHAIN, LINK, VNull, s) == 1 + Entered(CHAIN, LINK, VNull, s2)
              && Dec(CHAIN, LINK, VNull, s).1.error == Dec(CHAIN, LINK, VNull, s2).1.error
            else
              && Entered(CHAIN, LINK, VNull, s) == 0
              && Dec(CHAIN, LINK, VNull, s).1.error == LengthLimit
  {
    var s2, c := s1.(depth := s.depth + 1), CHAIN["Node"];
    var into := Default(CHAIN, Obj("Node"));
    assert into == VObj([VNull]) && FieldsOf(c, into) == [VNull];
    assert Dec(CHAIN, LINK, VNull, s).1 == Dec(CHAIN, Obj("Node"), into, s).1 == DecObject(CHAIN, Obj("Node"), c, [VNull], s).1;
    assert Entered(CHAIN, LINK, VNull, s) == Entered(CHAIN, Obj("Node"), into, s);
    assert Entered(CHAIN, Obj("Node"), into, s) == EnteredObject(CHAIN, Obj("Node"), c, [VNull], s);
    if s.depth < s.opts.maxDepth {
      OneMember(s2);
    }
  }

  lemma OneMember(s: RState)
    ensures DecAll(CHAIN, [LINK], [VNull], 1, s).1 == Dec(CHAIN, LINK, VNull, s).1
    ensures EnteredAll(CHAIN, [LINK], [VNull], 1, s) == Entered(CHAIN, LINK, VNull, s)
  {
    var s1 := Dec(CHAIN, LINK, VNull, s).1;
    assert [LINK][1..] == [] && [VNull][1..] == [];
    assert DecAll(CHAIN, [], [], 0, s1).1 == s1 && EnteredAll(CHAIN, [], [], 0, s1) == 0;
  }
}
