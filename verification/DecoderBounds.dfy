/**
 What untrusted input can make the reader build: a value holds no more elements than were read and
 nests no deeper than was entered, apart from what default-constructed objects bring along.
 */
module DecoderBounds {
  import opened Basics
  import opened Wire
  import opened Decoder
  import opened DecoderSteps
  import opened DecoderCost
  import opened DecoderDepth

  /** The number of elements in the growable collections of a value. */
  function Placed(env: Env, t: Ty, v: Val): (n: nat)
    decreases v
  {
    if IsLeaf(t) then 0
    else if IsCollection(t) then
      if v.VList? then (if t.Arr? then 0 else |v.elems|) + PlacedEach(env, ElemOf(t), v.elems) else 0
    else
      match (t, v)
      case (Obj(id), VObj(fields)) => PlacedAll(env, ClassOf(env, id).members, fields)
      case (Pair(a, b), VPair(x, y)) => Placed(env, a, x) + Placed(env, b, y)
      case (Tuple(ts), VTuple(vs)) => PlacedAll(env, ts, vs)
      case (Opt(i), VSome(x)) => Placed(env, i, x)
      case (Ptr(i), VSome(x)) => Placed(env, i, x)
      case (Union(tags, alts), VUnion(tag, x)) =>
        var i := FindTag(tags, tag);
        if i < |alts| then Placed(env, alts[i], x) else 0
      case _ => 0
  }

  function PlacedEach(env: Env, e: Ty, vs: seq<Val>): (n: nat)
    decreases vs
  {
    if vs == [] then 0 else Placed(env, e, vs[0]) + PlacedEach(env, e, vs[1..])
  }

  function PlacedAll(env: Env, ts: seq<Ty>, vs: seq<Val>): (n: nat)
    decreases vs
  {
    if ts == [] || vs == [] then 0 else Placed(env, ts[0], vs[0]) + PlacedAll(env, ts[1..], vs[1..])
  }

  /** How deep objects with members are nested in one another. */
  function Nesting(v: Val): (n: nat)
  {
    match v
    case VObj(fields) => if fields == [] then 0 else 1 + NestingAll(fields)
    case VList(elems) => NestingAll(elems)
    case VPair(x, y) => Max(Nesting(x), Nesting(y))
    case VTuple(items) => NestingAll(items)
    case VSome(x) => Nesting(x)
    case VUnion(_, x) => Nesting(x)
    case _ => 0
  }

  function NestingAll(vs: seq<Val>): (n: nat)
  {
    if vs == [] then 0 else Max(Nesting(vs[0]), NestingAll(vs[1..]))
  }

  // -- Defaults ------------------------------------------------------------------------------

  /** Default-constructed objects hold no elements. */
  ghost predicate Plain(env: Env)
  {
    forall id | id in env :: PlacedAll(env, env[id].members, env[id].defaults) == 0
  }

  /** Default-constructed objects nest at most `d` deep. */
  ghost predicate Shallow(env: Env, d: nat)
  {
    forall id | id in env :: Nesting(VObj(env[id].defaults)) <= d
  }

  /** The two things that are claimed of values, each under a condition on the defaults. */
  datatype Claim = Elements | Levels(d: nat)

  ghost predicate Given(env: Env, c: Claim)
  {
    match c case Elements => Plain(env) case Levels(d) => Shallow(env, d)
  }

  /** The value has at most `n` elements, or nests at most `m` deeper than the defaults do. */
  predicate Holds(env: Env, c: Claim, t: Ty, v: Val, n: nat, m: nat)
  {
    match c case Elements => Placed(env, t, v) <= n case Levels(d) => Nesting(v) <= m + d
  }

  predicate EachHolds(env: Env, c: Claim, e: Ty, vs: seq<Val>, n: nat, m: nat)
  {
    match c case Elements => PlacedEach(env, e, vs) <= n case Levels(d) => NestingAll(vs) <= m + d
  }

  predicate AllHold(env: Env, c: Claim, ts: seq<Ty>, vs: seq<Val>, n: nat, m: nat)
  {
    match c case Elements => PlacedAll(env, ts, vs) <= n case Levels(d) => NestingAll(vs) <= m + d
  }

  lemma {:induction false} CopiesHold(env: Env, e: Ty, v: Val, n: nat)
    ensures PlacedEach(env, e, Copies(v, n)) == n * Placed(env, e, v)
    ensures NestingAll(Copies(v, n)) <= Nesting(v)
  {
    if n > 0 {
      assert Copies(v, n)[1..] == Copies(v, n - 1);
      CopiesHold(env, e, v, n - 1);
      NextMultiple(n, Placed(env, e, v));
    }
  }

  lemma NextMultiple(n: nat, p: nat)
    requires n > 0
    ensures n * p == p + (n - 1) * p
  {
  }

  lemma {:induction false} DefaultHolds(env: Env, c: Claim, t: Ty)
    requires Given(env, c)
    ensures Holds(env, c, t, Default(env, t), 0, 0)
    decreases t
  {
    match t
    case Pair(a, b) =>
      DefaultHolds(env, c, a);
      DefaultHolds(env, c, b);
      BothHold(env, c, a, b, Default(env, a), Default(env, b), 0, 0, 0, 0);
    case Arr(e, n) =>
      DefaultHolds(env, c, e);
      ArrayDefaultHolds(env, c, e, n);
    case Tuple(ts) => TupleDefaultHolds(env, c, ts);
    case Union(tags, alts) =>
      if tags != [] && alts != [] {
        DefaultHolds(env, c, alts[0]);
        assert FindTag(tags, tags[0]) == 0;
        AlternativeHolds(env, c, tags, alts, tags[0], Default(env, alts[0]), 0, 0);
      }
    case _ => PlainDefaultHolds(env, c, t);
  }

  lemma PlainDefaultHolds(env: Env, c: Claim, t: Ty)
    requires Given(env, c) && !t.Pair? && !t.Arr? && !t.Tuple? && !t.Union?
    ensures Holds(env, c, t, Default(env, t), 0, 0)
  {
  }

  lemma ArrayDefaultHolds(env: Env, c: Claim, e: Ty, n: nat)
    requires Holds(env, c, e, Default(env, e), 0, 0)
    ensures Holds(env, c, Arr(e, n), Default(env, Arr(e, n)), 0, 0)
  {
    CopiesHold(env, e, Default(env, e), n);
    assert n * 0 == 0;
  }

  lemma TupleDefaultHolds(env: Env, c: Claim, ts: seq<Ty>)
    requires Given(env, c)
    ensures Holds(env, c, Tuple(ts), Default(env, Tuple(ts)), 0, 0)
    decreases ts, 1
  {
    DefaultAllHolds(env, c, ts);
  }

  lemma {:induction false} DefaultAllHolds(env: Env, c: Claim, ts: seq<Ty>)
    requires Given(env, c)
    ensures AllHold(env, c, ts, DefaultAll(env, ts), 0, 0)
    decreases ts, 0
  {
    if ts != [] {
      DefaultHolds(env, c, ts[0]);
      DefaultAllHolds(env, c, ts[1..]);
    }
  }

  // -- Containers ----------------------------------------------------------------------------

  lemma {:induction false} Append(env: Env, e: Ty, vs: seq<Val>, v: Val)
    ensures PlacedEach(env, e, vs + [v]) == PlacedEach(env, e, vs) + Placed(env, e, v)
    ensures NestingAll(vs + [v]) == Max(NestingAll(vs), Nesting(v))
  {
    if vs == [] {
      assert [v][1..] == [];
    } else {
      assert (vs + [v])[1..] == vs[1..] + [v];
      Append(env, e, vs[1..], v);
    }
  }

  /** Dropping repeated keys does not add anything. */
  lemma {:induction false} InsertAllBounded(env: Env, e: Ty, isMap: bool, entries: seq<Val>, vs: seq<Val>)
    ensures var r := InsertAll(isMap, entries, vs);
            && |r| + PlacedEach(env, e, r) <= |entries| + PlacedEach(env, e, entries) + |vs| + PlacedEach(env, e, vs)
            && NestingAll(r) <= Max(NestingAll(entries), NestingAll(vs))
    decreases |vs|
  {
    if vs != [] {
      Append(env, e, entries, vs[0]);
      InsertAllBounded(env, e, isMap, Inserted(isMap, entries, vs[0]), vs[1..]);
    }
  }

  lemma {:induction false} TakeBounded(env: Env, e: Ty, vs: seq<Val>, n: nat)
    requires n <= |vs|
    ensures PlacedEach(env, e, vs[..n]) <= PlacedEach(env, e, vs) && NestingAll(vs[..n]) <= NestingAll(vs)
  {
    if n > 0 {
      assert vs[..n][1..] == vs[1..][..n - 1];
      TakeBounded(env, e, vs[1..], n - 1);
    }
  }

  lemma {:induction false} PadHolds(env: Env, e: Ty, vs: seq<Val>, v: Val, n: nat)
    ensures PlacedEach(env, e, vs + Copies(v, n)) == PlacedEach(env, e, vs) + n * Placed(env, e, v)
    ensures NestingAll(vs + Copies(v, n)) <= Max(NestingAll(vs), Nesting(v))
  {
    if vs == [] {
      assert vs + Copies(v, n) == Copies(v, n);
      CopiesHold(env, e, v, n);
    } else {
      assert (vs + Copies(v, n))[1..] == vs[1..] + Copies(v, n);
      PadHolds(env, e, vs[1..], v, n);
    }
  }

  /** A growable container holds no more than the elements that were read. */
  lemma CollectBounded(env: Env, t: Ty, vs: seq<Val>)
    requires IsCollection(t) && !t.Arr?
    ensures Placed(env, t, Collect(env, t, vs)) <= |vs| + PlacedEach(env, ElemOf(t), vs)
    ensures Nesting(Collect(env, t, vs)) <= NestingAll(vs)
  {
    match t
    case Sequence(_, _) =>
    case Set(e) => InsertAllBounded(env, e, false, [], vs);
    case Map(k, e) => InsertAllBounded(env, Pair(k, e), true, [], vs);
  }

  /** An array that got too few elements is filled up with defaults. */
  lemma FillBounded(env: Env, e: Ty, vs: seq<Val>, n: nat, v: Val)
    ensures var missing := if |vs| < n then n - |vs| else 0;
            PlacedEach(env, e, FillArray(vs, n, v)) <= PlacedEach(env, e, vs) + missing * Placed(env, e, v)
    ensures NestingAll(FillArray(vs, n, v)) <= Max(NestingAll(vs), Nesting(v))
  {
    if |vs| < n {
      PadHolds(env, e, vs, v, n - |vs|);
    } else {
      TakeBounded(env, e, vs, n);
    }
  }

  // -- What a value that was read holds ---------------------------------------------------------

  /**
   Whatever the input and the outcome: the value holds no more elements than were read and nests no
   deeper than objects were entered, but for what defaults and the object read into bring along.
   */
  lemma {:induction false} HoldsWhatWasRead(env: Env, c: Claim, t: Ty, into: Val, s: RState)
    requires Given(env, c) && Holds(env, c, t, into, 0, 0)
    ensures Holds(env, c, t, Dec(env, t, into, s).0, Stored(env, t, into, s), Entered(env, t, into, s))
    decreases s.Remaining(), t, 1
  {
    if IsLeaf(t) {
    } else if IsCollection(t) {
      CollectionHolds(env, c, t, into, s);
    } else {
      match t
      case Obj(id) => ObjectHolds(env, c, id, into, s);
      case Pair(a, b) => PairHolds(env, c, a, b, into, s);
      case Tuple(ts) => TupleHolds(env, c, ts, into, s);
      case Opt(i) => OptionalHolds(env, c, i, s);
      case Ptr(i) => NullableHolds(env, c, t, i, s);
      case Union(tags, alts) => UnionHolds(env, c, tags, alts, into, s);
    }
  }

  lemma CollectionHolds(env: Env, c: Claim, t: Ty, into: Val, s: RState)
    requires Given(env, c) && IsCollection(t)
    ensures Holds(env, c, t, Dec(env, t, into, s).0, Stored(env, t, into, s), Entered(env, t, into, s))
    decreases s.Remaining(), t, 0
  {
    var e := ElemOf(t);
    var (len, s1) := ReadCollectionLength(s, MinElementOf(t));
    if len > 0 {
      EachElementHolds(env, c, e, len, s1);
      var (vs, r) := DecEach(env, e, len, s1);
      ItemsBehindLength(env, t, e, MinElementOf(t), len, s, s1, vs, r);
      CollectionBehindItems(env, t, into, s, vs, r);
      CollectedHolds(env, c, t, vs, StoredEach(env, e, len, s1), EnteredEach(env, e, len, s1));
      CollectionCount(env, t, into, s, len, s1, vs);
    } else {
      CollectionBehindItems(env, t, into, s, [], s1);
      CollectedHolds(env, c, t, [], 0, 0);
      assert Dec(env, t, into, s).0 == Collect(env, t, []);
      HoldsAtLeast(env, c, t, Collect(env, t, []), Stored(env, t, into, s), Entered(env, t, into, s));
    }
  }

  lemma HoldsAtLeast(env: Env, c: Claim, t: Ty, v: Val, n: nat, m: nat)
    requires Holds(env, c, t, v, 0, 0)
    ensures Holds(env, c, t, v, n, m)
  {
  }

  lemma CollectionCount(env: Env, t: Ty, into: Val, s: RState, len: nat, s1: RState, vs: seq<Val>)
    requires IsCollection(t) && ReadCollectionLength(s, MinElementOf(t)) == (len, s1) && len > 0
    requires vs == DecEach(env, ElemOf(t), len, s1).0
    ensures Stored(env, t, into, s) == (if t.Arr? then 0 else |vs|) + StoredEach(env, ElemOf(t), len, s1)
    ensures Entered(env, t, into, s) == EnteredEach(env, ElemOf(t), len, s1)
  {
    ItemsSum(env, t, into, s, len, s1, vs);
    assert Entered(env, t, into, s) == EnteredItems(env, t, ElemOf(t), s);
  }

  lemma CollectedHolds(env: Env, c: Claim, t: Ty, vs: seq<Val>, n: nat, m: nat)
    requires Given(env, c) && IsCollection(t) && EachHolds(env, c, ElemOf(t), vs, n, m)
    ensures Holds(env, c, t, Collect(env, t, vs), (if t.Arr? then 0 else |vs|) + n, m)
  {
    if t.Arr? {
      DefaultHolds(env, c, t.elem);
      FilledHolds(env, c, t.elem, t.n, vs, n, m);
    } else {
      CollectBounded(env, t, vs);
    }
  }

  lemma FilledHolds(env: Env, c: Claim, e: Ty, size: nat, vs: seq<Val>, n: nat, m: nat)
    requires Holds(env, c, e, Default(env, e), 0, 0) && EachHolds(env, c, e, vs, n, m)
    ensures Holds(env, c, Arr(e, size), Collect(env, Arr(e, size), vs), n, m)
  {
    FillBounded(env, e, vs, size, Default(env, e));
    if c.Elements? {
      ZeroTimes(if |vs| < size then size - |vs| else 0, Placed(env, e, Default(env, e)));
    }
  }

  lemma ZeroTimes(n: nat, p: nat)
    requires p == 0
    ensures n * p == 0
  {
  }

  lemma PairHolds(env: Env, c: Claim, a: Ty, b: Ty, into: Val, s: RState)
    requires Given(env, c) && Holds(env, c, Pair(a, b), into, 0, 0)
    ensures var t := Pair(a, b); Holds(env, c, t, Dec(env, t, into, s).0, Stored(env, t, into, s), Entered(env, t, into, s))
    decreases s.Remaining(), Pair(a, b), 0
  {
    PartsHold(env, c, a, b, into);
    var (x0, y0) := PartsOf(env, a, b, into);
    var (x, s1) := Dec(env, a, x0, s);
    var (y, r) := Dec(env, b, y0, s1);
    HoldsWhatWasRead(env, c, a, x0, s);
    HoldsWhatWasRead(env, c, b, y0, s1);
    PairBehindFirst(env, a, b, into, s, s1, x, y, r);
    PairCount(env, a, b, into, s, x0, y0, s1);
    BothHold(env, c, a, b, x, y, Stored(env, a, x0, s), Stored(env, b, y0, s1),
             Entered(env, a, x0, s), Entered(env, b, y0, s1));
  }

  lemma PairCount(env: Env, a: Ty, b: Ty, into: Val, s: RState, x0: Val, y0: Val, s1: RState)
    requires PartsOf(env, a, b, into) == (x0, y0) && s1 == Dec(env, a, x0, s).1
    ensures Stored(env, Pair(a, b), into, s) == Stored(env, a, x0, s) + Stored(env, b, y0, s1)
    ensures Entered(env, Pair(a, b), into, s) == Max(Entered(env, a, x0, s), Entered(env, b, y0, s1))
  {
  }

  lemma PartsHold(env: Env, c: Claim, a: Ty, b: Ty, into: Val)
    requires Given(env, c) && Holds(env, c, Pair(a, b), into, 0, 0)
    ensures var (x0, y0) := PartsOf(env, a, b, into); Holds(env, c, a, x0, 0, 0) && Holds(env, c, b, y0, 0, 0)
  {
    DefaultHolds(env, c, a);
    DefaultHolds(env, c, b);
  }

  lemma BothHold(env: Env, c: Claim, a: Ty, b: Ty, x: Val, y: Val, n: nat, k: nat, m: nat, l: nat)
    requires Holds(env, c, a, x, n, m) && Holds(env, c, b, y, k, l)
    ensures Holds(env, c, Pair(a, b), VPair(x, y), n + k, Max(m, l))
  {
  }

  lemma TupleHolds(env: Env, c: Claim, ts: seq<Ty>, into: Val, s: RState)
    requires Given(env, c)
    ensures var t := Tuple(ts); Holds(env, c, t, Dec(env, t, into, s).0, Stored(env, t, into, s), Entered(env, t, into, s))
    decreases s.Remaining(), Tuple(ts), 0
  {
    var (h, s1) := ReadObjectHeader(s);
    if h.isNull {
      DefaultHolds(env, c, Tuple(ts));
    } else {
      var ds := DefaultAll(env, ts);
      DefaultAllHolds(env, c, ts);
      AllMembersHold(env, c, ts, ds, h.count, s1);
      var (vs, r) := DecAll(env, ts, ds, h.count, s1);
      TupleBehindHeader(env, ts, into, s, h, s1, vs, r);
      TupleCount(env, ts, into, s, h, s1);
      ItemsHold(env, c, ts, vs, StoredAll(env, ts, ds, h.count, s1), EnteredAll(env, ts, ds, h.count, s1));
    }
  }

  lemma TupleCount(env: Env, ts: seq<Ty>, into: Val, s: RState, h: Header, s1: RState)
    requires ReadObjectHeader(s) == (h, s1) && !h.isNull
    ensures var ds := DefaultAll(env, ts);
            && Stored(env, Tuple(ts), into, s) == StoredAll(env, ts, ds, h.count, s1)
            && Entered(env, Tuple(ts), into, s) == EnteredAll(env, ts, ds, h.count, s1)
  {
  }

  lemma ItemsHold(env: Env, c: Claim, ts: seq<Ty>, vs: seq<Val>, n: nat, m: nat)
    requires AllHold(env, c, ts, vs, n, m)
    ensures Holds(env, c, Tuple(ts), VTuple(vs), n, m)
  {
  }

  lemma ObjectHolds(env: Env, c: Claim, id: string, into: Val, s: RState)
    requires Given(env, c) && Holds(env, c, Obj(id), into, 0, 0)
    ensures var t := Obj(id); Holds(env, c, t, Dec(env, t, into, s).0, Stored(env, t, into, s), Entered(env, t, into, s))
    decreases s.Remaining(), Obj(id), 0
  {
    var k := ClassOf(env, id);
    var ds := FieldsOf(k, into);
    FieldsHold(env, c, id, into);
    var (h, s1) := ReadObjectHeader(s);
    var s2 := s1.(depth := s1.depth + 1);
    if !h.isNull && k.members != [] && s2.depth <= s2.opts.maxDepth && h.count != 0 {
      AllMembersHold(env, c, k.members, ds, h.count, s2);
      var (vs, r) := DecAll(env, k.members, ds, h.count, s2);
      ObjectBehindHeader(env, Obj(id), k, ds, s, h, s1, vs, r);
      ObjectCount(env, id, into, s, h, s1, s2);
      MembersHold(env, c, id, vs, StoredAll(env, k.members, ds, h.count, s2), EnteredAll(env, k.members, ds, h.count, s2));
    } else {
      ObjectNotEntered(env, id, into, s);
      KeptHolds(env, c, id, Dec(env, Obj(id), into, s).0, into, Stored(env, Obj(id), into, s), Entered(env, Obj(id), into, s));
    }
  }

  lemma ObjectCount(env: Env, id: string, into: Val, s: RState, h: Header, s1: RState, s2: RState)
    requires ReadObjectHeader(s) == (h, s1) && s2 == s1.(depth := s1.depth + 1)
    requires !h.isNull && ClassOf(env, id).members != [] && s2.depth <= s2.opts.maxDepth && h.count != 0
    ensures var k := ClassOf(env, id);
            var ds := FieldsOf(k, into);
            && Stored(env, Obj(id), into, s) == StoredAll(env, k.members, ds, h.count, s2)
            && Entered(env, Obj(id), into, s) == 1 + EnteredAll(env, k.members, ds, h.count, s2)
  {
    ObjectStores(env, id, into, s, h, s1, s2);
    ObjectEntered(env, id, into, s, h, s1, s2);
  }

  lemma ObjectStores(env: Env, id: string, into: Val, s: RState, h: Header, s1: RState, s2: RState)
    requires ReadObjectHeader(s) == (h, s1) && s2 == s1.(depth := s1.depth + 1)
    requires !h.isNull && ClassOf(env, id).members != [] && s2.depth <= s2.opts.maxDepth && h.count != 0
    ensures var k := ClassOf(env, id);
            Stored(env, Obj(id), into, s) == StoredAll(env, k.members, FieldsOf(k, into), h.count, s2)
  {
    var k := ClassOf(env, id);
    assert Stored(env, Obj(id), into, s) == StoredObject(env, Obj(id), k, FieldsOf(k, into), s);
  }

  lemma ObjectEntered(env: Env, id: string, into: Val, s: RState, h: Header, s1: RState, s2: RState)
    requires ReadObjectHeader(s) == (h, s1) && s2 == s1.(depth := s1.depth + 1)
    requires !h.isNull && ClassOf(env, id).members != [] && s2.depth <= s2.opts.maxDepth && h.count != 0
    ensures var k := ClassOf(env, id);
            Entered(env, Obj(id), into, s) == 1 + EnteredAll(env, k.members, FieldsOf(k, into), h.count, s2)
  {
    var k := ClassOf(env, id);
    assert Entered(env, Obj(id), into, s) == EnteredObject(env, Obj(id), k, FieldsOf(k, into), s);
  }

  /** An object that is not entered keeps its members or takes the defaults. */
  lemma ObjectNotEntered(env: Env, id: string, into: Val, s: RState)
    requires var k, (h, s1) := ClassOf(env, id), ReadObjectHeader(s);
             h.isNull || k.members == [] || s1.depth >= s1.opts.maxDepth || h.count == 0
    ensures var v, k := Dec(env, Obj(id), into, s).0, ClassOf(env, id);
            v == VObj(k.defaults) || v == VObj([]) || v == VObj(FieldsOf(k, into))
  {
    var k := ClassOf(env, id);
    assert Dec(env, Obj(id), into, s) == DecObject(env, Obj(id), k, FieldsOf(k, into), s);
  }

  lemma KeptHolds(env: Env, c: Claim, id: string, v: Val, into: Val, n: nat, m: nat)
    requires Given(env, c) && Holds(env, c, Obj(id), into, 0, 0)
    requires var k := ClassOf(env, id); v == VObj(k.defaults) || v == VObj([]) || v == VObj(FieldsOf(k, into))
    ensures Holds(env, c, Obj(id), v, n, m)
  {
    FieldsHold(env, c, id, into);
  }

  lemma FieldsHold(env: Env, c: Claim, id: string, into: Val)
    requires Given(env, c) && Holds(env, c, Obj(id), into, 0, 0)
    ensures var k := ClassOf(env, id);
            && AllHold(env, c, k.members, FieldsOf(k, into), 0, 0)
            && Holds(env, c, Obj(id), VObj(FieldsOf(k, into)), 0, 0) && Holds(env, c, Obj(id), VObj(k.defaults), 0, 0)
  {
  }

  lemma MembersHold(env: Env, c: Claim, id: string, vs: seq<Val>, n: nat, m: nat)
    requires AllHold(env, c, ClassOf(env, id).members, vs, n, m)
    ensures Holds(env, c, Obj(id), VObj(vs), n, 1 + m)
  {
  }

  /** A nullable holds what its value holds. */
  lemma SomeHolds(env: Env, c: Claim, t: Ty, i: Ty, x: Val, n: nat, m: nat)
    requires Holds(env, c, i, x, n, m)
    ensures t == Ptr(i) || t == Opt(i) ==> Holds(env, c, t, VSome(x), n, m)
  {
  }

  lemma NullableHolds(env: Env, c: Claim, t: Ty, i: Ty, s: RState)
    requires Given(env, c) && (t == Ptr(i) || t == Opt(i))
    ensures Holds(env, c, t, DecNullable(env, i, s).0, StoredNullable(env, i, s), EnteredNullable(env, i, s))
    decreases s.Remaining(), i, 2
  {
    if s.PeekIsNull() {
      assert DecNullable(env, i, s).0 == VNull;
    } else {
      var into := Default(env, i);
      DefaultHolds(env, c, i);
      HoldsWhatWasRead(env, c, i, into, s);
      SomeHolds(env, c, t, i, Dec(env, i, into, s).0, Stored(env, i, into, s), Entered(env, i, into, s));
      NotNull(env, i, s, into);
    }
  }

  lemma NotNull(env: Env, i: Ty, s: RState, into: Val)
    requires !s.PeekIsNull() && into == Default(env, i)
    ensures DecNullable(env, i, s).0 == VSome(Dec(env, i, into, s).0)
    ensures StoredNullable(env, i, s) == Stored(env, i, into, s) && EnteredNullable(env, i, s) == Entered(env, i, into, s)
  {
  }

  lemma OptionalHolds(env: Env, c: Claim, i: Ty, s: RState)
    requires Given(env, c)
    ensures Holds(env, c, Opt(i), DecOptional(env, i, s).0, StoredOptional(env, i, s), EnteredOptional(env, i, s))
    decreases s.Remaining(), i, 3
  {
    match NullEncoding(i)
    case NullableValue => FlatOptionalHolds(env, c, i, s);
    case StringNull => FlatOptionalHolds(env, c, i, s);
    case CollectionNull => OptionalCollectionHolds(env, c, i, s);
    case ObjectNull => NullableHolds(env, c, Opt(i), i, s);
  }

  lemma OptionalCollectionHolds(env: Env, c: Claim, i: Ty, s: RState)
    requires Given(env, c) && NullEncoding(i).CollectionNull?
    ensures Holds(env, c, Opt(i), DecOptional(env, i, s).0, StoredOptional(env, i, s), EnteredOptional(env, i, s))
    decreases s.Remaining(), i, 2
  {
    var into := Default(env, i);
    DefaultHolds(env, c, i);
    HoldsWhatWasRead(env, c, i, into, s);
    SomeHolds(env, c, Opt(i), i, Dec(env, i, into, s).0, Stored(env, i, into, s), Entered(env, i, into, s));
    NullOrCollection(env, i, s);
  }

  lemma FlatOptionalHolds(env: Env, c: Claim, i: Ty, s: RState)
    requires NullEncoding(i).NullableValue? || NullEncoding(i).StringNull?
    ensures Holds(env, c, Opt(i), DecOptional(env, i, s).0, StoredOptional(env, i, s), EnteredOptional(env, i, s))
  {
    FlatOptional(env, i, s);
    FlatHolds(env, c, i, DecOptional(env, i, s).0);
    HoldsAtLeast(env, c, Opt(i), DecOptional(env, i, s).0, StoredOptional(env, i, s), EnteredOptional(env, i, s));
  }

  lemma FlatOptional(env: Env, i: Ty, s: RState)
    requires NullEncoding(i).NullableValue? || NullEncoding(i).StringNull?
    ensures var v := DecOptional(env, i, s).0; v == VNull || (v.VSome? && IsFlat(v.val))
  {
  }

  /** A value without parts. */
  predicate IsFlat(v: Val) { v.VInt? || v.VBool? || v.VRaw? || v.VStr? }

  lemma FlatHolds(env: Env, c: Claim, i: Ty, v: Val)
    requires IsLeaf(i) && (v == VNull || (v.VSome? && IsFlat(v.val)))
    ensures Holds(env, c, Opt(i), v, 0, 0)
  {
  }

  lemma NullOrCollection(env: Env, i: Ty, s: RState)
    requires NullEncoding(i).CollectionNull?
    ensures var v, into := DecOptional(env, i, s).0, Default(env, i);
            || v == VNull
            || (v == VSome(Dec(env, i, into, s).0) && StoredOptional(env, i, s) == Stored(env, i, into, s)
                && EnteredOptional(env, i, s) == Entered(env, i, into, s))
  {
  }

  lemma UnionHolds(env: Env, c: Claim, tags: seq<nat>, alts: seq<Ty>, into: Val, s: RState)
    requires Given(env, c) && Holds(env, c, Union(tags, alts), into, 0, 0)
    ensures var t := Union(tags, alts);
            Holds(env, c, t, Dec(env, t, into, s).0, Stored(env, t, into, s), Entered(env, t, into, s))
    decreases s.Remaining(), Union(tags, alts), 0
  {
    DefaultHolds(env, c, Union(tags, alts));
    var (h, s1) := ReadUnionHeader(s);
    if h.Tag? {
      var i := FindTag(tags, h.tag);
      if i < |alts| && i < |tags| {
        var into' := Default(env, alts[i]);
        DefaultHolds(env, c, alts[i]);
        HoldsWhatWasRead(env, c, alts[i], into', s1);
        var (x, r) := Dec(env, alts[i], into', s1);
        UnionBehindHeader(env, tags, alts, into, h.tag, s, s1, x, r);
        UnionCount(env, tags, alts, into, h.tag, s, s1, into');
        AlternativeHolds(env, c, tags, alts, h.tag, x, Stored(env, alts[i], into', s1), Entered(env, alts[i], into', s1));
      }
    }
  }

  lemma UnionCount(env: Env, tags: seq<nat>, alts: seq<Ty>, into: Val, tag: nat, s: RState, s1: RState, into': Val)
    requires ReadUnionHeader(s) == (Tag(tag), s1) && FindTag(tags, tag) < |tags| && FindTag(tags, tag) < |alts|
    requires into' == Default(env, alts[FindTag(tags, tag)])
    ensures var i := FindTag(tags, tag);
            && Stored(env, Union(tags, alts), into, s) == Stored(env, alts[i], into', s1)
            && Entered(env, Union(tags, alts), into, s) == Entered(env, alts[i], into', s1)
  {
  }

  lemma AlternativeHolds(env: Env, c: Claim, tags: seq<nat>, alts: seq<Ty>, tag: nat, x: Val, n: nat, m: nat)
    requires FindTag(tags, tag) < |alts| && Holds(env, c, alts[FindTag(tags, tag)], x, n, m)
    ensures Holds(env, c, Union(tags, alts), VUnion(tag, x), n, m)
  {
  }

  lemma {:induction false} EachElementHolds(env: Env, c: Claim, e: Ty, n: nat, s: RState)
    requires Given(env, c)
    ensures EachHolds(env, c, e, DecEach(env, e, n, s).0, StoredEach(env, e, n, s), EnteredEach(env, e, n, s))
    decreases s.Remaining(), e, n + 4
  {
    if n > 0 && s.Ok() {
      var into := Default(env, e);
      DefaultHolds(env, c, e);
      HoldsWhatWasRead(env, c, e, into, s);
      var (v, s1) := Dec(env, e, into, s);
      var (vs, r) := DecEach(env, e, n - 1, s1);
      EachElementHolds(env, c, e, n - 1, s1);
      EachBehindFirst(env, e, n, s, v, s1, vs, r);
      MoreHold(env, c, e, v, vs, Stored(env, e, into, s), StoredEach(env, e, n - 1, s1),
               Entered(env, e, into, s), EnteredEach(env, e, n - 1, s1));
    }
  }

  lemma MoreHold(env: Env, c: Claim, e: Ty, v: Val, vs: seq<Val>, n: nat, k: nat, m: nat, l: nat)
    requires Holds(env, c, e, v, n, m) && EachHolds(env, c, e, vs, k, l)
    ensures EachHolds(env, c, e, [v] + vs, n + k, Max(m, l))
  {
    assert ([v] + vs)[1..] == vs;
  }

  lemma {:induction false} AllMembersHold(env: Env, c: Claim, ts: seq<Ty>, ds: seq<Val>, count: nat, s: RState)
    requires Given(env, c) && |ds| == |ts| && AllHold(env, c, ts, ds, 0, 0)
    ensures AllHold(env, c, ts, DecAll(env, ts, ds, count, s).0, StoredAll(env, ts, ds, count, s),
                    EnteredAll(env, ts, ds, count, s))
    decreases s.Remaining(), ts, 0
  {
    if ts != [] && count > 0 {
      var ts', ds' := ts[1..], ds[1..];
      HoldsWhatWasRead(env, c, ts[0], ds[0], s);
      var (v, s1) := Dec(env, ts[0], ds[0], s);
      var (vs, r) := DecAll(env, ts', ds', count - 1, s1);
      AllMembersHold(env, c, ts', ds', count - 1, s1);
      AllBehindFirst(env, ts, ds, count, s, v, s1, vs, r);
      OneMoreMember(env, c, ts, v, vs, Stored(env, ts[0], ds[0], s), StoredAll(env, ts', ds', count - 1, s1),
                    Entered(env, ts[0], ds[0], s), EnteredAll(env, ts', ds', count - 1, s1));
    }
  }

  lemma OneMoreMember(env: Env, c: Claim, ts: seq<Ty>, v: Val, vs: seq<Val>, n: nat, k: nat, m: nat, l: nat)
    requires ts != [] && Holds(env, c, ts[0], v, n, m) && AllHold(env, c, ts[1..], vs, k, l)
    ensures AllHold(env, c, ts, [v] + vs, n + k, Max(m, l))
  {
    assert ([v] + vs)[1..] == vs;
  }

  // -- The bounds ----------------------------------------------------------------------------

  /** Whatever the input and the outcome, the value nests no deeper than the limit allows, and defaults do. */
  lemma ValueNesting(env: Env, d: nat, t: Ty, into: Val, s: RState)
    requires Shallow(env, d) && Nesting(into) <= d
    ensures Nesting(Dec(env, t, into, s).0) <= Allowed(s) + d
  {
    HoldsWhatWasRead(env, Levels(d), t, into, s);
    NeverTooDeep(env, t, into, s);
  }

  /** Success consumed at least a byte, and one more for every element the value holds. */
  predicate Paid(env: Env, t: Ty, into: Val, s: RState)
  {
    var (v, r) := Dec(env, t, into, s);
    r.Ok() ==> s.pos + 1 + Placed(env, t, v) <= r.pos
  }

  lemma DecBounded(env: Env, t: Ty, into: Val, s: RState)
    requires WfEnv(env) && WfTy(env, t) && Plain(env) && Placed(env, t, into) == 0
    ensures Paid(env, t, into, s)
  {
    Costs(env, t, into, s);
    HoldsWhatWasRead(env, Elements, t, into, s);
  }

  /** Every element a value holds was paid for, on all inputs, if and only if default objects hold none. */
  lemma PaidIffPlain(env: Env)
    requires WfEnv(env)
    ensures Plain(env) <==> AllPaid(env)
  {
    if Plain(env) {
      PlainPays(env);
    } else {
      var id :| id in env && PlacedAll(env, env[id].members, env[id].defaults) > 0;
      var s: RState := RState([NULL_OBJECT], Options(0, 0, 0), 0, 0, NoError);
      NullIsFree(env, id, s);
      assert !AllPaid(env);
    }
  }

  lemma PlainPays(env: Env)
    requires WfEnv(env) && Plain(env)
    ensures AllPaid(env)
  {
    forall t, into, s: RState | WfTy(env, t) && Placed(env, t, into) == 0 ensures Paid(env, t, into, s) {
      DecBounded(env, t, into, s);
    }
  }

  ghost predicate AllPaid(env: Env)
  {
    forall t, into, s: RState :: WfTy(env, t) && Placed(env, t, into) == 0 ==> Paid(env, t, into, s)
  }

  /** One byte makes an object with all the elements of its defaults. */
  lemma NullIsFree(env: Env, id: string, s: RState)
    requires id in env && s.Ok() && s.PeekIsNull() && PlacedAll(env, env[id].members, env[id].defaults) > 0
    ensures WfTy(env, Obj(id)) && Placed(env, Obj(id), VNull) == 0 && !Paid(env, Obj(id), VNull, s)
  {
    var c, s1 := env[id], s.(pos := s.pos + 1);
    assert ReadObjectHeader(s) == (Header(0, true), s1);
    assert Dec(env, Obj(id), VNull, s) == DecObject(env, Obj(id), c, c.defaults, s) == (VObj(c.defaults), s1);
    assert Placed(env, Obj(id), VObj(c.defaults)) == PlacedAll(env, c.members, c.defaults);
  }
}
