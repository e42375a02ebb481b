/**
 Reading what was written: for every type and value, by a reader that may know later versions of
 the classes than the writer did.
 */
module RoundTrip {
  import opened Bytes
  import opened Transcode
  import opened Wire
  import opened Decoder
  import opened DecoderSteps

  // -- What is assumed of a value ------------------------------------------------------------

  /**
   `v` is a value of type `t` within the limits of a reader at nesting depth `depth`: lengths fit an
   int32_t and the configured maxima, objects nest no deeper than maxDepth, and a nullable whose
   null is a 0xFF byte holds a value whose encoding does not start with that byte.
   */
  predicate Fits(env: Env, env': Env, opts: Options, depth: nat, t: Ty, v: Val)
    decreases v
  {
    if IsLeaf(t) then FitsLeaf(opts, t, v)
    else if IsCollection(t) then
      && v.VList? && FitsLength(opts, v.elems) && (t.Arr? ==> |v.elems| == t.n)
      && FitsEach(env, env', opts, depth, ElemOf(t), v.elems)
    else
      match (t, v)
      case (Obj(id), VObj(fields)) =>
        && (ClassOf(env', id).members == [] || depth < opts.maxDepth)
        && FitsAll(env, env', opts, depth + 1, ClassOf(env, id).members, fields)
      case (Pair(a, b), VPair(x, y)) => Fits(env, env', opts, depth, a, x) && Fits(env, env', opts, depth, b, y)
      case (Tuple(ts), VTuple(vs)) => FitsAll(env, env', opts, depth, ts, vs)
      case (Opt(_), VNull) => true
      case (Opt(i), VSome(x)) =>
        Fits(env, env', opts, depth, i, x) && (NullEncoding(i).ObjectNull? ==> !NullMarked(i, x))
      case (Ptr(_), VNull) => true
      case (Ptr(i), VSome(x)) => Fits(env, env', opts, depth, i, x) && !NullMarked(i, x)
      case (Union(tags, alts), VUnion(tag, x)) =>
        var i := FindTag(tags, tag);
        i < |alts| && i < |tags| && Fits(env, env', opts, depth, alts[i], x)
      case _ => false
  }

  predicate FitsLeaf(opts: Options, t: Ty, v: Val)
  {
    match (t, v)
    case (Prim(w, _), VInt(n)) => n < Pow256(w)
    case (Bool, VBool(_)) => true
    case (Raw(size, _), VRaw(raw)) => |raw| == size
    case (Str, VStr(s)) => |s| <= INT32_MAX && |s| <= opts.maxStringLength
    case (Str16, VStr16(u)) => |u| <= INT32_MAX && |u| <= opts.maxStringLength
    case _ => false
  }

  /** The first byte written for the value is the null object byte. */
  predicate NullMarked(t: Ty, v: Val)
    decreases v
  {
    if IsCollection(t) then v.VList? && |v.elems| % 256 == NULL_OBJECT
    else
      match (t, v)
      case (Prim(_, _), VInt(n)) => n % 256 == NULL_OBJECT
      case (Raw(_, _), VRaw(raw)) => raw != [] && raw[0] == NULL_OBJECT
      case (Str, VStr(s)) => s != [] && |s| % 256 == 0
      case (Str16, VStr16(u)) => |u| % 256 == NULL_OBJECT
      case (Pair(a, _), VPair(x, _)) => NullMarked(a, x)
      case (Opt(i), VNull) => !IsValueType(i)
      case (Opt(i), VSome(x)) => !IsValueType(i) && NullMarked(i, x)
      case (Ptr(_), VNull) => true
      case (Ptr(i), VSome(x)) => NullMarked(i, x)
      case _ => false
  }

  predicate FitsLength(opts: Options, vs: seq<Val>)
  {
    |vs| <= INT32_MAX && |vs| <= opts.maxCollectionLength
  }

  predicate FitsEach(env: Env, env': Env, opts: Options, depth: nat, e: Ty, vs: seq<Val>)
    decreases vs
  {
    vs == [] || (Fits(env, env', opts, depth, e, vs[0]) && FitsEach(env, env', opts, depth, e, vs[1..]))
  }

  predicate FitsAll(env: Env, env': Env, opts: Options, depth: nat, ts: seq<Ty>, vs: seq<Val>)
    decreases vs
  {
    if ts == [] || vs == [] then ts == [] && vs == []
    else Fits(env, env', opts, depth, ts[0], vs[0]) && FitsAll(env, env', opts, depth, ts[1..], vs[1..])
  }

  /** The reader's classes have the writer's members first, possibly followed by more. */
  predicate Extends(env: Env, env': Env)
  {
    forall id | id in env :: id in env' && env[id].members <= env'[id].members
  }

  // -- What arrives ----------------------------------------------------------------------------

  /**
   The value the reader obtains: unpaired surrogates are replaced, sets and maps hold the received
   elements and keys once each, and members the writer did not know are as they were in the object
   `into` that is read into (at their defaults in a new one).
   */
  function Received(env: Env, t: Ty, into: Val, v: Val): (r: Val)
    decreases v
  {
    if IsLeaf(t) then if v.VStr16? then VStr16(Repair(v.utf16)) else v
    else if IsCollection(t) then if v.VList? then Collect(env, t, ReceivedEach(env, ElemOf(t), v.elems)) else v
    else
      match (t, v)
      case (Obj(id), VObj(fields)) => VObj(ReceivedAll(env, ClassOf(env, id).members, FieldsOf(ClassOf(env, id), into), fields))
      case (Pair(a, b), VPair(x, y)) =>
        var (x0, y0) := PartsOf(env, a, b, into);
        VPair(Received(env, a, x0, x), Received(env, b, y0, y))
      case (Tuple(ts), VTuple(vs)) => VTuple(ReceivedAll(env, ts, DefaultAll(env, ts), vs))
      case (Opt(i), VSome(x)) => VSome(Received(env, i, Default(env, i), x))
      case (Ptr(i), VSome(x)) => VSome(Received(env, i, Default(env, i), x))
      case (Union(tags, alts), VUnion(tag, x)) =>
        var i := FindTag(tags, tag);
        if i < |alts| then VUnion(tag, Received(env, alts[i], Default(env, alts[i]), x)) else v
      case _ => v
  }

  function ReceivedEach(env: Env, e: Ty, vs: seq<Val>): (r: seq<Val>)
    ensures |r| == |vs|
    decreases vs
  {
    if vs == [] then [] else [Received(env, e, Default(env, e), vs[0])] + ReceivedEach(env, e, vs[1..])
  }

  function ReceivedAll(env: Env, ts: seq<Ty>, ds: seq<Val>, vs: seq<Val>): (r: seq<Val>)
    requires |ds| == |ts|
    decreases vs
  {
    if ts == [] || vs == [] then ds
    else [Received(env, ts[0], ds[0], vs[0])] + ReceivedAll(env, ts[1..], ds[1..], vs[1..])
  }

  // -- Reading the pieces ------------------------------------------------------------------------

  function Moved(s: RState, n: nat): (r: RState)
    requires s.pos + n <= |s.data|
  {
    s.(pos := s.pos + n)
  }

  /** Two byte strings one behind the other: the state between them. */
  lemma MovedOver(s: RState, head: bytes, tail: bytes) returns (s1: RState)
    requires HasAt(s.data, s.pos, head + tail)
    ensures HasAt(s.data, s.pos, head) && s1 == Moved(s, |head|)
    ensures HasAt(s1.data, s1.pos, tail) && Moved(s1, |tail|) == Moved(s, |head + tail|)
  {
    HasAtSplit(s.data, s.pos, head, tail);
    s1 := Moved(s, |head|);
  }

  lemma ReadRawAt(s: RState, w: nat, n: nat)
    requires s.Ok() && n < Pow256(w) && HasAt(s.data, s.pos, LE(n, w))
    ensures ReadRaw(s, w) == (n, Moved(s, w))
  {
    FromLEOfLE(n, w);
  }

  lemma ReadInt32At(s: RState, i: int)
    requires s.Ok() && -0x8000_0000 <= i <= INT32_MAX && HasAt(s.data, s.pos, LE(FromInt32(i), 4))
    ensures ReadInt32(s) == (i, Moved(s, 4))
  {
    Pow256Small();
    ReadRawAt(s, 4, FromInt32(i));
  }

  lemma ReadHeaderAt(s: RState, n: nat)
    requires s.Ok() && n <= MAX_MEMBER_COUNT && HasAt(s.data, s.pos, LE(n, 1))
    ensures ReadObjectHeader(s) == (Header(n, false), Moved(s, 1))
  {
    assert LE(n, 1)[0] == n;
    assert s.data[s.pos] == s.data[s.pos..s.pos + 1][0];
  }

  lemma ReadLengthAt(s: RState, n: nat, min: nat)
    requires s.Ok() && n <= INT32_MAX && n <= s.opts.maxCollectionLength && HasAt(s.data, s.pos, LE(n, 4))
    requires n * min <= |s.data| - s.pos - 4
    ensures ReadCollectionLength(s, min) == (n, Moved(s, 4))
  {
    assert FromInt32(n) == n;
    ReadInt32At(s, n);
  }

  lemma ReadUnionHeaderAt(s: RState, tag: nat)
    requires s.Ok() && tag < 0x1_0000 && HasAt(s.data, s.pos, UnionHeader(tag))
    ensures ReadUnionHeader(s) == (Tag(tag), Moved(s, |UnionHeader(tag)|))
  {
    assert UnionHeader(tag) == s.data[s.pos..s.pos + |UnionHeader(tag)|];
    assert s.data[s.pos] == UnionHeader(tag)[0];
    if tag >= WIDE_TAG {
      HasAtSplit(s.data, s.pos, [WIDE_TAG], LE(tag, 2));
      Pow256Small();
      ReadRawAt(Moved(s, 1), 2, tag);
    }
  }

  lemma ReadUtf8At(s: RState, count: bytes, text: bytes)
    requires s.Ok() && |count| == 4 && |text| <= s.opts.maxStringLength
    requires HasAt(s.data, s.pos, count + text)
    ensures ReadUtf8String(s, |text|) == (text, Moved(s, 4 + |text|))
  {
    HasAtSplit(s.data, s.pos, count, text);
  }

  lemma Utf8FormAt(s: RState, header: bytes, count: bytes, text: bytes)
    requires s.Ok() && text != [] && |text| <= INT32_MAX && |text| <= s.opts.maxStringLength
    requires header == LE(FromInt32(-1 - |text|), 4) && |count| == 4
    requires HasAt(s.data, s.pos, header + (count + text))
    ensures ReadString(s) == (Text(text), Moved(s, 8 + |text|))
  {
    HasAtSplit(s.data, s.pos, header, count + text);
    ReadInt32At(s, -1 - |text|);
    ReadUtf8At(Moved(s, 4), count, text);
    assert Moved(Moved(s, 4), 4 + |text|) == Moved(s, 8 + |text|);
    Utf8Form(s, text, Moved(s, 8 + |text|));
  }

  lemma Utf8Form(s: RState, text: bytes, r: RState)
    requires s.Ok() && text != [] && s.pos + 4 <= |s.data| && ReadInt32(s) == (-1 - |text|, Moved(s, 4))
    requires ReadUtf8String(Moved(s, 4), |text|) == (text, r)
    ensures ReadString(s) == (Text(text), r)
  {
  }

  lemma ReadStringAt(s: RState, text: bytes)
    requires s.Ok() && |text| <= INT32_MAX && |text| <= s.opts.maxStringLength
    requires HasAt(s.data, s.pos, StringBytes(text))
    ensures ReadString(s) == (Text(text), Moved(s, |StringBytes(text)|))
  {
    if text == [] {
      ReadInt32At(s, 0);
    } else {
      var header, count := LE(FromInt32(-1 - |text|), 4), LE(CountUnits(text), 4);
      assert StringBytes(text) == header + (count + text);
      Utf8FormAt(s, header, count, text);
    }
  }

  lemma {:induction false} UnitsOfUnitsLE(u: units)
    ensures UnitsOfLE(UnitsLE(u)) == u
  {
    if u != [] {
      var bs := UnitsLE(u);
      assert LE(u[0], 2) == [u[0] % 256, u[0] / 256 % 256];
      assert bs[2..] == UnitsLE(u[1..]);
      UnitsOfUnitsLE(u[1..]);
    }
  }

  lemma ReadUtf16BytesAt(s: RState, n: nat, bs: bytes)
    requires s.Ok() && n <= s.opts.maxStringLength && |bs| == 2 * n && HasAt(s.data, s.pos, bs)
    ensures ReadUtf16String(s, n) == (Utf16ToUtf8(UnitsOfLE(bs)), Moved(s, 2 * n))
  {
    var end := s.pos + |bs|;
    UnitsAreThere(s, n);
    UnitsBehindChecks(s, n, end);
    assert s.data[s.pos..end] == bs;
  }

  lemma UnitsAreThere(s: RState, n: nat)
    requires s.Ok() && n <= s.opts.maxStringLength && s.pos + 2 * n <= |s.data|
    ensures CheckStringLength(s, n, 2) == (true, s) && Ensure(s, 2 * n) == s
  {
  }

  lemma UnitsBehindChecks(s: RState, n: nat, end: nat)
    requires s.Ok() && CheckStringLength(s, n, 2) == (true, s) && Ensure(s, 2 * n) == s && end == s.pos + 2 * n <= |s.data|
    ensures ReadUtf16String(s, n) == (Utf16ToUtf8(UnitsOfLE(s.data[s.pos..end])), s.(pos := end))
  {
  }

  lemma Utf16FormAt(s: RState, n: nat, bs: bytes)
    requires s.Ok() && 0 < n <= INT32_MAX && n <= s.opts.maxStringLength && |bs| == 2 * n
    requires HasAt(s.data, s.pos, LE(n, 4)) && HasAt(s.data, s.pos + 4, bs)
    ensures ReadString(s) == (Text(Utf16ToUtf8(UnitsOfLE(bs))), Moved(s, 4 + 2 * n))
  {
    LengthNotNull(s, n);
    ReadUtf16BytesAt(Moved(s, 4), n, bs);
    Utf16Form(s, n);
  }

  lemma ReadUtf16StringAt(s: RState, u: units)
    requires s.Ok() && |u| <= INT32_MAX && |u| <= s.opts.maxStringLength
    requires HasAt(s.data, s.pos, Utf16StringBytes(u))
    ensures ReadString(s) == (Text(Utf16ToUtf8(u)), Moved(s, |Utf16StringBytes(u)|))
  {
    if u == [] {
      ReadInt32At(s, 0);
    } else {
      HasAtSplit(s.data, s.pos, LE(|u|, 4), UnitsLE(u));
      Utf16FormAt(s, |u|, UnitsLE(u));
      UnitsOfUnitsLE(u);
    }
  }

  lemma Utf16Form(s: RState, n: nat)
    requires n > 0 && s.pos + 4 <= |s.data| && ReadInt32(s) == (n, Moved(s, 4)) && s.Ok()
    ensures ReadString(s) == (Text(ReadUtf16String(Moved(s, 4), n).0), ReadUtf16String(Moved(s, 4), n).1)
  {
  }

  /** A length is not the null marker. */
  lemma LengthNotNull(s: RState, n: nat)
    requires s.Ok() && n <= INT32_MAX && HasAt(s.data, s.pos, LE(n, 4))
    ensures s.Remaining() >= 4 && ReadInt32(s) == (n, Moved(s, 4))
  {
    assert FromInt32(n) == n;
    ReadInt32At(s, n);
  }

  // -- Sizes -------------------------------------------------------------------------------------

  /** The fewest bytes a value of the type takes. */
  function Least(t: Ty): (n: nat)
  {
    match t
    case Prim(w, _) => w
    case Str => 4
    case Pair(a, b) => Least(a) + Least(b)
    case _ => 1
  }

  lemma {:induction false} LeastPositive(env: Env, t: Ty)
    requires WfTy(env, t)
    ensures Least(t) >= 1 && MinElement(t) <= Least(t) && MinVectorElement(t) <= Least(t)
  {
    if t.Pair? {
      LeastPositive(env, t.first);
      LeastPositive(env, t.second);
    }
  }

  /** No element is shorter than the minimum its container assumes. */
  lemma {:induction false} EncAtLeast(env: Env, env': Env, opts: Options, depth: nat, t: Ty, v: Val)
    requires WfTy(env, t) && Fits(env, env', opts, depth, t, v)
    ensures |Enc(env, t, v)| >= Least(t)
    decreases v
  {
    match (t, v)
    case (Pair(a, b), VPair(x, y)) =>
      EncAtLeast(env, env', opts, depth, a, x);
      EncAtLeast(env, env', opts, depth, b, y);
    case (Opt(i), VSome(x)) =>
      EncAtLeast(env, env', opts, depth, i, x);
      LeastPositive(env, i);
    case (Ptr(i), VSome(x)) =>
      EncAtLeast(env, env', opts, depth, i, x);
      LeastPositive(env, i);
    case (Opt(i), VNull) =>
    case _ =>
  }

  lemma OneMore(n: nat, min: nat, tail: nat, head: nat)
    requires n * min <= tail && min <= head
    ensures (n + 1) * min <= head + tail
  {
  }

  lemma {:induction false} EncEachAtLeast(env: Env, env': Env, opts: Options, depth: nat, e: Ty, min: nat, vs: seq<Val>)
    requires WfTy(env, e) && FitsEach(env, env', opts, depth, e, vs) && min <= Least(e)
    ensures |vs| * min <= |EncEach(env, e, vs)|
    decreases vs
  {
    if vs != [] {
      EncAtLeast(env, env', opts, depth, e, vs[0]);
      EncEachAtLeast(env, env', opts, depth, e, min, vs[1..]);
      OneMore(|vs[1..]|, min, |EncEach(env, e, vs[1..])|, |Enc(env, e, vs[0])|);
    }
  }

  // -- The theorem -------------------------------------------------------------------------------

  /** The reader knows the writer's classes and is asked for a value it accepts. */
  predicate Readable(env: Env, env': Env, t: Ty, v: Val, s: RState)
  {
    s.Ok() && WfEnv(env) && Extends(env, env') && WfTy(env, t) && Fits(env, env', s.opts, s.depth, t, v)
  }

  /** The value arrives and the reader stops right behind its encoding. */
  predicate Arrives(env: Env, env': Env, t: Ty, into: Val, v: Val, s: RState)
  {
    && s.pos + |Enc(env, t, v)| <= |s.data|
    && Dec(env', t, into, s) == (Received(env', t, into, v), Moved(s, |Enc(env, t, v)|))
  }

  /**
   Reading an encoded value yields the value and consumes exactly its bytes, whatever follows them
   and wherever they are.
   */
  lemma {:induction false} DecOfEnc(env: Env, env': Env, t: Ty, into: Val, v: Val, s: RState)
    requires Readable(env, env', t, v, s) && HasAt(s.data, s.pos, Enc(env, t, v))
    ensures Arrives(env, env', t, into, v, s)
    decreases v, 3
  {
    if IsLeaf(t) {
      LeafArrives(env, env', t, into, v, s);
    } else if IsCollection(t) {
      CollectionArrives(env, env', t, into, v, s);
    } else {
      match t
      case Obj(id) => ObjectArrives(env, env', id, into, v, s);
      case Pair(a, b) => PairArrives(env, env', a, b, into, v, s);
      case Tuple(ts) => TupleArrives(env, env', ts, into, v, s);
      case Opt(i) => OptionalArrives(env, env', i, into, v, s);
      case Ptr(i) => NullableArrives(env, env', i, into, v, s);
      case Union(tags, alts) => UnionArrives(env, env', tags, alts, into, v, s);
    }
  }

  lemma LeafArrives(env: Env, env': Env, t: Ty, into: Val, v: Val, s: RState)
    requires Readable(env, env', t, v, s) && HasAt(s.data, s.pos, Enc(env, t, v)) && IsLeaf(t)
    ensures Arrives(env, env', t, into, v, s)
  {
    match t
    case Prim(w, _) => ReadRawAt(s, w, v.bits);
    case Bool => assert s.data[s.pos] == s.data[s.pos..s.pos + 1][0];
    case Raw(_, _) =>
    case Str => ReadStringAt(s, v.utf8);
    case Str16 =>
      ReadUtf16StringAt(s, v.utf16);
      TranscodeRoundTrip(v.utf16);
  }

  lemma PairArrives(env: Env, env': Env, a: Ty, b: Ty, into: Val, v: Val, s: RState)
    requires Readable(env, env', Pair(a, b), v, s) && HasAt(s.data, s.pos, Enc(env, Pair(a, b), v))
    ensures Arrives(env, env', Pair(a, b), into, v, s)
    decreases v, 0
  {
    PairParts(env, env', s.opts, s.depth, a, b, into, v);
    var (x0, y0) := PartsOf(env', a, b, into);
    var s1 := MovedOver(s, Enc(env, a, v.fst), Enc(env, b, v.snd));
    DecOfEnc(env, env', a, x0, v.fst, s);
    DecOfEnc(env, env', b, y0, v.snd, s1);
    PairBehindFirst(env', a, b, into, s, s1, Received(env', a, x0, v.fst), Received(env', b, y0, v.snd),
                    Moved(s, |Enc(env, Pair(a, b), v)|));
  }

  lemma PairParts(env: Env, env': Env, opts: Options, depth: nat, a: Ty, b: Ty, into: Val, v: Val)
    requires WfTy(env, Pair(a, b)) && Fits(env, env', opts, depth, Pair(a, b), v)
    ensures v.VPair? && WfTy(env, a) && WfTy(env, b)
    ensures Fits(env, env', opts, depth, a, v.fst) && Fits(env, env', opts, depth, b, v.snd)
    ensures Enc(env, Pair(a, b), v) == Enc(env, a, v.fst) + Enc(env, b, v.snd)
    ensures var (x0, y0) := PartsOf(env', a, b, into);
            Received(env', Pair(a, b), into, v) == VPair(Received(env', a, x0, v.fst), Received(env', b, y0, v.snd))
  {
  }

  lemma ObjectArrives(env: Env, env': Env, id: string, into: Val, v: Val, s: RState)
    requires Readable(env, env', Obj(id), v, s) && HasAt(s.data, s.pos, Enc(env, Obj(id), v))
    ensures Arrives(env, env', Obj(id), into, v, s)
    decreases v, 0
  {
    var c, c' := ClassOf(env, id), ClassOf(env', id);
    ObjectParts(env, env', s.opts, s.depth, id, into, v);
    var s1 := MovedOver(s, LE(|v.fields|, 1), EncAll(env, c.members, v.fields));
    ReadHeaderAt(s, |v.fields|);
    ObjectIsRead(env', id, into, s);
    if c'.members != [] {
      var s2 := s1.(depth := s.depth + 1);
      FieldsArrive(env, env', Obj(id), c.members, c', FieldsOf(c', into), v.fields, s, s2, s.pos + |Enc(env, Obj(id), v)|);
    }
  }

  lemma ObjectIsRead(env: Env, id: string, into: Val, s: RState)
    ensures Dec(env, Obj(id), into, s) == DecObject(env, Obj(id), ClassOf(env, id), FieldsOf(ClassOf(env, id), into), s)
  {
  }

  lemma ObjectParts(env: Env, env': Env, opts: Options, depth: nat, id: string, into: Val, v: Val)
    requires WfEnv(env) && WfTy(env, Obj(id)) && Fits(env, env', opts, depth, Obj(id), v)
    ensures v.VObj? && |v.fields| == |ClassOf(env, id).members| <= MAX_MEMBER_COUNT && WfAll(env, ClassOf(env, id).members)
    ensures FitsAll(env, env', opts, depth + 1, ClassOf(env, id).members, v.fields)
    ensures Enc(env, Obj(id), v) == LE(|v.fields|, 1) + EncAll(env, ClassOf(env, id).members, v.fields)
    ensures var c' := ClassOf(env', id);
            Received(env', Obj(id), into, v) == VObj(ReceivedAll(env', c'.members, FieldsOf(c', into), v.fields))
  {
    FitsAllLength(env, env', opts, depth + 1, ClassOf(env, id).members, v.fields);
  }

  /** The members behind the header, one level deeper. */
  lemma FieldsArrive(env: Env, env': Env, t: Ty, ts: seq<Ty>, c': Class, ds: seq<Val>, vs: seq<Val>, s: RState, s1: RState,
                     end: nat)
    requires |ds| == |c'.members| && ts <= c'.members && c'.members != [] && s.depth < s.opts.maxDepth
    requires s.pos < |s.data| && ReadObjectHeader(s) == (Header(|vs|, false), Moved(s, 1))
    requires s1 == Moved(s, 1).(depth := s.depth + 1) && AllAt(env, env', ts, vs, s1, end)
    ensures end <= |s.data| && DecObject(env', t, c', ds, s) == (VObj(ReceivedAll(env', c'.members, ds, vs)), s.(pos := end))
    decreases vs, 2
  {
    AllArrive(env, env', ts, c'.members, ds, vs, s1, end);
    var fields := ReceivedAll(env', c'.members, ds, vs);
    ObjectBehindHeader(env', t, c', ds, s, Header(|vs|, false), Moved(s, 1), fields, s1.(pos := end));
    assert Leave(s1.(pos := end)) == s.(pos := end);
  }

  lemma {:induction false} FitsAllLength(env: Env, env': Env, opts: Options, depth: nat, ts: seq<Ty>, vs: seq<Val>)
    requires FitsAll(env, env', opts, depth, ts, vs)
    ensures |ts| == |vs|
    decreases vs
  {
    if vs != [] && ts != [] {
      FitsAllLength(env, env', opts, depth, ts[1..], vs[1..]);
    }
  }

  /** Members with these values are next and end before `end`. */
  predicate AllAt(env: Env, env': Env, ts: seq<Ty>, vs: seq<Val>, s: RState, end: nat)
  {
    && s.Ok() && WfEnv(env) && Extends(env, env') && WfAll(env, ts) && FitsAll(env, env', s.opts, s.depth, ts, vs)
    && HasAt(s.data, s.pos, EncAll(env, ts, vs)) && s.pos + |EncAll(env, ts, vs)| == end
  }

  /** The members of an object or tuple; the reader's list may be longer than the writer's. */
  lemma {:induction false} AllArrive(env: Env, env': Env, ts: seq<Ty>, ts': seq<Ty>, ds: seq<Val>, vs: seq<Val>, s: RState,
                                      end: nat)
    requires ts <= ts' && |ds| == |ts'| && AllAt(env, env', ts, vs, s, end)
    ensures end <= |s.data| && DecAll(env', ts', ds, |vs|, s) == (ReceivedAll(env', ts', ds, vs), s.(pos := end))
    decreases vs, 1
  {
    if vs != [] {
      var s1 := FirstMemberArrives(env, env', ts, ds[0], vs, s, end);
      AllArrive(env, env', ts[1..], ts'[1..], ds[1..], vs[1..], s1, end);
      assert s1.(pos := end) == s.(pos := end);
      AllBehindFirst(env', ts', ds, |vs|, s, Received(env', ts[0], ds[0], vs[0]), s1,
                     ReceivedAll(env', ts'[1..], ds[1..], vs[1..]), s.(pos := end));
    }
  }

  lemma FirstMemberArrives(env: Env, env': Env, ts: seq<Ty>, into: Val, vs: seq<Val>, s: RState, end: nat) returns (s1: RState)
    requires AllAt(env, env', ts, vs, s, end) && vs != []
    ensures ts != [] && Dec(env', ts[0], into, s) == (Received(env', ts[0], into, vs[0]), s1) && s1 == s.(pos := s1.pos)
    ensures AllAt(env, env', ts[1..], vs[1..], s1, end)
    decreases vs, 0
  {
    AllParts(env, env', s.opts, s.depth, ts, vs);
    s1 := MovedOver(s, Enc(env, ts[0], vs[0]), EncAll(env, ts[1..], vs[1..]));
    DecOfEnc(env, env', ts[0], into, vs[0], s);
  }

  lemma AllParts(env: Env, env': Env, opts: Options, depth: nat, ts: seq<Ty>, vs: seq<Val>)
    requires vs != [] && WfAll(env, ts) && FitsAll(env, env', opts, depth, ts, vs)
    ensures ts != [] && WfTy(env, ts[0]) && WfAll(env, ts[1..])
    ensures Fits(env, env', opts, depth, ts[0], vs[0]) && FitsAll(env, env', opts, depth, ts[1..], vs[1..])
    ensures EncAll(env, ts, vs) == Enc(env, ts[0], vs[0]) + EncAll(env, ts[1..], vs[1..])
  {
    assert ts[0] in ts;
  }

  /** Elements with these values are next and end before `end`. */
  predicate EachAt(env: Env, env': Env, e: Ty, vs: seq<Val>, s: RState, end: nat)
  {
    && s.Ok() && WfEnv(env) && Extends(env, env') && WfTy(env, e) && FitsEach(env, env', s.opts, s.depth, e, vs)
    && HasAt(s.data, s.pos, EncEach(env, e, vs)) && s.pos + |EncEach(env, e, vs)| == end
  }

  /** The elements of a collection. */
  lemma {:induction false} EachArrive(env: Env, env': Env, e: Ty, vs: seq<Val>, s: RState, end: nat)
    requires EachAt(env, env', e, vs, s, end)
    ensures end <= |s.data| && DecEach(env', e, |vs|, s) == (ReceivedEach(env', e, vs), s.(pos := end))
    decreases vs, 1
  {
    if vs != [] {
      var s1 := FirstArrives(env, env', e, vs, s, end);
      EachArrive(env, env', e, vs[1..], s1, end);
      assert s1.(pos := end) == s.(pos := end);
      EachBehindFirst(env', e, |vs|, s, Received(env', e, Default(env', e), vs[0]), s1, ReceivedEach(env', e, vs[1..]),
                      s.(pos := end));
    }
  }

  lemma FirstArrives(env: Env, env': Env, e: Ty, vs: seq<Val>, s: RState, end: nat) returns (s1: RState)
    requires EachAt(env, env', e, vs, s, end) && vs != []
    ensures Dec(env', e, Default(env', e), s) == (Received(env', e, Default(env', e), vs[0]), s1) && s1 == s.(pos := s1.pos)
    ensures EachAt(env, env', e, vs[1..], s1, end)
    decreases vs, 0
  {
    EachParts(env, env', s.opts, s.depth, e, vs);
    s1 := MovedOver(s, Enc(env, e, vs[0]), EncEach(env, e, vs[1..]));
    DecOfEnc(env, env', e, Default(env', e), vs[0], s);
  }

  lemma EachParts(env: Env, env': Env, opts: Options, depth: nat, e: Ty, vs: seq<Val>)
    requires vs != [] && FitsEach(env, env', opts, depth, e, vs)
    ensures Fits(env, env', opts, depth, e, vs[0]) && FitsEach(env, env', opts, depth, e, vs[1..])
    ensures EncEach(env, e, vs) == Enc(env, e, vs[0]) + EncEach(env, e, vs[1..])
  {
  }

  lemma ItemsArrive(env: Env, env': Env, t: Ty, e: Ty, min: nat, vs: seq<Val>, s: RState, end: nat)
    requires s.pos + 4 <= |s.data| && EachAt(env, env', e, vs, Moved(s, 4), end)
    requires FitsLength(s.opts, vs) && min <= Least(e) && HasAt(s.data, s.pos, LE(|vs|, 4))
    ensures end <= |s.data| && DecItems(env', t, e, min, s) == (ReceivedEach(env', e, vs), s.(pos := end))
    decreases vs, 4
  {
    LengthArrives(env, env', e, min, vs, s);
    EachArrive(env, env', e, vs, Moved(s, 4), end);
    ItemsBehindLength(env', t, e, min, |vs|, s, Moved(s, 4), ReceivedEach(env', e, vs), s.(pos := end));
  }

  /** The plausibility check of the length lets every real encoding pass. */
  lemma LengthArrives(env: Env, env': Env, e: Ty, min: nat, vs: seq<Val>, s: RState)
    requires s.Ok() && WfTy(env, e) && min <= Least(e)
    requires FitsLength(s.opts, vs) && FitsEach(env, env', s.opts, s.depth, e, vs)
    requires HasAt(s.data, s.pos, LE(|vs|, 4)) && HasAt(s.data, s.pos + 4, EncEach(env, e, vs))
    ensures ReadCollectionLength(s, min) == (|vs|, Moved(s, 4))
  {
    EncEachAtLeast(env, env', s.opts, s.depth, e, min, vs);
    ReadLengthAt(s, |vs|, min);
  }

  lemma CollectionArrives(env: Env, env': Env, t: Ty, into: Val, v: Val, s: RState)
    requires Readable(env, env', t, v, s) && HasAt(s.data, s.pos, Enc(env, t, v)) && IsCollection(t)
    ensures Arrives(env, env', t, into, v, s)
    decreases v, 0
  {
    CollectionParts(env, env', s.opts, s.depth, t, into, v);
    var vs, end := v.elems, s.pos + |Enc(env, t, v)|;
    CollectionItemsArrive(env, env', t, vs, s, end);
    CollectionBehindItems(env', t, into, s, ReceivedEach(env', ElemOf(t), vs), s.(pos := end));
  }

  lemma CollectionItemsArrive(env: Env, env': Env, t: Ty, vs: seq<Val>, s: RState, end: nat)
    requires s.Ok() && WfEnv(env) && Extends(env, env') && WfTy(env, t) && IsCollection(t)
    requires FitsLength(s.opts, vs) && FitsEach(env, env', s.opts, s.depth, ElemOf(t), vs)
    requires var bs := LE(|vs|, 4) + EncEach(env, ElemOf(t), vs); HasAt(s.data, s.pos, bs) && end == s.pos + |bs|
    ensures end <= |s.data|
    ensures DecItems(env', t, ElemOf(t), MinElementOf(t), s) == (ReceivedEach(env', ElemOf(t), vs), s.(pos := end))
    decreases vs, 5
  {
    MinimumFits(env, t);
    ElementsFollow(env, env', ElemOf(t), vs, s, end);
    ItemsArrive(env, env', t, ElemOf(t), MinElementOf(t), vs, s, end);
  }

  lemma ElementsFollow(env: Env, env': Env, e: Ty, vs: seq<Val>, s: RState, end: nat)
    requires s.Ok() && WfEnv(env) && Extends(env, env') && WfTy(env, e) && FitsEach(env, env', s.opts, s.depth, e, vs)
    requires HasAt(s.data, s.pos, LE(|vs|, 4) + EncEach(env, e, vs)) && end == s.pos + |LE(|vs|, 4) + EncEach(env, e, vs)|
    ensures HasAt(s.data, s.pos, LE(|vs|, 4)) && s.pos + 4 <= |s.data| && EachAt(env, env', e, vs, Moved(s, 4), end)
  {
    var s1 := MovedOver(s, LE(|vs|, 4), EncEach(env, e, vs));
  }

  lemma CollectionParts(env: Env, env': Env, opts: Options, depth: nat, t: Ty, into: Val, v: Val)
    requires IsCollection(t) && Fits(env, env', opts, depth, t, v)
    ensures v.VList? && FitsLength(opts, v.elems) && FitsEach(env, env', opts, depth, ElemOf(t), v.elems)
    ensures Enc(env, t, v) == LE(|v.elems|, 4) + EncEach(env, ElemOf(t), v.elems)
    ensures Received(env', t, into, v) == Collect(env', t, ReceivedEach(env', ElemOf(t), v.elems))
  {
  }

  lemma MinimumFits(env: Env, t: Ty)
    requires WfTy(env, t) && IsCollection(t)
    ensures WfTy(env, ElemOf(t)) && MinElementOf(t) <= Least(ElemOf(t))
  {
    match t
    case Sequence(e, _) => LeastPositive(env, e);
    case Set(e) => LeastPositive(env, e);
    case Map(k, e) =>
      LeastPositive(env, k);
      LeastPositive(env, e);
    case Arr(e, _) => LeastPositive(env, e);
  }

  lemma TupleArrives(env: Env, env': Env, ts: seq<Ty>, into: Val, v: Val, s: RState)
    requires Readable(env, env', Tuple(ts), v, s) && HasAt(s.data, s.pos, Enc(env, Tuple(ts), v))
    ensures Arrives(env, env', Tuple(ts), into, v, s)
    decreases v, 0
  {
    TupleParts(env, env', s.opts, s.depth, ts, into, v);
    var s1 := MovedOver(s, LE(|ts|, 1), EncAll(env, ts, v.items));
    ReadHeaderAt(s, |ts|);
    TupleItemsArrive(env, env', ts, into, v.items, s, s1, s.pos + |Enc(env, Tuple(ts), v)|);
  }

  lemma TupleItemsArrive(env: Env, env': Env, ts: seq<Ty>, into: Val, vs: seq<Val>, s: RState, s1: RState, end: nat)
    requires |vs| == |ts| && ReadObjectHeader(s) == (Header(|vs|, false), s1) && s1 == s.(pos := s1.pos)
    requires AllAt(env, env', ts, vs, s1, end)
    ensures end <= |s.data|
    ensures Dec(env', Tuple(ts), into, s) == (VTuple(ReceivedAll(env', ts, DefaultAll(env', ts), vs)), s.(pos := end))
    decreases vs, 2
  {
    var ds := DefaultAll(env', ts);
    AllArrive(env, env', ts, ts, ds, vs, s1, end);
    TupleBehindHeader(env', ts, into, s, Header(|vs|, false), s1, ReceivedAll(env', ts, ds, vs), s.(pos := end));
  }

  lemma TupleParts(env: Env, env': Env, opts: Options, depth: nat, ts: seq<Ty>, into: Val, v: Val)
    requires WfTy(env, Tuple(ts)) && Fits(env, env', opts, depth, Tuple(ts), v)
    ensures v.VTuple? && |v.items| == |ts| <= MAX_MEMBER_COUNT && WfAll(env, ts)
    ensures FitsAll(env, env', opts, depth, ts, v.items)
    ensures Enc(env, Tuple(ts), v) == LE(|ts|, 1) + EncAll(env, ts, v.items)
    ensures Received(env', Tuple(ts), into, v) == VTuple(ReceivedAll(env', ts, DefaultAll(env', ts), v.items))
  {
    FitsAllLength(env, env', opts, depth, ts, v.items);
  }

  /** NullMarked says what the first byte is. */
  lemma {:induction false} FirstByte(env: Env, env': Env, opts: Options, depth: nat, t: Ty, v: Val)
    requires WfEnv(env) && WfTy(env, t) && Fits(env, env', opts, depth, t, v)
    ensures var bs := Enc(env, t, v); bs != [] && (bs[0] == NULL_OBJECT <==> NullMarked(t, v))
    decreases v
  {
    if IsLeaf(t) || IsCollection(t) {
      FirstByteOfPlain(env, env', opts, depth, t, v);
    } else if t.Union? {
      FirstByteOfUnion(env, env', opts, depth, t.tags, t.alts, v);
    } else if t.Tuple? {
      FirstByteOfTuple(env, env', opts, depth, t.items, v);
    } else if t.Obj? {
      FirstByteOfObject(env, env', opts, depth, t.id, v);
    } else if t.Pair? {
      FirstByte(env, env', opts, depth, t.first, v.fst);
    } else if v.VSome? {
      FirstByte(env, env', opts, depth, t.inner, v.val);
      FirstByteOfSome(env, env', opts, depth, t.inner, v.val);
    }
  }

  lemma FirstByteOfUnion(env: Env, env': Env, opts: Options, depth: nat, tags: seq<nat>, alts: seq<Ty>, v: Val)
    requires WfEnv(env) && WfTy(env, Union(tags, alts)) && Fits(env, env', opts, depth, Union(tags, alts), v)
    ensures var bs := Enc(env, Union(tags, alts), v); bs != [] && bs[0] != NULL_OBJECT && !NullMarked(Union(tags, alts), v)
  {
    UnionParts(env, env', opts, depth, tags, alts, v);
    HeaderFirst(UnionHeader(v.tag), Enc(env, alts[FindTag(tags, v.tag)], v.alt), Enc(env, Union(tags, alts), v));
  }

  lemma FirstByteOfTuple(env: Env, env': Env, opts: Options, depth: nat, ts: seq<Ty>, v: Val)
    requires WfEnv(env) && WfTy(env, Tuple(ts)) && Fits(env, env', opts, depth, Tuple(ts), v)
    ensures var bs := Enc(env, Tuple(ts), v); bs != [] && bs[0] != NULL_OBJECT && !NullMarked(Tuple(ts), v)
  {
    TupleParts(env, env', opts, depth, ts, VNull, v);
    HeaderFirst(LE(|ts|, 1), EncAll(env, ts, v.items), Enc(env, Tuple(ts), v));
  }

  lemma FirstByteOfObject(env: Env, env': Env, opts: Options, depth: nat, id: string, v: Val)
    requires WfEnv(env) && WfTy(env, Obj(id)) && Fits(env, env', opts, depth, Obj(id), v)
    ensures var bs := Enc(env, Obj(id), v); bs != [] && bs[0] != NULL_OBJECT && !NullMarked(Obj(id), v)
  {
    ObjectParts(env, env', opts, depth, id, VNull, v);
    HeaderFirst(LE(|v.fields|, 1), EncAll(env, ClassOf(env, id).members, v.fields), Enc(env, Obj(id), v));
  }

  lemma HeaderFirst(header: bytes, body: bytes, bs: bytes)
    requires bs == header + body && header != [] && header[0] != NULL_OBJECT
    ensures bs != [] && bs[0] != NULL_OBJECT
  {
  }

  lemma FirstByteOfPlain(env: Env, env': Env, opts: Options, depth: nat, t: Ty, v: Val)
    requires WfTy(env, t) && Fits(env, env', opts, depth, t, v) && (IsLeaf(t) || IsCollection(t))
    ensures var bs := Enc(env, t, v); bs != [] && (bs[0] == NULL_OBJECT <==> NullMarked(t, v))
  {
    if t.Str? {
      FirstByteOfString(v.utf8);
    }
  }

  lemma FirstByteOfSome(env: Env, env': Env, opts: Options, depth: nat, i: Ty, x: Val)
    requires Fits(env, env', opts, depth, i, x) && Enc(env, i, x) != []
    ensures Enc(env, Ptr(i), VSome(x)) == Enc(env, i, x)
    ensures !IsValueType(i) ==> Enc(env, Opt(i), VSome(x)) == Enc(env, i, x)
    ensures IsValueType(i) ==> Enc(env, Opt(i), VSome(x))[..1] == [1]
  {
    if IsValueType(i) {
      PayloadSize(env, env', opts, depth, i, x);
    }
  }

  lemma FirstByteOfString(text: bytes)
    requires |text| <= INT32_MAX
    ensures StringBytes(text)[0] == NULL_OBJECT <==> text != [] && |text| % 256 == 0
  {
    if text != [] {
      Complement(|text|);
      assert StringBytes(text)[0] == FromInt32(-1 - |text|) % 256;
    }
  }

  lemma Complement(n: nat)
    requires 0 < n <= INT32_MAX
    ensures FromInt32(-1 - n) % 256 == 255 - n % 256
  {
    var q, r := n / 256, n % 256;
    assert FromInt32(-1 - n) == 0xFFFF_FFFF - n == 256 * (0xFF_FFFF - q) + (255 - r);
  }

  /**
   A nullable whose null is a 0xFF byte: what was written comes back exactly if the first byte
   written is not 0xFF; otherwise null is read and all but one byte are left unread.
   */
  lemma SomeArrives(env: Env, env': Env, i: Ty, x: Val, s: RState)
    requires Readable(env, env', i, x, s) && HasAt(s.data, s.pos, Enc(env, i, x))
    ensures 1 <= |Enc(env, i, x)| <= s.Remaining()
    ensures DecNullable(env', i, s) ==
            if NullMarked(i, x) then (VNull, Moved(s, 1))
            else (VSome(Received(env', i, Default(env', i), x)), Moved(s, |Enc(env, i, x)|))
    decreases x, 4
  {
    var bs := Enc(env, i, x);
    FirstByte(env, env', s.opts, s.depth, i, x);
    assert bs[0] == s.data[s.pos..s.pos + |bs|][0] == s.data[s.pos];
    DecOfEnc(env, env', i, Default(env', i), x, s);
  }

  /** A pointer to any string of 256 bytes is read as null. */
  lemma StringPointerMisread(env: Env, text: bytes, into: Val, s: RState)
    requires |text| == 256 && s.Ok() && s.opts.maxStringLength >= 256
    requires HasAt(s.data, s.pos, Enc(env, Ptr(Str), VSome(VStr(text))))
    ensures s.pos < |s.data| && Dec(env, Ptr(Str), into, s) == (VNull, Moved(s, 1))
  {
    var bs := StringBytes(text);
    assert Enc(env, Ptr(Str), VSome(VStr(text))) == bs;
    FirstByteOfString(text);
    assert s.data[s.pos] == s.data[s.pos..s.pos + |bs|][0];
  }

  lemma NullArrives(env: Env, i: Ty, s: RState)
    requires s.Ok() && HasAt(s.data, s.pos, [NULL_OBJECT])
    ensures DecNullable(env, i, s) == (VNull, Moved(s, 1))
  {
    assert s.data[s.pos] == s.data[s.pos..s.pos + 1][0];
  }

  lemma NullableArrives(env: Env, env': Env, i: Ty, into: Val, v: Val, s: RState)
    requires Readable(env, env', Ptr(i), v, s) && HasAt(s.data, s.pos, Enc(env, Ptr(i), v))
    ensures Arrives(env, env', Ptr(i), into, v, s)
    decreases v, 0
  {
    if v.VSome? {
      SomeArrives(env, env', i, v.val, s);
    } else {
      NullArrives(env', i, s);
    }
  }

  lemma UnionArrives(env: Env, env': Env, tags: seq<nat>, alts: seq<Ty>, into: Val, v: Val, s: RState)
    requires Readable(env, env', Union(tags, alts), v, s) && HasAt(s.data, s.pos, Enc(env, Union(tags, alts), v))
    ensures Arrives(env, env', Union(tags, alts), into, v, s)
    decreases v, 0
  {
    UnionParts(env, env', s.opts, s.depth, tags, alts, v);
    var i, head := FindTag(tags, v.tag), UnionHeader(v.tag);
    var body := Enc(env, alts[i], v.alt);
    var s1 := MovedOver(s, head, body);
    ReadUnionHeaderAt(s, v.tag);
    var d := Default(env', alts[i]);
    DecOfEnc(env, env', alts[i], d, v.alt, s1);
    UnionBehindHeader(env', tags, alts, into, v.tag, s, s1, Received(env', alts[i], d, v.alt), Moved(s1, |body|));
  }

  lemma UnionParts(env: Env, env': Env, opts: Options, depth: nat, tags: seq<nat>, alts: seq<Ty>, v: Val)
    requires WfTy(env, Union(tags, alts)) && Fits(env, env', opts, depth, Union(tags, alts), v)
    ensures v.VUnion? && v.tag < 0x1_0000 && |tags| == |alts|
    ensures var i := FindTag(tags, v.tag);
            && i < |alts| && WfTy(env, alts[i]) && Fits(env, env', opts, depth, alts[i], v.alt)
            && Enc(env, Union(tags, alts), v) == UnionHeader(v.tag) + Enc(env, alts[i], v.alt)
  {
    var i := FindTag(tags, v.tag);
    assert tags[i] in tags && alts[i] in alts;
  }

  lemma OptionalArrives(env: Env, env': Env, i: Ty, into: Val, v: Val, s: RState)
    requires Readable(env, env', Opt(i), v, s) && HasAt(s.data, s.pos, Enc(env, Opt(i), v))
    ensures Arrives(env, env', Opt(i), into, v, s)
    decreases v, 2
  {
    if v.VSome? {
      SomeOptionalArrives(env, env', i, v.val, s);
    } else {
      NoneArrives(env', i, s);
    }
  }

  lemma NoneArrives(env: Env, i: Ty, s: RState)
    requires s.Ok() && HasAt(s.data, s.pos, NullBytes(i))
    ensures DecOptional(env, i, s) == (VNull, Moved(s, |NullBytes(i)|))
  {
    match NullEncoding(i)
    case NullableValue => NoFlag(env, i, NullBytes(i), s);
    case StringNull => ReadInt32At(s, -1);
    case CollectionNull => ReadInt32At(s, -1);
    case ObjectNull => NullArrives(env, i, s);
  }

  lemma NoFlag(env: Env, i: Ty, bs: bytes, s: RState)
    requires s.Ok() && IsValueType(i) && |bs| == NullableSize(i) && HasAt(s.data, s.pos, bs) && bs[0] == 0
    ensures DecOptional(env, i, s) == (VNull, Moved(s, |bs|))
  {
    assert ReadBytes(s, |bs|) == (bs, Moved(s, |bs|));
  }

  lemma SomeOptionalArrives(env: Env, env': Env, i: Ty, x: Val, s: RState)
    requires Readable(env, env', Opt(i), VSome(x), s) && HasAt(s.data, s.pos, Enc(env, Opt(i), VSome(x)))
    ensures var bs := Enc(env, Opt(i), VSome(x));
            && s.pos + |bs| <= |s.data|
            && DecOptional(env', i, s) == (VSome(Received(env', i, Default(env', i), x)), Moved(s, |bs|))
    decreases x, 5
  {
    match NullEncoding(i)
    case NullableValue => SomeValueArrives(env, env', i, x, s);
    case StringNull => SomeStringArrives(env, env', x, s);
    case CollectionNull =>
      CollectionHeader(env, env', i, x, s);
      DecOfEnc(env, env', i, Default(env', i), x, s);
    case ObjectNull => SomeArrives(env, env', i, x, s);
  }

  lemma SomeStringArrives(env: Env, env': Env, x: Val, s: RState)
    requires s.Ok() && Fits(env, env', s.opts, s.depth, Str, x) && HasAt(s.data, s.pos, Enc(env, Str, x))
    ensures s.pos + |Enc(env, Str, x)| <= |s.data|
    ensures DecOptional(env', Str, s) == (VSome(x), Moved(s, |Enc(env, Str, x)|))
  {
    ReadStringAt(s, x.utf8);
  }

  /** A collection or UTF-16 string starts with a length that is not the null marker. */
  lemma CollectionHeader(env: Env, env': Env, i: Ty, v: Val, s: RState)
    requires Readable(env, env', i, v, s) && HasAt(s.data, s.pos, Enc(env, i, v)) && NullEncoding(i).CollectionNull?
    ensures s.Remaining() >= 4 && ReadInt32(s).0 >= 0
  {
    if i.Str16? {
      HasAtSplit(s.data, s.pos, LE(|v.utf16|, 4), UnitsLE(v.utf16));
      LengthNotNull(s, |v.utf16|);
    } else {
      HasAtSplit(s.data, s.pos, LE(|v.elems|, 4), EncEach(env, ElemOf(i), v.elems));
      LengthNotNull(s, |v.elems|);
    }
  }

  lemma SomeValueArrives(env: Env, env': Env, i: Ty, x: Val, s: RState)
    requires s.Ok() && IsValueType(i) && WfTy(env, i) && Fits(env, env', s.opts, s.depth, i, x)
    requires HasAt(s.data, s.pos, Enc(env, Opt(i), VSome(x)))
    ensures |Enc(env, Opt(i), VSome(x))| == NullableSize(i) && s.pos + NullableSize(i) <= |s.data|
    ensures DecOptional(env', i, s) == (VSome(Received(env', i, Default(env', i), x)), Moved(s, NullableSize(i)))
  {
    var payload := Enc(env, i, x);
    PayloadSize(env, env', s.opts, s.depth, i, x);
    NullablePayload(i, payload);
    var bs := NullableBytes(i, payload);
    ValueBehindFlag(env', i, bs, s);
    PayloadValue(env, env', s.opts, s.depth, i, x);
  }

  lemma ValueBehindFlag(env: Env, i: Ty, bs: bytes, s: RState)
    requires s.Ok() && IsValueType(i) && |bs| == NullableSize(i) && HasAt(s.data, s.pos, bs) && bs[0] == 1
    ensures DecOptional(env, i, s) ==
            (VSome(ValueOf(i, bs[ValueAlign(i)..ValueAlign(i) + ValueSize(i)])), Moved(s, |bs|))
  {
    assert ReadBytes(s, |bs|) == (bs, Moved(s, |bs|));
  }

  lemma NullablePayload(i: Ty, payload: bytes)
    requires IsValueType(i) && |payload| == ValueSize(i)
    ensures var bs, a := NullableBytes(i, payload), ValueAlign(i);
            bs[0] == 1 && bs[a..a + |payload|] == payload
  {
  }

  lemma PayloadSize(env: Env, env': Env, opts: Options, depth: nat, i: Ty, x: Val)
    requires IsValueType(i) && Fits(env, env', opts, depth, i, x)
    ensures |Enc(env, i, x)| == ValueSize(i)
  {
  }

  lemma PayloadValue(env: Env, env': Env, opts: Options, depth: nat, i: Ty, x: Val)
    requires IsValueType(i) && Fits(env, env', opts, depth, i, x) && |Enc(env, i, x)| == ValueSize(i)
    ensures ValueOf(i, Enc(env, i, x)) == Received(env', i, Default(env', i), x)
  {
    if i.Prim? {
      FromLEOfLE(x.bits, i.width);
    }
  }
}
