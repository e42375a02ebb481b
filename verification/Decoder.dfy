/**
 What MemoryPackReader does, as functions on its state: position, nesting depth and the first error.

 Fail records an error without unwinding, as in the build without exceptions; with exceptions the
 first recorded error is the one thrown, and a value counts only if no error was recorded.
 */
module Decoder {
  import opened Bytes
  import opened Transcode
  import opened Wire

  datatype Options = Options(maxCollectionLength: nat, maxStringLength: nat, maxDepth: nat)

  datatype RState_ = RState(data: bytes, opts: Options, pos: nat, depth: nat, error: MemoryPackError)
  {
    predicate Ok() { error == NoError }

    function Remaining(): (n: int) { |data| - pos }

    predicate PeekIsNull() { pos < |data| && data[pos] == NULL_OBJECT }
  }

  type RState = s: RState_ | s.pos <= |s.data| witness RState([], Options(0, 0, 0), 0, 0, NoError)

  /**
   `r` is a later state of the same reader: after an error the position and the error stay as they
   are, and without one the nesting depth is what it was.
   */
  predicate Follows(s: RState, r: RState)
  {
    && r.data == s.data && r.opts == s.opts && s.pos <= r.pos
    && (!s.Ok() ==> r.pos == s.pos && r.error == s.error)
    && (r.Ok() ==> r.depth == s.depth)
  }

  function Fail(s: RState, e: MemoryPackError): (r: RState)
    requires e != NoError
    ensures Follows(s, r) && !r.Ok()
  {
    if s.Ok() then s.(error := e) else s
  }

  /** EnsureBytes: the state after the check; the bytes are there exactly if it is error-free. */
  function Ensure(s: RState, n: nat): (r: RState)
    ensures Follows(s, r) && (r.Ok() ==> r == s && s.pos + n <= |s.data|)
  {
    if s.Ok() && n > s.Remaining() then Fail(s, BufferUnderflow) else s
  }

  function Advance(s: RState, n: nat): (r: RState)
    ensures Follows(s, r)
  {
    var s1 := Ensure(s, n);
    if s1.Ok() then s1.(pos := s1.pos + n) else s1
  }

  /** Seek looks only at the target, not at an earlier error. */
  function Seek(s: RState, position: nat): (r: RState)
    ensures r.data == s.data && r.opts == s.opts && r.depth == s.depth && (!s.Ok() ==> r.error == s.error)
  {
    if position > |s.data| then Fail(s, BufferUnderflow) else s.(pos := position)
  }

  function ReadByte(s: RState): (r: (byte, RState))
    ensures Follows(s, r.1) && (r.1.Ok() ==> r.1.pos == s.pos + 1)
    ensures !r.1.Ok() ==> r.0 == 0
  {
    var s1 := Ensure(s, 1);
    if s1.Ok() then (s1.data[s1.pos], s1.(pos := s1.pos + 1)) else (0, s1)
  }

  function ReadBytes(s: RState, n: nat): (r: (bytes, RState))
    ensures Follows(s, r.1) && |r.0| == n && (r.1.Ok() ==> r.1.pos == s.pos + n)
  {
    var s1 := Ensure(s, n);
    if s1.Ok() then (s1.data[s1.pos..s1.pos + n], s1.(pos := s1.pos + n)) else (Zeros(n), s1)
  }

  /** ReadRaw of a `w`-byte little-endian integer; 0 on failure. */
  function ReadRaw(s: RState, w: nat): (r: (nat, RState))
    ensures Follows(s, r.1) && (r.1.Ok() ==> r.1.pos == s.pos + w)
    ensures r.0 < Pow256(w) && (!r.1.Ok() ==> r.0 == 0)
  {
    var s1 := Ensure(s, w);
    if s1.Ok() then (FromLE(s1.data[s1.pos..s1.pos + w]), s1.(pos := s1.pos + w)) else (0, s1)
  }

  function ReadInt32(s: RState): (r: (int, RState))
    ensures Follows(s, r.1) && (r.1.Ok() ==> r.1.pos == s.pos + 4)
    ensures r.0 <= INT32_MAX && (!r.1.Ok() ==> r.0 == 0)
  {
    Pow256Small();
    var r := ReadRaw(s, 4);
    (ToInt32(r.0), r.1)
  }

  datatype Header = Header(count: nat, isNull: bool)

  function ReadObjectHeader(s: RState): (r: (Header, RState))
    ensures Follows(s, r.1) && (r.1.Ok() ==> r.1.pos == s.pos + 1)
    ensures r.0.count > 0 ==> r.1.Ok()
  {
    var (b, s1) := ReadByte(s);
    if b == NULL_OBJECT then (Header(0, true), s1)
    else if b > MAX_MEMBER_COUNT then (Header(0, true), Fail(s1, InvalidHeader))
    else (Header(b, false), s1)
  }

  /** A collection length that is plausible for elements of at least `min` bytes; -1 for null or an error. */
  function ReadCollectionLength(s: RState, min: nat): (r: (int, RState))
    ensures Follows(s, r.1) && (r.1.Ok() ==> r.1.pos == s.pos + 4)
    ensures r.0 > 0 ==> r.1.Ok() && r.0 <= r.1.opts.maxCollectionLength && r.0 * min <= r.1.Remaining()
    ensures r.0 <= INT32_MAX
  {
    var (len, s1) := ReadInt32(s);
    if len < 0 then (-1, if len != -1 then Fail(s1, LengthLimit) else s1)
    else if len > s1.opts.maxCollectionLength then (-1, Fail(s1, LengthLimit))
    else if len * min > s1.Remaining() then (-1, Fail(s1, LengthLimit))
    else (len, s1)
  }

  /** The reader compares with a quotient instead of multiplying. */
  lemma PlausibleByDivision(n: nat, min: nat, left: nat)
    requires min > 0
    ensures n > left / min <==> n * min > left
  {
    var q := left / min;
    assert left == q * min + left % min;
    if n <= q {
      assert n * min <= q * min;
    } else {
      assert n * min >= (q + 1) * min;
    }
  }

  datatype MaybeTag = NullUnion | Tag(tag: nat)

  function ReadUnionHeader(s: RState): (r: (MaybeTag, RState))
    ensures Follows(s, r.1) && (r.1.Ok() ==> r.1.pos > s.pos)
  {
    var (b, s1) := ReadByte(s);
    if b == NULL_OBJECT then (NullUnion, s1)
    else if b == WIDE_TAG then
      var (tag, s2) := ReadRaw(s1, 2);
      (Tag(tag), s2)
    else if b > WIDE_TAG then (NullUnion, Fail(s1, InvalidHeader))
    else (Tag(b), s1)
  }

  function ReadVarIntLength(s: RState): (r: (nat, RState))
    ensures Follows(s, r.1)
  {
    var (b, s1) := ReadByte(s);
    if b <= 127 then (b, s1)
    else if b == 0x84 then ReadRaw(s1, 2)
    else if b == 0x82 then ReadRaw(s1, 4)
    else (0, Fail(s1, InvalidHeader))
  }

  // -- Strings -----------------------------------------------------------------------------

  /** CheckStringLength does not look at an earlier error. */
  function CheckStringLength(s: RState, n: nat, unitSize: nat): (r: (bool, RState))
    requires unitSize > 0
    ensures Follows(s, r.1) && (r.0 ==> r.1 == s) && (!r.0 ==> !r.1.Ok())
  {
    if n > s.opts.maxStringLength || n * unitSize > s.Remaining() then (false, Fail(s, LengthLimit)) else (true, s)
  }

  /** The code units stored in `bs`. */
  function UnitsOfLE(bs: bytes): (u: units)
    ensures |u| == |bs| / 2
  {
    if |bs| < 2 then []
    else
      var lo: int, hi: int := bs[0], bs[1];
      [lo + 256 * hi] + UnitsOfLE(bs[2..])
  }

  function ReadUtf16String(s: RState, n: nat): (r: (bytes, RState))
    ensures Follows(s, r.1) && (r.1.Ok() ==> r.1.pos == s.pos + 2 * n)
  {
    var (ok, s1) := CheckStringLength(s, n, 2);
    var s2 := Ensure(s1, 2 * n);
    if !ok then ([], s1)
    else if !s2.Ok() then ([], s2)
    else (Utf16ToUtf8(UnitsOfLE(s2.data[s2.pos..s2.pos + 2 * n])), s2.(pos := s2.pos + 2 * n))
  }

  /** The UTF-8 form behind its header: the UTF-16 length, which is not needed, and the bytes. */
  function ReadUtf8String(s: RState, n: nat): (r: (bytes, RState))
    ensures Follows(s, r.1)
  {
    var s1 := ReadRaw(s, 4).1;
    var (ok, s2) := CheckStringLength(s1, n, 1);
    var s3 := Ensure(s2, n);
    if !ok then ([], s2)
    else if !s3.Ok() then ([], s3)
    else (s3.data[s3.pos..s3.pos + n], s3.(pos := s3.pos + n))
  }

  datatype MaybeString = NullString | Text(utf8: bytes)

  function ReadString(s: RState): (r: (MaybeString, RState))
    ensures Follows(s, r.1) && (r.1.Ok() ==> r.1.pos >= s.pos + 4)
  {
    var (header, s1) := ReadInt32(s);
    if !s1.Ok() then (Text([]), s1)
    else if header == -1 then (NullString, s1)
    else if header == 0 then (Text([]), s1)
    else if header > 0 then
      var (text, s2) := ReadUtf16String(s1, header);
      (Text(text), s2)
    else
      var (text, s2) := ReadUtf8String(s1, -1 - header);
      (Text(text), s2)
  }

  // -- Default values --------------------------------------------------------------------------

  /** A value-initialized `T{}`. */
  function Default(env: Env, t: Ty): (v: Val)
  {
    match t
    case Prim(_, _) => VInt(0)
    case Bool => VBool(false)
    case Raw(size, _) => VRaw(Zeros(size))
    case Str => VStr([])
    case Str16 => VStr16([])
    case Obj(id) => VObj(ClassOf(env, id).defaults)
    case Sequence(_, _) => VList([])
    case Set(_) => VList([])
    case Map(_, _) => VList([])
    case Arr(e, n) => VList(Copies(Default(env, e), n))
    case Pair(a, b) => VPair(Default(env, a), Default(env, b))
    case Tuple(ts) => VTuple(DefaultAll(env, ts))
    case Opt(_) => VNull
    case Ptr(_) => VNull
    case Union(tags, alts) => if tags == [] || alts == [] then VNull else VUnion(tags[0], Default(env, alts[0]))
  }

  function DefaultAll(env: Env, ts: seq<Ty>): (vs: seq<Val>)
    ensures |vs| == |ts|
  {
    if ts == [] then [] else [Default(env, ts[0])] + DefaultAll(env, ts[1..])
  }

  function Copies(v: Val, n: nat): (vs: seq<Val>)
    ensures |vs| == n
  {
    seq(n, _ => v)
  }

  // -- Containers ------------------------------------------------------------------------------

  /** What a set or map compares: the element itself or the key of the entry. */
  function KeyOf(isMap: bool, v: Val): (k: Val)
  {
    if isMap && v.VPair? then v.fst else v
  }

  predicate HasKey(isMap: bool, entries: seq<Val>, key: Val)
  {
    exists i :: 0 <= i < |entries| && KeyOf(isMap, entries[i]) == key
  }

  predicate UniqueKeys(isMap: bool, entries: seq<Val>)
  {
    forall i, j :: 0 <= i < j < |entries| ==> KeyOf(isMap, entries[i]) != KeyOf(isMap, entries[j])
  }

  /** set::insert or map::emplace of each entry in turn: the first entry of a key stays. */
  function InsertAll(isMap: bool, entries: seq<Val>, vs: seq<Val>): (r: seq<Val>)
    ensures UniqueKeys(isMap, entries) ==> UniqueKeys(isMap, r)
    decreases |vs|
  {
    if vs == [] then entries else InsertAll(isMap, Inserted(isMap, entries, vs[0]), vs[1..])
  }

  function Inserted(isMap: bool, entries: seq<Val>, v: Val): (r: seq<Val>)
    ensures UniqueKeys(isMap, entries) ==> UniqueKeys(isMap, r)
  {
    if HasKey(isMap, entries, KeyOf(isMap, v)) then entries else entries + [v]
  }

  /** std::array<T, n>: the first n elements, the missing ones at their default. */
  function FillArray(vs: seq<Val>, n: nat, default_: Val): (r: seq<Val>)
    ensures |r| == n
  {
    if |vs| >= n then vs[..n] else vs + Copies(default_, n - |vs|)
  }

  /** MinEncodedSize of a vector element. */
  function MinVectorElement(t: Ty): (n: nat)
  {
    match t case Prim(w, _) => w case Str => 4 case _ => 1
  }

  /** The minimum the other growable containers assume. */
  function MinElement(t: Ty): (n: nat)
  {
    match t case Prim(w, _) => w case _ => 1
  }

  /** The minimum element size a collection's length is checked against. */
  function MinElementOf(t: Ty): (n: nat)
    requires IsCollection(t)
  {
    match t
    case Sequence(e, isVector) => if isVector then MinVectorElement(e) else MinElement(e)
    case Set(e) => MinElement(e)
    case Map(k, e) => MinElement(k) + MinElement(e)
    case Arr(e, _) => if IsArithmetic(e) then ValueSize(e) else 1
  }

  /** The container the decoded elements are put into. */
  function Collect(env: Env, t: Ty, vs: seq<Val>): (v: Val)
    requires IsCollection(t)
  {
    match t
    case Sequence(_, _) => VList(vs)
    case Set(_) => VList(InsertAll(false, [], vs))
    case Map(_, _) => VList(InsertAll(true, [], vs))
    case Arr(e, n) => VList(FillArray(vs, n, Default(env, e)))
  }

  function DecLeaf(t: Ty, s: RState): (r: (Val, RState))
    requires IsLeaf(t)
    ensures Follows(s, r.1)
  {
    match t
    case Prim(w, _) =>
      var (n, s1) := ReadRaw(s, w);
      (VInt(n), s1)
    case Bool =>
      var (b, s1) := ReadByte(s);
      (VBool(b != 0), s1)
    case Raw(size, _) =>
      var (bs, s1) := ReadBytes(s, size);
      (VRaw(bs), s1)
    case Str =>
      var (m, s1) := ReadString(s);
      (VStr(if m.Text? then m.utf8 else []), s1)
    case Str16 =>
      var (m, s1) := ReadString(s);
      (VStr16(if m.Text? then Utf8ToUtf16(m.utf8) else []), s1)
  }

  // -- Read<T> ---------------------------------------------------------------------------------

  /** The members of the object that is read into; an object of another shape does not occur. */
  function FieldsOf(c: Class, into: Val): (fields: seq<Val>)
    ensures |fields| == |c.members|
  {
    if into.VObj? && |into.fields| == |c.members| then into.fields else c.defaults
  }

  /** The two values of the pair that is read into. */
  function PartsOf(env: Env, a: Ty, b: Ty, into: Val): (parts: (Val, Val))
  {
    if into.VPair? then (into.fst, into.snd) else (Default(env, a), Default(env, b))
  }

  /** Reads into the value `into`: only objects and pairs keep anything of it. */
  function Dec(env: Env, t: Ty, into: Val, s: RState): (r: (Val, RState))
    ensures Follows(s, r.1)
    decreases s.Remaining(), t, 1
  {
    if IsLeaf(t) then DecLeaf(t, s)
    else if IsCollection(t) then
      var (vs, s1) := DecItems(env, t, ElemOf(t), MinElementOf(t), s);
      (Collect(env, t, vs), s1)
    else
      match t
      case Obj(id) => DecObject(env, t, ClassOf(env, id), FieldsOf(ClassOf(env, id), into), s)
      case Pair(a, b) =>
        var (x0, y0) := PartsOf(env, a, b, into);
        var (x, s1) := Dec(env, a, x0, s);
        var (y, s2) := Dec(env, b, y0, s1);
        (VPair(x, y), s2)
      case Tuple(ts) =>
        var (h, s1) := ReadObjectHeader(s);
        if h.isNull then (Default(env, t), s1)
        else
          var (vs, s2) := DecAll(env, ts, DefaultAll(env, ts), h.count, s1);
          (VTuple(vs), s2)
      case Opt(i) => DecOptional(env, i, s)
      case Ptr(i) => DecNullable(env, i, s)
      case Union(tags, alts) =>
        var (m, s1) := ReadUnionHeader(s);
        if m.NullUnion? then (Default(env, t), s1)
        else
          var i := FindTag(tags, m.tag);
          if i >= |tags| || i >= |alts| then (into, Advance(s1, s1.Remaining()))
          else
            var (x, s2) := Dec(env, alts[i], Default(env, alts[i]), s1);
            (VUnion(m.tag, x), s2)
  }

  /** The body of MEMORYPACK_DEFINE's (or, without members, MEMORYPACK_DEFINE_EMPTY's) Deserialize. */
  function DecObject(env: Env, ghost t: Ty, c: Class, fields: seq<Val>, s: RState): (r: (Val, RState))
    requires |fields| == |c.members|
    ensures Follows(s, r.1)
    decreases s.Remaining(), t, 0
  {
    var (h, s1) := ReadObjectHeader(s);
    if h.isNull then (VObj(c.defaults), s1)
    else if c.members == [] then (VObj([]), s1)
    else
      var s2 := s1.(depth := s1.depth + 1);
      if s2.depth > s2.opts.maxDepth then (VObj(fields), Fail(s2, LengthLimit))
      else if h.count == 0 then (VObj(fields), Leave(s2))
      else
        var (vs, s3) := DecAll(env, c.members, fields, h.count, s2);
        (VObj(vs), Leave(s3))
  }

  /** LeaveObject */
  function Leave(s: RState): (r: RState)
  {
    s.(depth := if s.depth > 0 then s.depth - 1 else 0)
  }

  /** The length and the elements of a collection; null counts as empty. */
  function DecItems(env: Env, ghost t: Ty, e: Ty, min: nat, s: RState): (r: (seq<Val>, RState))
    ensures Follows(s, r.1)
    decreases s.Remaining(), t, 0
  {
    var (len, s1) := ReadCollectionLength(s, min);
    if len <= 0 then ([], s1) else DecEach(env, e, len, s1)
  }

  /** A null object byte, or the value itself. */
  function DecNullable(env: Env, i: Ty, s: RState): (r: (Val, RState))
    ensures Follows(s, r.1)
    decreases s.Remaining(), i, 2
  {
    if s.PeekIsNull() then (VNull, ReadByte(s).1)
    else
      var (x, s1) := Dec(env, i, Default(env, i), s);
      (VSome(x), s1)
  }

  function DecOptional(env: Env, i: Ty, s: RState): (r: (Val, RState))
    ensures Follows(s, r.1)
    decreases s.Remaining(), i, 3
  {
    match NullEncoding(i)
    case NullableValue =>
      if !IsValueType(i) then (VNull, s)
      else
        var (bs, s1) := ReadBytes(s, NullableSize(i));
        if !s1.Ok() || bs[0] == 0 then (VNull, s1)
        else (VSome(ValueOf(i, bs[ValueAlign(i)..ValueAlign(i) + ValueSize(i)])), s1)
    case StringNull =>
      var (m, s1) := ReadString(s);
      (if m.Text? then VSome(VStr(m.utf8)) else VNull, s1)
    case CollectionNull =>
      if s.Remaining() >= 4 && ReadInt32(s).0 == -1 then (VNull, Advance(s, 4))
      else
        var (x, s1) := Dec(env, i, Default(env, i), s);
        (VSome(x), s1)
    case ObjectNull => DecNullable(env, i, s)
  }

  /** The number, bool or struct stored in `bs`. */
  function ValueOf(t: Ty, bs: bytes): (v: Val)
    requires IsValueType(t) && |bs| == ValueSize(t)
  {
    match t case Prim(_, _) => VInt(FromLE(bs)) case Bool => VBool(bs[0] != 0) case Raw(_, _) => VRaw(bs)
  }

  /** The loop over `n` collection elements, left at the first failure. */
  function DecEach(env: Env, e: Ty, n: nat, s: RState): (r: (seq<Val>, RState))
    ensures Follows(s, r.1) && |r.0| <= n && (r.1.Ok() ==> |r.0| == n)
    decreases s.Remaining(), e, n + 4
  {
    if n == 0 || !s.Ok() then ([], s)
    else
      var (v, s1) := Dec(env, e, Default(env, e), s);
      var (vs, s2) := DecEach(env, e, n - 1, s1);
      ([v] + vs, s2)
  }

  /** The members the header announces; the others stay as they are in `ds`. */
  function DecAll(env: Env, ts: seq<Ty>, ds: seq<Val>, count: nat, s: RState): (r: (seq<Val>, RState))
    requires |ds| == |ts|
    ensures Follows(s, r.1) && |r.0| == |ts|
    decreases s.Remaining(), ts, 0
  {
    if ts == [] || count == 0 then (ds, s)
    else
      var (v, s1) := Dec(env, ts[0], ds[0], s);
      var (vs, s2) := DecAll(env, ts[1..], ds[1..], count - 1, s1);
      ([v] + vs, s2)
  }
}
