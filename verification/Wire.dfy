/**
 The MemoryPack wire format: the types Write<T> and Read<T> dispatch on, their values, and the
 bytes each value is written as.
 */
module Wire {
  import opened Basics
  import opened Bytes
  import opened Transcode
  import StructLayout

  const NULL_OBJECT: byte := 255

  const WIDE_TAG: byte := 250

  const MAX_MEMBER_COUNT := 249

  const INT32_MAX := 0x7FFF_FFFF

  datatype MemoryPackError =
    | NoError
    | BufferUnderflow
    | BufferOverflow
    | InvalidHeader
    | LengthLimit
    | InvalidString
    | TrailingBytes
    | NotSupported

  /**
   A serializable C++ type. Numbers and enums are `Prim` bit patterns, floats included; `Raw` is an unmanaged
   struct; `Obj` is a MEMORYPACK_DEFINE class, looked up by name so that classes may be recursive;
   `Sequence` is std::vector or another sequence container; `Ptr` is a smart pointer.
   */
  datatype Ty =
    | Prim(width: nat, isEnum: bool)
    | Bool
    | Raw(size: nat, align: StructLayout.pos)
    | Str
    | Str16
    | Obj(id: string)
    | Sequence(elem: Ty, isVector: bool)
    | Set(elem: Ty)
    | Map(key: Ty, value: Ty)
    | Arr(elem: Ty, n: nat)
    | Pair(first: Ty, second: Ty)
    | Tuple(items: seq<Ty>)
    | Opt(inner: Ty)
    | Ptr(inner: Ty)
    | Union(tags: seq<nat>, alts: seq<Ty>)

  /**
   A value; the elements of any container are listed in iteration order, those of a map as
   key-value pairs.
   */
  datatype Val =
    | VInt(bits: nat)
    | VBool(b: bool)
    | VRaw(raw: bytes)
    | VStr(utf8: bytes)
    | VStr16(utf16: units)
    | VObj(fields: seq<Val>)
    | VList(elems: seq<Val>)
    | VPair(fst: Val, snd: Val)
    | VTuple(items: seq<Val>)
    | VNull
    | VSome(val: Val)
    | VUnion(tag: nat, alt: Val)

  /** The members of a class, in order, and the values a default-constructed object holds. */
  datatype Class_ = Class(members: seq<Ty>, defaults: seq<Val>)

  type Class = c: Class_ | |c.members| == |c.defaults| witness Class([], [])

  type Env = map<string, Class>

  function ClassOf(env: Env, id: string): (c: Class)
  {
    if id in env then env[id] else Class([], [])
  }

  /** How a null value of a type is spelled on the wire (WireNullEncoding). */
  datatype NullKind = NullableValue | StringNull | CollectionNull | ObjectNull

  /** std::u16string is null like a string but is read through the collection peek. */
  function NullEncoding(t: Ty): (k: NullKind)
  {
    match t
    case Prim(_, _) => NullableValue
    case Bool => NullableValue
    case Raw(_, _) => NullableValue
    case Str => StringNull
    case Str16 => CollectionNull
    case Sequence(_, _) => CollectionNull
    case Set(_) => CollectionNull
    case Map(_, _) => CollectionNull
    case _ => ObjectNull
  }

  /** Types without parts. */
  predicate IsLeaf(t: Ty) { t.Prim? || t.Bool? || t.Raw? || t.Str? || t.Str16? }

  /** Types written as a length and that many elements. */
  predicate IsCollection(t: Ty) { t.Sequence? || t.Set? || t.Map? || t.Arr? }

  /** What the elements are written as: a map entry is its key followed by its value. */
  function ElemOf(t: Ty): (e: Ty)
    requires IsCollection(t)
  {
    match t
    case Sequence(e, _) => e
    case Set(e) => e
    case Map(k, e) => Pair(k, e)
    case Arr(e, _) => e
  }

  // -- Nullable<T> of an unmanaged T -----------------------------------------------------

  predicate IsValueType(t: Ty) { t.Prim? || t.Bool? || t.Raw? }

  /** std::is_arithmetic */
  predicate IsArithmetic(t: Ty) { (t.Prim? && !t.isEnum) || t.Bool? }

  function ValueSize(t: Ty): (n: nat)
    requires IsValueType(t)
  {
    match t case Prim(w, _) => w case Bool => 1 case Raw(size, _) => size
  }

  function ValueAlign(t: Ty): (a: StructLayout.pos)
    requires IsValueType(t)
  {
    match t case Prim(w, _) => if w >= 1 then w else 1 case Bool => 1 case Raw(_, align) => align
  }

  /** NullableLayout<T>::Size; the value itself is at offset ValueAlign. */
  function NullableSize(t: Ty): (n: nat)
    requires IsValueType(t)
    ensures ValueAlign(t) + ValueSize(t) <= n
  {
    StructLayout.RoundUp(ValueAlign(t) + ValueSize(t), ValueAlign(t))
  }

  function Zeros(n: nat): (bs: bytes)
    ensures |bs| == n
  {
    seq(n, _ => 0)
  }

  function NullableBytes(t: Ty, payload: bytes): (bs: bytes)
    requires IsValueType(t) && |payload| == ValueSize(t)
    ensures |bs| == NullableSize(t)
  {
    var a := ValueAlign(t);
    [1] + Zeros(a - 1) + payload + Zeros(NullableSize(t) - a - |payload|)
  }

  // -- Encoding ------------------------------------------------------------------------------

  function StringBytes(s: bytes): (bs: bytes)
  {
    if s == [] then LE(0, 4)
    else LE(FromInt32(-1 - |s|), 4) + LE(CountUnits(s), 4) + s
  }

  function UnitsLE(u: units): (bs: bytes)
    ensures |bs| == 2 * |u|
  {
    if u == [] then [] else LE(u[0], 2) + UnitsLE(u[1..])
  }

  function Utf16StringBytes(u: units): (bs: bytes)
  {
    if u == [] then LE(0, 4) else LE(|u|, 4) + UnitsLE(u)
  }

  function UnionHeader(tag: nat): (bs: bytes)
  {
    if tag < WIDE_TAG then [tag] else [WIDE_TAG] + LE(tag, 2)
  }

  /** WriteVarIntLength: one byte up to 127, else 0x84 or 0x82 and two or four bytes. */
  function VarIntBytes(n: nat): (bs: bytes)
  {
    if n <= 127 then [n]
    else if n <= 0xFFFF then [0x84] + LE(n, 2)
    else [0x82] + LE(n, 4)
  }

  /** The alternative ReadUnionAlternative picks for a tag: the first one that carries it. */
  function FindTag(tags: seq<nat>, tag: nat): (i: nat)
    ensures i <= |tags| && (i < |tags| ==> tags[i] == tag) && tag !in tags[..i]
  {
    if tags == [] then 0
    else if tags[0] == tag then 0
    else
      var i := FindTag(tags[1..], tag);
      assert tags[..i + 1] == [tags[0]] + tags[1..][..i];
      i + 1
  }

  function NullBytes(t: Ty): (bs: bytes)
  {
    match NullEncoding(t)
    case NullableValue => Zeros(if IsValueType(t) then NullableSize(t) else 0)
    case StringNull => LE(FromInt32(-1), 4)
    case CollectionNull => LE(FromInt32(-1), 4)
    case ObjectNull => [NULL_OBJECT]
  }

  function EncLeaf(t: Ty, v: Val): (bs: bytes)
  {
    match (t, v)
    case (Prim(w, _), VInt(n)) => LE(n, w)
    case (Bool, VBool(b)) => [if b then 1 else 0]
    case (Raw(_, _), VRaw(raw)) => raw
    case (Str, VStr(s)) => StringBytes(s)
    case (Str16, VStr16(u)) => Utf16StringBytes(u)
    case _ => []
  }

  /** The bytes Write<T> appends for a value; ill-typed values have no encoding and yield none. */
  function Enc(env: Env, t: Ty, v: Val): (bs: bytes)
    decreases v
  {
    if IsLeaf(t) then EncLeaf(t, v)
    else if IsCollection(t) then
      if v.VList? then LE(|v.elems|, 4) + EncEach(env, ElemOf(t), v.elems) else []
    else
      match (t, v)
      case (Obj(id), VObj(fields)) => LE(|fields|, 1) + EncAll(env, ClassOf(env, id).members, fields)
      case (Pair(a, b), VPair(x, y)) => Enc(env, a, x) + Enc(env, b, y)
      case (Tuple(ts), VTuple(vs)) => LE(|vs|, 1) + EncAll(env, ts, vs)
      case (Opt(i), VNull) => NullBytes(i)
      case (Opt(i), VSome(x)) => SomeBytes(i, Enc(env, i, x))
      case (Ptr(_), VNull) => [NULL_OBJECT]
      case (Ptr(i), VSome(x)) => Enc(env, i, x)
      case (Union(tags, alts), VUnion(tag, x)) =>
        var i := FindTag(tags, tag);
        UnionHeader(tag) + if i < |alts| then Enc(env, alts[i], x) else []
      case _ => []
  }

  /** An optional that is not null: a Nullable<T> struct, or just the value. */
  function SomeBytes(i: Ty, payload: bytes): (bs: bytes)
  {
    if IsValueType(i) && |payload| == ValueSize(i) then NullableBytes(i, payload) else payload
  }

  /** The elements of a collection, one after the other. */
  function EncEach(env: Env, e: Ty, vs: seq<Val>): (bs: bytes)
    decreases vs
  {
    if vs == [] then [] else Enc(env, e, vs[0]) + EncEach(env, e, vs[1..])
  }

  /** The members of an object or tuple, one after the other. */
  function EncAll(env: Env, ts: seq<Ty>, vs: seq<Val>): (bs: bytes)
    decreases vs
  {
    if ts == [] || vs == [] then [] else Enc(env, ts[0], vs[0]) + EncAll(env, ts[1..], vs[1..])
  }

  // -- Well-formed types -------------------------------------------------------------------------

  predicate WfTy(env: Env, t: Ty)
  {
    match t
    case Prim(w, _) => w in {1, 2, 4, 8}
    case Bool => true
    case Raw(size, _) => size >= 1
    case Str => true
    case Str16 => true
    case Obj(id) => id in env
    case Sequence(e, _) => WfTy(env, e)
    case Set(e) => WfTy(env, e)
    case Map(k, e) => WfTy(env, k) && WfTy(env, e)
    case Arr(e, n) => n <= INT32_MAX && WfTy(env, e)
    case Pair(a, b) => WfTy(env, a) && WfTy(env, b)
    case Tuple(ts) => |ts| <= MAX_MEMBER_COUNT && WfAll(env, ts)
    case Opt(i) => WfTy(env, i)
    case Ptr(i) => WfTy(env, i)
    case Union(tags, alts) =>
      |tags| == |alts| && |alts| > 0 && Unique(tags) && (forall g | g in tags :: g < 0x1_0000) && WfAll(env, alts)
  }

  predicate WfAll(env: Env, ts: seq<Ty>)
  {
    forall t | t in ts :: WfTy(env, t)
  }

  predicate WfEnv(env: Env)
  {
    forall id | id in env :: |env[id].members| <= MAX_MEMBER_COUNT && WfAll(env, env[id].members)
  }
}
