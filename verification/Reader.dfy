/**
 MemoryPackReader: the methods that move through a buffer step by step, each proved to do what the
 function of the same name in Decoder says.
 */
module Reader {
  import opened Bytes
  import opened Transcode
  import opened Wire
  import D = Decoder
  import Steps = DecoderSteps

  // -- UTF-16 in and out ---------------------------------------------------------------------

  lemma {:induction false} UnitAt(bs: bytes, i: nat)
    requires 2 * i + 2 <= |bs|
    ensures D.UnitsOfLE(bs)[i] == FromLE(bs[2 * i..2 * i + 2])
  {
    if i == 0 {
      var b := bs[..2];
      assert FromLE(b) == b[0] + 256 * FromLE(b[1..]) && FromLE(b[1..]) == b[1] + 256 * FromLE(b[1..][1..]);
    } else {
      UnitAt(bs[2..], i - 1);
      assert bs[2..][2 * (i - 1)..2 * (i - 1) + 2] == bs[2 * i..2 * i + 2];
    }
  }

  /** Appending a code point of `u` whose unit or units end at `next`. */
  lemma NextCodepoint(out: bytes, u: units, i: nat, c: codepoint, next: nat)
    requires i < next <= |u| && DecodeUtf16(u[i..]) == [c] + DecodeUtf16(u[next..])
    ensures out + Utf8Of(c) + Utf16ToUtf8(u[next..]) == out + Utf16ToUtf8(u[i..])
  {
    var cs := DecodeUtf16(u[next..]);
    assert ([c] + cs)[1..] == cs;
    assert EncodeUtf8([c] + cs) == Utf8Of(c) + EncodeUtf8(cs);
  }

  /** The bits of the first `k` bytes of a sequence. */
  function Partial(bs: bytes, k: nat): (c: nat)
    requires 1 <= k <= |bs|
  {
    if k == 1 then LeadBits(bs[0]) else Partial(bs, k - 1) * 0x40 + bs[k - 1] % 0x40
  }

  lemma PartialIsAssemble(bs: bytes)
    requires bs != [] && LeadLength(bs[0]) <= |bs|
    ensures Partial(bs, LeadLength(bs[0])) == Assemble(bs)
  {
    var n := LeadLength(bs[0]);
    assert n >= 2 ==> Partial(bs, 2) == Partial(bs, 1) * 0x40 + bs[1] % 0x40;
    assert n >= 3 ==> Partial(bs, 3) == Partial(bs, 2) * 0x40 + bs[2] % 0x40;
    assert n >= 4 ==> Partial(bs, 4) == Partial(bs, 3) * 0x40 + bs[3] % 0x40;
  }

  /** The code units of the code point at `i` come next. */
  lemma NextUtf16(v: units, u8: bytes, i: nat)
    requires i < |u8| && i + LeadLength(u8[i]) <= |u8|
    ensures var c, next := Assemble(u8[i..]), i + LeadLength(u8[i]);
            v + Utf16Of(c) + Utf8ToUtf16(u8[next..]) == v + Utf8ToUtf16(u8[i..])
  {
    var rest, next := u8[i..], i + LeadLength(u8[i]);
    var c, cs := Assemble(rest), DecodeUtf8(u8[next..]);
    assert rest[LeadLength(u8[i])..] == u8[next..];
    assert ([c] + cs)[1..] == cs;
    assert EncodeUtf16([c] + cs) == Utf16Of(c) + EncodeUtf16(cs);
  }

  /** The inner loop: the leading byte's bits and six bits of each byte behind it. */
  method AssembleAt(u8: bytes, i: nat, len: nat) returns (cp: codepoint)
    requires i < |u8| && len == LeadLength(u8[i]) && i + len <= |u8|
    ensures cp == Assemble(u8[i..])
  {
    var bits: nat := LeadBits(u8[i]);
    ghost var rest := u8[i..];
    for k := 1 to len
      invariant bits == Partial(rest, k)
    {
      assert rest[k] == u8[i + k];
      bits := bits * 0x40 + u8[i + k] % 0x40;
    }
    PartialIsAssemble(rest);
    cp := bits;
  }

  /** The loop of the u16string formatter. */
  method TranscodeToUtf16(u8: bytes) returns (v: units)
    ensures v == Utf8ToUtf16(u8)
  {
    v := [];
    var i := 0;
    while i < |u8|
      invariant 0 <= i <= |u8|
      invariant v + Utf8ToUtf16(u8[i..]) == Utf8ToUtf16(u8)
    {
      var len := LeadLength(u8[i]);
      if i + len > |u8| {
        assert DecodeUtf8(u8[i..]) == [];
        break;
      }
      var cp := AssembleAt(u8, i, len);
      NextUtf16(v, u8, i);
      v := PushCodepoint(v, cp);
      i := i + len;
    }
  }

  method PushCodepoint(out: units, c: codepoint) returns (v: units)
    ensures v == out + Utf16Of(c)
  {
    v := out;
    if c <= 0xFFFF {
      v := v + [c];
    } else {
      var cp: int := c - 0x1_0000;
      v := v + [0xD800 + cp / 0x400];
      v := v + [0xDC00 + cp % 0x400];
    }
  }

  // -- Containers -------------------------------------------------------------------------------

  /** Storing the i-th element: at the end, if its key is new, or in slot i. */
  function Store(t: Ty, out: seq<Val>, i: nat, v: Val): (r: seq<Val>)
    requires IsCollection(t)
  {
    match t
    case Sequence(_, _) => out + [v]
    case Set(_) => D.Inserted(false, out, v)
    case Map(_, _) => D.Inserted(true, out, v)
    case Arr(_, n) => if i < n && i < |out| then out[i := v] else out
  }

  /** Storing element by element builds the container Collect describes. */
  lemma StoreCollects(env: Env, t: Ty, vs: seq<Val>, out: seq<Val>, v: Val)
    requires IsCollection(t) && D.Collect(env, t, vs) == VList(out)
    ensures D.Collect(env, t, vs + [v]) == VList(Store(t, out, |vs|, v))
  {
    match t
    case Sequence(_, _) =>
    case Set(_) => Steps.InsertLast(false, [], vs, v);
    case Map(_, _) => Steps.InsertLast(true, [], vs, v);
    case Arr(e, n) =>
      var d := D.Default(env, e);
      if |vs| < n {
        assert D.FillArray(vs + [v], n, d) == D.FillArray(vs, n, d)[|vs| := v];
      } else {
        assert (vs + [v])[..n] == vs[..n];
      }
  }

  lemma CollectionBehindLength(env: Env, t: Ty, into: Val, s: D.RState, len: int, s1: D.RState)
    requires IsCollection(t) && D.ReadCollectionLength(s, D.MinElementOf(t)) == (len, s1)
    ensures var (vs, r) := if len <= 0 then ([], s1) else D.DecEach(env, ElemOf(t), len, s1);
            D.Dec(env, t, into, s) == (D.Collect(env, t, vs), r)
  {
  }

  /** Reading `n` elements gives `vs` and `r`: the first of them, and what reading the others gives. */
  lemma EachNext(env: Env, e: Ty, n: nat, s: D.RState, v: Val, s1: D.RState, vs: seq<Val>, r: D.RState)
    requires n > 0 && s.Ok() && D.Dec(env, e, D.Default(env, e), s) == (v, s1) && D.DecEach(env, e, n, s) == (vs, r)
    ensures vs != [] && vs[0] == v && D.DecEach(env, e, n - 1, s1) == (vs[1..], r)
  {
    var (others, r1) := D.DecEach(env, e, n - 1, s1);
    Steps.EachBehindFirst(env, e, n, s, v, s1, others, r1);
  }

  lemma EachStops(env: Env, e: Ty, n: nat, s: D.RState)
    requires n == 0 || !s.Ok()
    ensures D.DecEach(env, e, n, s) == ([], s)
  {
  }

  lemma OneMoreRead(got: seq<Val>, vs: seq<Val>)
    requires vs != []
    ensures got + [vs[0]] + vs[1..] == got + vs
  {
  }

  lemma UnionCases(env: Env, tags: seq<nat>, alts: seq<Ty>, into: Val, s: D.RState, m: D.MaybeTag, s1: D.RState)
    requires D.ReadUnionHeader(s) == (m, s1)
    ensures var t := Union(tags, alts);
            D.Dec(env, t, into, s) ==
            if m.NullUnion? then (D.Default(env, t), s1)
            else
              var i := FindTag(tags, m.tag);
              if i >= |tags| || i >= |alts| then (into, D.Advance(s1, s1.Remaining()))
              else
                var (x, s2) := D.Dec(env, alts[i], D.Default(env, alts[i]), s1);
                (VUnion(m.tag, x), s2)
  {
  }

  lemma ObjectCases(env: Env, t: Ty, c: Class, fields: seq<Val>, s: D.RState, h: D.Header, s1: D.RState)
    requires |fields| == |c.members| && D.ReadObjectHeader(s) == (h, s1)
    ensures D.DecObject(env, t, c, fields, s) ==
            if h.isNull then (VObj(c.defaults), s1)
            else if c.members == [] then (VObj([]), s1)
            else ObjectBody(env, c, fields, h.count, s1)
  {
  }

  /** The nesting depth is checked, then the members are read. */
  function ObjectBody(env: Env, c: Class, fields: seq<Val>, count: nat, s: D.RState): (r: (Val, D.RState))
    requires |fields| == |c.members|
  {
    var s1 := s.(depth := s.depth + 1);
    if s1.depth > s1.opts.maxDepth then (VObj(fields), D.Fail(s1, LengthLimit))
    else
      var (vs, s2) := D.DecAll(env, c.members, fields, count, s1);
      (VObj(vs), D.Leave(s2))
  }

  /**
   The members before `index` have been read: what is still to be read makes the values and the
   reader state complete to `end`.
   */
  ghost predicate MembersAt(env: Env, ts: seq<Ty>, count: nat, index: nat, vs: seq<Val>, s: D.RState,
                            end: (seq<Val>, D.RState))
  {
    && |vs| == |ts| && index <= |ts|
    && if index >= count then (vs, s) == end
       else
         var (rest, r) := D.DecAll(env, ts[index..], vs[index..], count - index, s);
         (vs[..index] + rest, r) == end
  }

  lemma MembersBegin(env: Env, ts: seq<Ty>, ds: seq<Val>, count: nat, s: D.RState)
    requires |ds| == |ts|
    ensures MembersAt(env, ts, count, 0, ds, s, D.DecAll(env, ts, ds, count, s))
  {
    assert ts[0..] == ts && ds[0..] == ds;
    assert ds[..0] + D.DecAll(env, ts, ds, count, s).0 == D.DecAll(env, ts, ds, count, s).0;
  }

  lemma MembersNext(env: Env, ts: seq<Ty>, count: nat, index: nat, vs: seq<Val>, s: D.RState, v: Val, s1: D.RState,
                    end: (seq<Val>, D.RState))
    requires MembersAt(env, ts, count, index, vs, s, end) && index < count && index < |ts|
    requires D.Dec(env, ts[index], vs[index], s) == (v, s1)
    ensures MembersAt(env, ts, count, index + 1, vs[index := v], s1, end)
  {
    var ts', ds', n := ts[index..], vs[index..], count - index;
    assert ts'[0] == ts[index] && ds'[0] == vs[index] && ts'[1..] == ts[index + 1..] && ds'[1..] == vs[index + 1..];
    var (rest, r) := D.DecAll(env, ts[index + 1..], vs[index + 1..], n - 1, s1);
    Steps.AllBehindFirst(env, ts', ds', n, s, v, s1, rest, r);
    SetMember(vs, index, v, rest);
  }

  lemma SetMember(vs: seq<Val>, index: nat, v: Val, rest: seq<Val>)
    requires index < |vs|
    ensures var vs1 := vs[index := v];
            && vs1[index + 1..] == vs[index + 1..]
            && vs1[..index + 1] + rest == vs[..index] + ([v] + rest)
            && (rest == vs[index + 1..] ==> vs[..index] + ([v] + rest) == vs1)
  {
    var vs1 := vs[index := v];
    assert vs1[..index + 1] == vs[..index] + [v];
    assert vs1 == vs1[..index + 1] + vs1[index + 1..];
  }

  lemma MembersEnd(env: Env, ts: seq<Ty>, count: nat, vs: seq<Val>, s: D.RState, end: (seq<Val>, D.RState))
    requires MembersAt(env, ts, count, |ts|, vs, s, end)
    ensures (vs, s) == end
  {
    assert vs[..|ts|] == vs && vs + [] == vs && vs[|ts|..] == [];
  }

  /** A number or bool that is there. */
  lemma FlatValue(env: Env, t: Ty, into: Val, s: D.RState)
    requires s.Ok() && IsArithmetic(t) && s.pos + ValueSize(t) <= |s.data|
    ensures D.Dec(env, t, into, s) == (D.ValueOf(t, s.data[s.pos..s.pos + ValueSize(t)]), s.(pos := s.pos + ValueSize(t)))
  {
  }

  lemma SliceOfSlice(data: bytes, start: nat, n: nat, i: nat, j: nat)
    requires i <= j <= n && start + n <= |data|
    ensures data[start..start + n][i..j] == data[start + i..start + j]
  {
    var a, b := data[start..start + n][i..j], data[start + i..start + j];
    assert |a| == |b| && forall k | 0 <= k < |a| :: a[k] == b[k];
  }

  /** The size of `n` elements. */
  function Span(n: nat, size: nat): (total: nat)
  {
    if n == 0 then 0 else size + Span(n - 1, size)
  }

  lemma {:induction false} SpanIsProduct(n: nat, size: nat)
    ensures Span(n, size) == n * size
  {
    if n > 0 {
      SpanIsProduct(n - 1, size);
      assert n * size == size + (n - 1) * size;
    }
  }

  /** The `n` numbers or bools stored one behind the other at `p`. */
  function Packed(t: Ty, n: nat, data: bytes, p: nat): (vs: seq<Val>)
    requires IsArithmetic(t)
  {
    var size := ValueSize(t);
    if n == 0 || p + size > |data| then []
    else [D.ValueOf(t, data[p..p + size])] + Packed(t, n - 1, data, p + size)
  }

  /** Copying them at once gives what reading them one by one gives. */
  lemma {:induction false} PackedIsEach(env: Env, t: Ty, n: nat, s: D.RState, end: nat)
    requires s.Ok() && IsArithmetic(t) && end == s.pos + Span(n, ValueSize(t)) && end <= |s.data|
    ensures D.DecEach(env, t, n, s) == (Packed(t, n, s.data, s.pos), s.(pos := end))
  {
    if n > 0 {
      var p := s.pos + ValueSize(t);
      assert end == p + Span(n - 1, ValueSize(t));
      var s1, v := s.(pos := p), D.ValueOf(t, s.data[s.pos..p]);
      assert s1.(pos := end) == s.(pos := end);
      FlatValue(env, t, D.Default(env, t), s);
      PackedIsEach(env, t, n - 1, s1, end);
      Steps.EachBehindFirst(env, t, n, s, v, s1, Packed(t, n - 1, s.data, s1.pos), s.(pos := end));
      PackedFirst(t, n, s.data, s.pos, v);
    }
  }

  lemma PackedFirst(t: Ty, n: nat, data: bytes, p: nat, v: Val)
    requires IsArithmetic(t) && n > 0 && p + ValueSize(t) <= |data| && v == D.ValueOf(t, data[p..p + ValueSize(t)])
    ensures Packed(t, n, data, p) == [v] + Packed(t, n - 1, data, p + ValueSize(t))
  {
  }

  /** The next of the `n` that are still to be copied. */
  lemma PackedNext(t: Ty, out: seq<Val>, n: nat, data: bytes, p: nat, v: Val)
    requires IsArithmetic(t) && n > 0 && p + Span(n, ValueSize(t)) <= |data|
    requires p + ValueSize(t) <= |data| ==> v == D.ValueOf(t, data[p..p + ValueSize(t)])
    ensures p + ValueSize(t) + Span(n - 1, ValueSize(t)) <= |data|
    ensures out + [v] + Packed(t, n - 1, data, p + ValueSize(t)) == out + Packed(t, n, data, p)
  {
    PackedFirst(t, n, data, p, v);
    var rest := Packed(t, n - 1, data, p + ValueSize(t));
    assert out + ([v] + rest) == out + [v] + rest;
  }

  /** The first `k` of them. */
  lemma {:induction false} PackedPrefix(t: Ty, n: nat, k: nat, data: bytes, p: nat)
    requires IsArithmetic(t) && k <= n && p + Span(n, ValueSize(t)) <= |data|
    ensures |Packed(t, n, data, p)| == n && Packed(t, n, data, p)[..k] == Packed(t, k, data, p)
    decreases n
  {
    if n > 0 {
      var size := ValueSize(t);
      var v, p1, k1 := D.ValueOf(t, data[p..p + size]), p + size, if k > 0 then k - 1 else 0;
      PackedPrefix(t, n - 1, k1, data, p1);
      PackedFirst(t, n, data, p, v);
      if k > 0 {
        PackedFirst(t, k, data, p, v);
        ConsPrefix(v, Packed(t, n - 1, data, p1), k1);
      }
    }
  }

  lemma ConsPrefix(v: Val, rest: seq<Val>, k: nat)
    requires k <= |rest|
    ensures ([v] + rest)[..k + 1] == [v] + rest[..k]
  {
  }

  lemma SpanOfBoth(k: nat, n: nat, size: nat)
    requires k <= n
    ensures Span(k, size) == k * size <= Span(n, size) == k * size + (n - k) * size
  {
    SpanIsProduct(k, size);
    SpanIsProduct(n, size);
    assert n * size == k * size + (n - k) * size;
  }

  lemma Filled(vs: seq<Val>, copied: seq<Val>, n: nat, default_: Val)
    requires |copied| <= |vs| && copied == vs[..|copied|] && |copied| == if |vs| <= n then |vs| else n
    ensures copied + D.Copies(default_, n - |copied|) == D.FillArray(vs, n, default_)
  {
    if |vs| >= n {
      assert copied + [] == copied;
    }
  }

  /** Copying the elements that fit and skipping the others gives what reading all of them gives. */
  lemma ArrayIsEach(env: Env, t: Ty, len: nat, kept: nat, s: D.RState, copied: seq<Val>, end: nat)
    requires s.Ok() && t.Arr? && IsArithmetic(t.elem) && kept == (if len <= t.n then len else t.n)
    requires end == s.pos + Span(len, ValueSize(t.elem)) && end <= |s.data| && copied == Packed(t.elem, kept, s.data, s.pos)
    ensures var (vs, r) := D.DecEach(env, t.elem, len, s);
            r == s.(pos := end) && D.Collect(env, t, vs) == VList(copied + D.Copies(D.Default(env, t.elem), t.n - kept))
  {
    PackedIsEach(env, t.elem, len, s, end);
    PackedPrefix(t.elem, len, kept, s.data, s.pos);
    Filled(Packed(t.elem, len, s.data, s.pos), copied, t.n, D.Default(env, t.elem));
  }

  // -- The reader -------------------------------------------------------------------------------

  class MemoryPackReader {
    const data: bytes
    const options: D.Options
    var pos: nat
    var depth: nat
    var error: MemoryPackError

    ghost predicate Valid()
      reads this
    {
      pos <= |data|
    }

    ghost function State(): (s: D.RState)
      requires Valid()
      reads this
    {
      D.RState(data, options, pos, depth, error)
    }

    constructor (data: bytes, options: D.Options)
      ensures Valid() && State() == D.RState(data, options, 0, 0, NoError)
    {
      this.data, this.options := data, options;
      pos, depth, error := 0, 0, NoError;
    }

    constructor Copy(other: MemoryPackReader)
      requires other.Valid()
      ensures Valid() && State() == other.State()
    {
      data, options := other.data, other.options;
      pos, depth, error := other.pos, other.depth, other.error;
    }

    method Fail(code: MemoryPackError)
      requires Valid() && code != NoError
      modifies this
      ensures Valid() && State() == D.Fail(old(State()), code)
    {
      if error == NoError {
        error := code;
      }
    }

    method EnsureBytes(n: nat) returns (ok: bool)
      requires Valid()
      modifies this
      ensures Valid() && State() == D.Ensure(old(State()), n) && ok == State().Ok()
    {
      if error != NoError {
        return false;
      }
      if n > |data| - pos {
        Fail(BufferUnderflow);
        return false;
      }
      return true;
    }

    method Advance(n: nat)
      requires Valid()
      modifies this
      ensures Valid() && State() == D.Advance(old(State()), n)
    {
      var ok := EnsureBytes(n);
      if ok {
        pos := pos + n;
      }
    }

    method Seek(position: nat)
      requires Valid()
      modifies this
      ensures Valid() && State() == D.Seek(old(State()), position)
    {
      if position > |data| {
        Fail(BufferUnderflow);
        return;
      }
      pos := position;
    }

    method ReadByte() returns (b: byte)
      requires Valid()
      modifies this
      ensures Valid() && (b, State()) == D.ReadByte(old(State()))
    {
      var ok := EnsureBytes(1);
      if !ok {
        return 0;
      }
      b := data[pos];
      pos := pos + 1;
    }

    method ReadUnmanaged(size: nat) returns (bs: bytes)
      requires Valid()
      modifies this
      ensures Valid() && (bs, State()) == D.ReadBytes(old(State()), size)
    {
      var ok := EnsureBytes(size);
      if !ok {
        return Zeros(size);
      }
      bs := data[pos..pos + size];
      pos := pos + size;
    }

    method ReadRaw(width: nat) returns (n: nat)
      requires Valid()
      modifies this
      ensures Valid() && (n, State()) == D.ReadRaw(old(State()), width)
    {
      var ok := EnsureBytes(width);
      if !ok {
        return 0;
      }
      n := FromLE(data[pos..pos + width]);
      pos := pos + width;
    }

    method ReadInt32() returns (i: int)
      requires Valid()
      modifies this
      ensures Valid() && (i, State()) == D.ReadInt32(old(State()))
    {
      Pow256Small();
      var n := ReadRaw(4);
      i := ToInt32(n);
    }

    method ReadObjectHeader() returns (h: D.Header)
      requires Valid()
      modifies this
      ensures Valid() && (h, State()) == D.ReadObjectHeader(old(State()))
    {
      var b := ReadByte();
      if b == NULL_OBJECT {
        return D.Header(0, true);
      }
      if b > MAX_MEMBER_COUNT {
        Fail(InvalidHeader);
        return D.Header(0, true);
      }
      return D.Header(b, false);
    }

    method ReadCollectionLength(minElementSize: nat) returns (len: int)
      requires Valid()
      modifies this
      ensures Valid() && (len, State()) == D.ReadCollectionLength(old(State()), minElementSize)
    {
      len := ReadInt32();
      if len < 0 {
        if len != -1 {
          Fail(LengthLimit);
        }
        return -1;
      }
      if len > options.maxCollectionLength {
        Fail(LengthLimit);
        return -1;
      }
      if minElementSize > 0 {
        D.PlausibleByDivision(len, minElementSize, |data| - pos);
        if len > (|data| - pos) / minElementSize {
          Fail(LengthLimit);
          return -1;
        }
      }
    }

    method ReadUnionHeader() returns (tag: D.MaybeTag)
      requires Valid()
      modifies this
      ensures Valid() && (tag, State()) == D.ReadUnionHeader(old(State()))
    {
      var b := ReadByte();
      if b == NULL_OBJECT {
        return D.NullUnion;
      }
      if b == WIDE_TAG {
        var wide := ReadRaw(2);
        return D.Tag(wide);
      }
      if b > WIDE_TAG {
        Fail(InvalidHeader);
        return D.NullUnion;
      }
      return D.Tag(b);
    }

    method ReadVarIntLength() returns (n: nat)
      requires Valid()
      modifies this
      ensures Valid() && (n, State()) == D.ReadVarIntLength(old(State()))
    {
      var b := ReadByte();
      if b <= 127 {
        return b;
      }
      if b == 0x84 {
        n := ReadRaw(2);
        return;
      }
      if b == 0x82 {
        n := ReadRaw(4);
        return;
      }
      Fail(InvalidHeader);
      return 0;
    }

    method CheckStringLength(n: nat, unitSize: nat) returns (ok: bool)
      requires Valid() && unitSize > 0
      modifies this
      ensures Valid() && (ok, State()) == D.CheckStringLength(old(State()), n, unitSize)
    {
      if n > options.maxStringLength {
        Fail(LengthLimit);
        return false;
      }
      D.PlausibleByDivision(n, unitSize, |data| - pos);
      if n > (|data| - pos) / unitSize {
        Fail(LengthLimit);
        return false;
      }
      return true;
    }

    /** Reads a code unit that is known to be there. */
    method ReadUnit(ghost bs: bytes, ghost start: nat, ghost i: nat) returns (u: unit)
      requires Valid() && State().Ok() && pos + 2 <= |data|
      requires start + |bs| <= |data| && data[start..start + |bs|] == bs
      requires pos == start + 2 * i && 2 * i + 2 <= |bs|
      modifies this
      ensures Valid() && State() == old(State()).(pos := old(pos) + 2) && u == D.UnitsOfLE(bs)[i]
    {
      UnitAt(bs, i);
      SliceOfSlice(data, start, |bs|, 2 * i, 2 * i + 2);
      u := ReadRaw(2);
    }

    /**
     One round of the loop: a code unit, or a surrogate pair. Behind an unpaired high surrogate it
     steps back, so that the next round sees the unit it has looked at.
     */
    method ReadCodepoint(ghost bs: bytes, ghost start: nat, n: nat, i: nat) returns (cp: codepoint, next: nat)
      requires Valid() && State().Ok()
      requires |bs| == 2 * n && i < n && start + 2 * n <= |data| && data[start..start + |bs|] == bs
      requires pos == start + 2 * i
      modifies this
      ensures i < next <= n && Valid() && State() == old(State()).(pos := start + 2 * next)
      ensures var u := D.UnitsOfLE(bs); DecodeUtf16(u[i..]) == [cp] + DecodeUtf16(u[next..])
    {
      ghost var u := D.UnitsOfLE(bs);
      ghost var rest := u[i..];
      var hi := ReadUnit(bs, start, i);
      next := i + 1;
      assert rest[0] == hi && rest[1..] == u[i + 1..];
      if 0xD800 <= hi <= 0xDBFF {
        if next < n {
          var lo := ReadUnit(bs, start, next);
          assert rest[1] == lo && rest[2..] == u[i + 2..];
          if 0xDC00 <= lo <= 0xDFFF {
            next := next + 1;
            var high: int, low: int := hi - 0xD800, lo - 0xDC00;
            cp := 0x1_0000 + (high * 0x400 + low);
          } else {
            pos := pos - 2;
            cp := 0xFFFD;
          }
        } else {
          cp := 0xFFFD;
        }
      } else if 0xDC00 <= hi <= 0xDFFF {
        cp := 0xFFFD;
      } else {
        cp := hi;
      }
    }

    /** The loop over `n` UTF-16 code units consumes exactly 2n bytes. */
    method ReadUtf16String(n: nat) returns (out: bytes)
      requires Valid()
      modifies this
      ensures Valid() && (out, State()) == D.ReadUtf16String(old(State()), n)
    {
      var ok := CheckStringLength(n, 2);
      if !ok {
        return [];
      }
      ok := EnsureBytes(2 * n);
      if !ok {
        return [];
      }
      out := ReadUnits(n);
    }

    method ReadUnits(n: nat) returns (out: bytes)
      requires Valid() && State().Ok() && 2 * n <= |data| - pos
      modifies this
      ensures Valid() && State() == old(State()).(pos := old(pos) + 2 * n)
      ensures out == Utf16ToUtf8(D.UnitsOfLE(data[old(pos)..old(pos) + 2 * n]))
    {
      out := [];
      ghost var start, s, bs := pos, State(), data[pos..pos + 2 * n];
      ghost var u := D.UnitsOfLE(bs);
      var i := 0;
      while i < n
        invariant 0 <= i <= n && Valid() && State() == s.(pos := start + 2 * i)
        invariant out + Utf16ToUtf8(u[i..]) == Utf16ToUtf8(u)
      {
        var cp, next := ReadCodepoint(bs, start, n, i);
        NextCodepoint(out, u, i, cp, next);
        out := out + Utf8Of(cp);
        i := next;
      }
    }

    method ReadString() returns (text: D.MaybeString)
      requires Valid()
      modifies this
      ensures Valid() && (text, State()) == D.ReadString(old(State()))
    {
      var header := ReadInt32();
      if error != NoError {
        return D.Text([]);
      }
      if header == -1 {
        return D.NullString;
      }
      if header == 0 {
        return D.Text([]);
      }
      if header > 0 {
        var utf8 := ReadUtf16String(header);
        return D.Text(utf8);
      }
      var utf8 := ReadUtf8String(-1 - header);
      return D.Text(utf8);
    }

    method ReadUtf8String(byteCount: nat) returns (utf8: bytes)
      requires Valid()
      modifies this
      ensures Valid() && (utf8, State()) == D.ReadUtf8String(old(State()), byteCount)
    {
      var utf16Length := ReadRaw(4);
      var ok := CheckStringLength(byteCount, 1);
      if !ok {
        return [];
      }
      ok := EnsureBytes(byteCount);
      if !ok {
        return [];
      }
      utf8 := data[pos..pos + byteCount];
      pos := pos + byteCount;
    }

    /** ReadVector of numbers or bools: all bytes are there, so they are copied without checks. */
    method ReadVector(ghost env: Env, t: Ty, count: nat) returns (out: seq<Val>)
      requires Valid() && State().Ok() && IsArithmetic(t) && Span(count, ValueSize(t)) <= |data| - pos
      modifies this
      ensures Valid() && (out, State()) == D.DecEach(env, t, count, old(State()))
    {
      PackedIsEach(env, t, count, State(), pos + Span(count, ValueSize(t)));
      out := CopyPacked(t, count);
      SpanIsProduct(count, ValueSize(t));
      pos := pos + count * ValueSize(t);
    }

    /** ReadArray: copies the elements that fit into the array and skips the others. */
    method ReadArray(env: Env, t: Ty, len: nat) returns (out: seq<Val>)
      requires Valid() && State().Ok() && t.Arr? && IsArithmetic(t.elem) && Span(len, ValueSize(t.elem)) <= |data| - pos
      modifies this
      ensures Valid()
      ensures var (vs, s) := D.DecEach(env, t.elem, len, old(State())); State() == s && VList(out) == D.Collect(env, t, vs)
    {
      var e, size := t.elem, ValueSize(t.elem);
      var readCount := if len <= t.n then len else t.n;
      SpanOfBoth(readCount, len, size);
      ghost var s, end := State(), pos + Span(len, size);
      var copied := CopyPacked(e, readCount);
      ArrayIsEach(env, t, len, readCount, s, copied, end);
      pos := pos + readCount * size;
      Advance((len - readCount) * size);
      out := copied + D.Copies(D.Default(env, e), t.n - readCount);
    }

    method CopyPacked(t: Ty, count: nat) returns (out: seq<Val>)
      requires Valid() && IsArithmetic(t) && Span(count, ValueSize(t)) <= |data| - pos
      ensures out == Packed(t, count, data, pos)
    {
      var size, p: nat := ValueSize(t), pos;
      ghost var all := Packed(t, count, data, pos);
      out := [];
      assert out + all == all;
      for i := 0 to count
        invariant p + Span(count - i, size) <= |data|
        invariant out + Packed(t, count - i, data, p) == all
      {
        var v := D.ValueOf(t, data[p..p + size]);
        PackedNext(t, out, count - i, data, p, v);
        out := out + [v];
        p := p + size;
      }
      assert out + [] == out;
    }

    method ReadLeaf(t: Ty) returns (v: Val)
      requires Valid() && IsLeaf(t)
      modifies this
      ensures Valid() && (v, State()) == D.DecLeaf(t, old(State()))
    {
      match t {
        case Prim(w, _) =>
          var n := ReadRaw(w);
          v := VInt(n);
        case Bool =>
          var b := ReadByte();
          v := VBool(b != 0);
        case Raw(size, _) =>
          var bs := ReadUnmanaged(size);
          v := VRaw(bs);
        case Str =>
          var text := ReadString();
          v := VStr(if text.Text? then text.utf8 else []);
        case Str16 =>
          var text := ReadString();
          if text.NullString? {
            return VStr16([]);
          }
          var u := TranscodeToUtf16(text.utf8);
          v := VStr16(u);
      }
    }

    /** Read<T>: the formatter of the type reads into a value. */
    method Read(env: Env, t: Ty, into: Val) returns (v: Val)
      requires Valid()
      modifies this
      ensures Valid() && (v, State()) == D.Dec(env, t, into, old(State()))
      decreases |data| - pos, t, 2
    {
      if IsLeaf(t) {
        v := ReadLeaf(t);
        return;
      }
      if IsCollection(t) {
        v := ReadCollection(env, t, into);
        return;
      }
      match t {
        case Obj(id) =>
          var c := ClassOf(env, id);
          v := ReadObject(env, t, c, D.FieldsOf(c, into));
        case Pair(a, b) =>
          var parts := D.PartsOf(env, a, b, into);
          var x := Read(env, a, parts.0);
          var y := Read(env, b, parts.1);
          v := VPair(x, y);
        case Tuple(ts) =>
          var h := ReadObjectHeader();
          if h.isNull {
            return D.Default(env, t);
          }
          var vs := ReadMembers(env, ts, D.DefaultAll(env, ts), h.count);
          v := VTuple(vs);
        case Opt(i) =>
          v := ReadOptional(env, i);
        case Ptr(i) =>
          v := ReadNullable(env, i);
        case Union(tags, alts) =>
          v := ReadUnion(env, tags, alts, into);
      }
    }

    method EnterObject() returns (ok: bool)
      requires Valid()
      modifies this
      ensures Valid() && ok == (old(depth) < options.maxDepth)
      ensures var s := old(State()).(depth := old(depth) + 1); State() == if ok then s else D.Fail(s, LengthLimit)
    {
      depth := depth + 1;
      if depth > options.maxDepth {
        Fail(LengthLimit);
        return false;
      }
      return true;
    }

    method LeaveObject()
      requires Valid()
      modifies this
      ensures Valid() && State() == D.Leave(old(State()))
    {
      if depth > 0 {
        depth := depth - 1;
      }
    }

    method ReadObject(env: Env, ghost t: Ty, c: Class, fields: seq<Val>) returns (v: Val)
      requires Valid() && |fields| == |c.members|
      modifies this
      ensures Valid() && (v, State()) == D.DecObject(env, t, c, fields, old(State()))
      decreases |data| - pos, t, 1
    {
      var h := ReadObjectHeader();
      ObjectCases(env, t, c, fields, old(State()), h, State());
      if h.isNull {
        return VObj(c.defaults);
      }
      if c.members == [] {
        return VObj([]);
      }
      v := ReadBody(env, old(pos), t, c, fields, h.count);
    }

    /** What comes behind the header that starts at `start`. */
    method ReadBody(env: Env, ghost start: nat, ghost t: Ty, c: Class, fields: seq<Val>, count: nat) returns (v: Val)
      requires Valid() && |fields| == |c.members| && start <= pos && (count > 0 ==> start < pos)
      modifies this
      ensures Valid() && (v, State()) == ObjectBody(env, c, fields, count, old(State()))
      decreases |data| - start, t, 0
    {
      var ok := EnterObject();
      if !ok {
        return VObj(fields);
      }
      var vs := fields;
      if count > 0 {
        vs := ReadMembers(env, c.members, fields, count);
      }
      LeaveObject();
      v := VObj(vs);
    }

    /** The members in order, each only if the header announced it. */
    method ReadMembers(env: Env, ts: seq<Ty>, ds: seq<Val>, count: nat) returns (vs: seq<Val>)
      requires Valid() && |ds| == |ts|
      modifies this
      ensures Valid() && (vs, State()) == D.DecAll(env, ts, ds, count, old(State()))
      decreases |data| - pos, ts, 0
    {
      ghost var end := D.DecAll(env, ts, ds, count, State());
      MembersBegin(env, ts, ds, count, State());
      vs := ds;
      var index := 0;
      while index < |ts|
        invariant Valid() && D.Follows(old(State()), State())
        invariant 0 <= index <= |ts| && MembersAt(env, ts, count, index, vs, State(), end)
      {
        if count > index {
          ghost var s := State();
          var v := Read(env, ts[index], vs[index]);
          MembersNext(env, ts, count, index, vs, s, v, State(), end);
          vs := vs[index := v];
        }
        index := index + 1;
      }
      MembersEnd(env, ts, count, vs, State(), end);
    }

    method ReadCollection(env: Env, t: Ty, ghost into: Val) returns (v: Val)
      requires Valid() && IsCollection(t)
      modifies this
      ensures Valid() && (v, State()) == D.Dec(env, t, into, old(State()))
      decreases |data| - pos, t, 0
    {
      var e := ElemOf(t);
      var out: seq<Val> := if t.Arr? then D.Copies(D.Default(env, e), t.n) else [];
      assert D.Collect(env, t, []) == VList(out);
      var len := ReadCollectionLength(D.MinElementOf(t));
      CollectionBehindLength(env, t, into, old(State()), len, State());
      if len <= 0 {
        return VList(out);
      }
      if IsArithmetic(e) {
        SpanIsProduct(len, ValueSize(e));
      }
      if t.Sequence? && t.isVector && IsArithmetic(e) {
        out := ReadVector(env, e, len);
      } else if t.Arr? && IsArithmetic(e) {
        out := ReadArray(env, t, len);
      } else {
        ghost var vs;
        out, vs := ReadElements(env, t, len, out);
      }
      v := VList(out);
    }

    /** The loop of every container formatter: read an element, store it. */
    method ReadElements(env: Env, t: Ty, len: nat, empty: seq<Val>) returns (out: seq<Val>, ghost vs: seq<Val>)
      requires Valid() && IsCollection(t) && D.Collect(env, t, []) == VList(empty)
      modifies this
      ensures Valid() && (vs, State()) == D.DecEach(env, ElemOf(t), len, old(State()))
      ensures D.Collect(env, t, vs) == VList(out)
      decreases |data| - pos, ElemOf(t), 5
    {
      ghost var e, got, left := ElemOf(t), [], len;
      ghost var now := State();
      ghost var (rest, end) := D.DecEach(env, e, len, now);
      vs, out := rest, empty;
      var i := 0;
      assert got + rest == vs;
      while i < len && error == NoError
        invariant i + left == len && |got| == i && D.Collect(env, t, got) == VList(out)
        invariant Valid() && old(pos) <= pos
        invariant now == State() && D.DecEach(env, e, left, now) == (rest, end) && got + rest == vs
      {
        ghost var x;
        out, x := StoreElement(env, t, out, i, got);
        EachNext(env, e, left, now, x, State(), rest, end);
        OneMoreRead(got, rest);
        got, rest, left, now := got + [x], rest[1..], left - 1, State();
        i := i + 1;
      }
      EachStops(env, e, left, State());
      assert got + [] == got;
    }

    /** One round of the loop. */
    method StoreElement(env: Env, t: Ty, out: seq<Val>, i: nat, ghost got: seq<Val>) returns (r: seq<Val>, ghost x: Val)
      requires Valid() && IsCollection(t) && |got| == i && D.Collect(env, t, got) == VList(out)
      modifies this
      ensures Valid() && (x, State()) == D.Dec(env, ElemOf(t), D.Default(env, ElemOf(t)), old(State()))
      ensures D.Collect(env, t, got + [x]) == VList(r)
      decreases |data| - pos, ElemOf(t), 4
    {
      var v := ReadElement(env, t);
      StoreCollects(env, t, got, out, v);
      r, x := Store(t, out, i, v), v;
    }

    /** An element; for a map, its key and its value. */
    method ReadElement(env: Env, t: Ty) returns (v: Val)
      requires Valid() && IsCollection(t)
      modifies this
      ensures Valid() && (v, State()) == D.Dec(env, ElemOf(t), D.Default(env, ElemOf(t)), old(State()))
      decreases |data| - pos, ElemOf(t), 3
    {
      if t.Map? {
        var key := Read(env, t.key, D.Default(env, t.key));
        var value := Read(env, t.value, D.Default(env, t.value));
        v := VPair(key, value);
      } else {
        v := Read(env, ElemOf(t), D.Default(env, ElemOf(t)));
      }
    }

    method ReadNullable(env: Env, i: Ty) returns (v: Val)
      requires Valid()
      modifies this
      ensures Valid() && (v, State()) == D.DecNullable(env, i, old(State()))
      decreases |data| - pos, i, 3
    {
      if pos < |data| && data[pos] == NULL_OBJECT {
        var b := ReadByte();
        return VNull;
      }
      var x := Read(env, i, D.Default(env, i));
      v := VSome(x);
    }

    /** Reads a collection header with a copy of the reader. */
    method PeekNullCollection() returns (isNull: bool)
      requires Valid()
      ensures isNull == (State().Remaining() >= 4 && D.ReadInt32(State()).0 == -1)
    {
      if |data| - pos < 4 {
        return false;
      }
      var peek := new MemoryPackReader.Copy(this);
      var len := peek.ReadInt32();
      isNull := len == -1;
    }

    method ReadNullableValue(ghost env: Env, i: Ty) returns (v: Val)
      requires Valid() && NullEncoding(i).NullableValue?
      modifies this
      ensures Valid() && (v, State()) == D.DecOptional(env, i, old(State()))
    {
      var bs := ReadUnmanaged(NullableSize(i));
      if error != NoError || bs[0] == 0 {
        return VNull;
      }
      v := VSome(D.ValueOf(i, bs[ValueAlign(i)..ValueAlign(i) + ValueSize(i)]));
    }

    method ReadNullableString(ghost env: Env, i: Ty) returns (v: Val)
      requires Valid() && NullEncoding(i).StringNull?
      modifies this
      ensures Valid() && (v, State()) == D.DecOptional(env, i, old(State()))
    {
      var text := ReadString();
      v := if text.Text? then VSome(VStr(text.utf8)) else VNull;
    }

    method ReadOptional(env: Env, i: Ty) returns (v: Val)
      requires Valid()
      modifies this
      ensures Valid() && (v, State()) == D.DecOptional(env, i, old(State()))
      decreases |data| - pos, i, 4
    {
      match NullEncoding(i) {
        case NullableValue => v := ReadNullableValue(env, i);
        case StringNull => v := ReadNullableString(env, i);
        case CollectionNull =>
          var isNull := PeekNullCollection();
          if isNull {
            Advance(4);
            return VNull;
          }
          var x := Read(env, i, D.Default(env, i));
          v := VSome(x);
        case ObjectNull =>
          v := ReadNullable(env, i);
      }
    }

    method ReadUnion(env: Env, tags: seq<nat>, alts: seq<Ty>, into: Val) returns (v: Val)
      requires Valid()
      modifies this
      ensures Valid() && (v, State()) == D.Dec(env, Union(tags, alts), into, old(State()))
      decreases |data| - pos, Union(tags, alts), 0
    {
      var header := ReadUnionHeader();
      UnionCases(env, tags, alts, into, old(State()), header, State());
      if header.NullUnion? {
        return D.Default(env, Union(tags, alts));
      }
      var i := 0;
      while i < |tags| && tags[i] != header.tag
        invariant 0 <= i <= |tags| && header.tag !in tags[..i]
      {
        i := i + 1;
      }
      FirstTag(tags, header.tag, i);
      if i < |tags| && i < |alts| {
        var x := Read(env, alts[i], D.Default(env, alts[i]));
        v := VUnion(header.tag, x);
      } else {
        Advance(|data| - pos);
        v := into;
      }
    }
  }

  lemma FirstTag(tags: seq<nat>, tag: nat, i: nat)
    requires i <= |tags| && tag !in tags[..i] && (i < |tags| ==> tags[i] == tag)
    ensures FindTag(tags, tag) == i
  {
    assert FindTag(tags, tag) <= |tags|;
  }
}
