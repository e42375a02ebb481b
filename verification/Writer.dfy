/**
 MemoryPackWriter: its three kinds of buffer behave as one append-only byte string, and Write<T>
 appends the encoding of the value.
 */
module Writer {
  import opened Bytes
  import opened Transcode
  import opened Wire
  import StructLayout

  // -- The abstract writer -------------------------------------------------------------------

  /** What is left of a fixed buffer, or no limit. */
  datatype Room = Unbounded | Left(tail: bytes)

  datatype WState = WState(error: MemoryPackError, contents: bytes, room: Room)
  {
    predicate Ok() { error == NoError }
  }

  predicate HasRoom(room: Room, n: nat)
  {
    room.Left? ==> n <= |room.tail|
  }

  function Take(room: Room, n: nat): (r: Room)
    requires HasRoom(room, n)
  {
    if room.Left? then Left(room.tail[n..]) else room
  }

  /** `r` is what `s` becomes when bytes behind the written ones are all that may have changed. */
  predicate Shrinks(s: Room, r: Room)
  {
    || (s.Unbounded? && r.Unbounded?)
    || (s.Left? && r.Left? && |r.tail| <= |s.tail| && r.tail == s.tail[|s.tail| - |r.tail|..])
  }

  /**
   `bs` was appended, or the writer is in error: because it was, because the value cannot be written
   at all, or, with BufferOverflow, because `bs` does not fit. The first error stays. In any case what was there before is
   still there, and a fixed buffer is untouched behind its write position.
   */
  predicate Wrote(s: WState, r: WState, bs: bytes, possible: bool)
  {
    && s.contents <= r.contents
    && (!s.Ok() ==> r.error == s.error)
    && (r.Ok() <==> s.Ok() && possible && HasRoom(s.room, |bs|))
    && (s.Ok() && possible && !r.Ok() ==> r.error == BufferOverflow)
    && (r.Ok() ==> r.contents == s.contents + bs && HasRoom(s.room, |bs|) && r.room == Take(s.room, |bs|))
    && Shrinks(s.room, r.room)
  }

  lemma WroteNothing(s: WState)
    ensures Wrote(s, s, [], true)
  {
    assert s.contents + [] == s.contents;
  }

  lemma WroteBoth(s: WState, m: WState, r: WState, a: bytes, b: bytes, p: bool, q: bool)
    requires Wrote(s, m, a, p) && Wrote(m, r, b, q)
    ensures Wrote(s, r, a + b, p && q)
  {
    assert s.contents + a + b == s.contents + (a + b);
    if s.room.Left? {
      assert r.room.tail == s.room.tail[|s.room.tail| - |r.room.tail|..];
    }
  }

  function Failing(s: WState, code: MemoryPackError): (r: WState)
  {
    s.(error := if s.Ok() then code else s.error)
  }

  lemma FailingWrites(s: WState, code: MemoryPackError, bs: bytes)
    requires code != NoError
    ensures Wrote(s, Failing(s, code), bs, false)
  {
  }

  // -- Values that can be written ------------------------------------------------------------------

  /** Every length fits an int32_t and every member count an object header. */
  predicate Writable(env: Env, t: Ty, v: Val)
    decreases v
  {
    if IsLeaf(t) then (t.Str? && v.VStr? ==> |v.utf8| <= INT32_MAX) && (t.Str16? && v.VStr16? ==> |v.utf16| <= INT32_MAX)
    else if IsCollection(t) then
      v.VList? ==> |v.elems| <= INT32_MAX && WritableEach(env, ElemOf(t), v.elems)
    else
      match (t, v)
      case (Obj(id), VObj(fields)) => |fields| <= MAX_MEMBER_COUNT && WritableAll(env, ClassOf(env, id).members, fields)
      case (Pair(a, b), VPair(x, y)) => Writable(env, a, x) && Writable(env, b, y)
      case (Tuple(ts), VTuple(vs)) => |vs| <= MAX_MEMBER_COUNT && WritableAll(env, ts, vs)
      case (Opt(i), VSome(x)) => Writable(env, i, x)
      case (Ptr(i), VSome(x)) => Writable(env, i, x)
      case (Union(tags, alts), VUnion(tag, x)) =>
        var i := FindTag(tags, tag);
        i < |alts| ==> Writable(env, alts[i], x)
      case _ => true
  }

  predicate WritableEach(env: Env, e: Ty, vs: seq<Val>)
    decreases vs
  {
    vs == [] || (Writable(env, e, vs[0]) && WritableEach(env, e, vs[1..]))
  }

  predicate WritableAll(env: Env, ts: seq<Ty>, vs: seq<Val>)
    decreases vs
  {
    ts == [] || vs == [] || (Writable(env, ts[0], vs[0]) && WritableAll(env, ts[1..], vs[1..]))
  }

  /** The elements from `i` on are still to be written. */
  ghost predicate EachFrom(env: Env, e: Ty, vs: seq<Val>, i: nat, s: WState, now: WState, bs: bytes, p: bool)
  {
    && i <= |vs| && Wrote(s, now, bs, p)
    && bs + EncEach(env, e, vs[i..]) == EncEach(env, e, vs)
    && (p && WritableEach(env, e, vs[i..]) <==> WritableEach(env, e, vs))
  }

  lemma EachBegin(env: Env, e: Ty, vs: seq<Val>, s: WState)
    ensures EachFrom(env, e, vs, 0, s, s, [], true)
  {
    WroteNothing(s);
    assert vs[0..] == vs && [] + EncEach(env, e, vs) == EncEach(env, e, vs);
  }

  lemma EachNext(env: Env, e: Ty, vs: seq<Val>, i: nat, s: WState, now: WState, bs: bytes, p: bool,
                 b: bytes, q: bool, next: WState)
    requires i < |vs| && EachFrom(env, e, vs, i, s, now, bs, p)
    requires b == Enc(env, e, vs[i]) && q == Writable(env, e, vs[i]) && Wrote(now, next, b, q)
    ensures EachFrom(env, e, vs, i + 1, s, next, bs + b, p && q)
  {
    WroteBoth(s, now, next, bs, b, p, q);
    assert vs[i..][0] == vs[i] && vs[i..][1..] == vs[i + 1..];
    var rest := EncEach(env, e, vs[i + 1..]);
    assert bs + (b + rest) == bs + b + rest;
  }

  lemma EachEnd(env: Env, e: Ty, vs: seq<Val>, s: WState, now: WState, bs: bytes, p: bool)
    requires EachFrom(env, e, vs, |vs|, s, now, bs, p)
    ensures Wrote(s, now, EncEach(env, e, vs), WritableEach(env, e, vs))
  {
    assert vs[|vs|..] == [] && bs + [] == bs;
  }

  lemma UnitNext(s: WState, m: WState, r: WState, done: bytes, u: units, i: nat, unit: bytes, all: bytes)
    requires i < |u| && unit == LE(u[i], 2) && Wrote(s, m, done, true) && Wrote(m, r, unit, true)
    requires done + UnitsLE(u[i..]) == all
    ensures Wrote(s, r, done + unit, true) && done + unit + UnitsLE(u[i + 1..]) == all
  {
    WroteBoth(s, m, r, done, unit, true, true);
    assert u[i..][1..] == u[i + 1..];
    assert done + (unit + UnitsLE(u[i + 1..])) == done + unit + UnitsLE(u[i + 1..]);
  }

  /** memcpy */
  method CopyInto(buf: array<byte>, at: nat, src: bytes)
    requires at + |src| <= buf.Length
    modifies buf
    ensures buf[..] == old(buf[..at]) + src + old(buf[at + |src|..])
  {
    var i := 0;
    while i < |src|
      invariant 0 <= i <= |src|
      invariant forall k :: 0 <= k < at ==> buf[k] == old(buf[k])
      invariant forall k :: 0 <= k < i ==> buf[at + k] == src[k]
      invariant forall k :: at + i <= k < buf.Length ==> buf[k] == old(buf[k])
    {
      buf[at + i] := src[i];
      i := i + 1;
    }
  }

  // -- Numbers in memory ---------------------------------------------------------------------------

  predicate AllInts(vs: seq<Val>)
  {
    forall v | v in vs :: v.VInt?
  }

  /** `(n >> 8 * j) & 0xFF` */
  function ByteOf(n: nat, j: nat): (b: byte)
  {
    if j == 0 then n % 256 else ByteOf(n / 256, j - 1)
  }

  /** A contiguous range of `width`-byte numbers on a little-endian host, byte by byte. */
  function Memory(width: nat, vs: seq<Val>): (bs: bytes)
    requires AllInts(vs)
    ensures |bs| == |vs| * width
  {
    seq(|vs| * width, (k: nat) requires k < |vs| * width =>
      ElementIndex(k, width, |vs|); ByteOf(vs[k / width].bits, k % width))
  }

  lemma ElementIndex(k: nat, width: nat, n: nat)
    requires k < n * width
    ensures width > 0 && k / width < n
  {
    assert width > 0;
    StructLayout.QuotientLess(k, width, n);
  }

  lemma {:induction false} ByteOfLE(n: nat, width: nat, j: nat)
    requires j < width
    ensures LE(n, width)[j] == ByteOf(n, j)
  {
    if j > 0 {
      ByteOfLE(n / 256, width - 1, j - 1);
    }
  }

  /** The bytes in memory are the encodings of the numbers, one after the other. */
  lemma {:induction false} MemoryIsEncoding(env: Env, e: Ty, vs: seq<Val>)
    requires e.Prim? && AllInts(vs)
    ensures Memory(e.width, vs) == EncEach(env, e, vs)
    decreases |vs|
  {
    if vs != [] {
      var w, rest := e.width, vs[1..];
      assert vs[0] in vs;
      MemoryIsEncoding(env, e, rest);
      FirstInMemory(w, vs);
      assert Enc(env, e, vs[0]) == LE(vs[0].bits, w);
    }
  }

  lemma FirstInMemory(w: nat, vs: seq<Val>)
    requires vs != [] && AllInts(vs)
    ensures vs[0] in vs && Memory(w, vs) == LE(vs[0].bits, w) + Memory(w, vs[1..])
  {
    var head, tail := LE(vs[0].bits, w), Memory(w, vs[1..]);
    assert |vs| * w == w + (|vs| - 1) * w;
    forall k: nat | k < |vs| * w ensures Memory(w, vs)[k] == (head + tail)[k] {
      if k < w {
        InFirst(w, vs, k);
      } else {
        InOthers(w, vs, k - w);
      }
    }
  }

  lemma InFirst(w: nat, vs: seq<Val>, k: nat)
    requires vs != [] && AllInts(vs) && k < w
    ensures vs[0] in vs && k < |vs| * w && Memory(w, vs)[k] == LE(vs[0].bits, w)[k]
  {
    assert |vs| * w == w + (|vs| - 1) * w;
    ElementIndex(k, w, |vs|);
    StructLayout.DivModUnique(k, w, 0, k);
    ByteOfLE(vs[0].bits, w, k);
  }

  lemma InOthers(w: nat, vs: seq<Val>, k: nat)
    requires vs != [] && AllInts(vs) && k < (|vs| - 1) * w
    ensures w + k < |vs| * w && Memory(w, vs)[w + k] == Memory(w, vs[1..])[k]
  {
    assert |vs| * w == w + (|vs| - 1) * w;
    ElementIndex(k, w, |vs| - 1);
    ElementIndex(w + k, w, |vs|);
    NextIndex(k, w);
  }

  lemma NextIndex(k: nat, w: nat)
    requires w > 0
    ensures (w + k) / w == k / w + 1 && (w + k) % w == k % w
  {
    StructLayout.DivModUnique(w + k, w, k / w + 1, k % w);
  }

  lemma {:induction false} NumbersWritable(env: Env, e: Ty, vs: seq<Val>)
    requires e.Prim?
    ensures WritableEach(env, e, vs)
  {
    if vs != [] {
      NumbersWritable(env, e, vs[1..]);
    }
  }

  lemma AfterNothing(r: WState, bs: bytes, p: bool)
    requires Wrote(WState(NoError, [], Unbounded), r, bs, p)
    ensures r.Ok() <==> p
    ensures p ==> r.contents == bs
  {
    assert [] + bs == bs;
  }

  /** `n` bytes were put into the buffer: all of `bs` if they fit, else the buffer counts as unused. */
  predicate PutInto(before: bytes, after: bytes, n: nat, bs: bytes, possible: bool)
  {
    if possible && |bs| <= |before| then n == |bs| && after == bs + before[n..] else n == 0
  }

  /** What the size of the first value is, and what is then in a fixed buffer. */
  lemma SizedIs(s: WState, r: WState, bs: bytes, p: bool, n: nat)
    requires s.Ok() && s.contents == [] && Wrote(s, r, bs, p) && n == if r.Ok() then |r.contents| else 0
    ensures s.room.Unbounded? ==> n == if p then |bs| else 0
    ensures s.room.Left? ==> r.room.Left? && PutInto(s.room.tail, r.contents + r.room.tail, n, bs, p)
  {
    assert [] + bs == bs;
  }

  // -- The writer ----------------------------------------------------------------------------------

  /** A std::vector<uint8_t> of the caller. */
  class ByteVector {
    var items: bytes

    constructor (items: bytes)
      ensures this.items == items
    {
      this.items := items;
    }
  }

  datatype Mode = Owned | External(vec: ByteVector) | Fixed(buf: array<byte>)

  class MemoryPackWriter {
    const mode: Mode
    var owned: bytes
    var ownedPos: nat
    var fixedPos: nat
    var error: MemoryPackError

    /** The objects outside the writer that it writes to. */
    ghost function Target(): (objects: set<object>)
    {
      match mode case Owned => {} case External(vec) => {vec} case Fixed(buf) => {buf}
    }

    ghost predicate Valid()
      reads this, Target()
    {
      ownedPos <= |owned| && (mode.Fixed? ==> fixedPos <= mode.buf.Length)
    }

    /** What Data() and Size() show. */
    ghost function Contents(): (bs: bytes)
      requires Valid()
      reads this, Target()
    {
      match mode case Owned => owned[..ownedPos] case External(vec) => vec.items case Fixed(buf) => buf[..fixedPos]
    }

    ghost function State(): (s: WState)
      requires Valid()
      reads this, Target()
    {
      WState(error, Contents(), if mode.Fixed? then Left(mode.buf[fixedPos..]) else Unbounded)
    }

    constructor ()
      ensures Valid() && State() == WState(NoError, [], Unbounded) && mode == Owned
    {
      mode := Owned;
      owned, ownedPos, fixedPos, error := [], 0, 0, NoError;
    }

    constructor ToVector(vec: ByteVector)
      ensures Valid() && State() == WState(NoError, vec.items, Unbounded) && mode == External(vec)
    {
      mode := External(vec);
      owned, ownedPos, fixedPos, error := [], 0, 0, NoError;
    }

    /** A null pointer, as an empty span may have, makes it a writer with an owned buffer. */
    constructor ToBuffer(buf: array?<byte>)
      ensures Valid() && mode == (if buf == null then Owned else Fixed(buf))
      ensures State() == WState(NoError, [], if buf == null then Unbounded else Left(buf[..]))
    {
      mode := if buf == null then Owned else Fixed(buf);
      owned, ownedPos, fixedPos, error := [], 0, 0, NoError;
      new;
      assert buf != null ==> buf[0..] == buf[..];
    }

    /** resize: new elements are zero. */
    static function Resized(v: bytes, n: nat): (r: bytes)
      ensures |r| == n
    {
      if n <= |v| then v[..n] else v + Zeros(n - |v|)
    }

    method Reserve(capacity: nat)
      requires Valid()
      modifies this
      ensures Valid() && State() == old(State())
    {
      if mode == Owned && capacity > |owned| {
        owned := Resized(owned, capacity);
      }
    }

    /** Starts over; the whole fixed buffer is available again. */
    method Clear()
      requires Valid()
      modifies this, Target()
      ensures Valid() && error == NoError && Contents() == []
      ensures mode.Fixed? ==> State().room == Left(old(mode.buf[..]))
    {
      match mode {
        case External(vec) => vec.items := [];
        case Fixed(_) => fixedPos := 0;
        case Owned => ownedPos := 0;
      }
      error := NoError;
    }

    method Size() returns (n: nat)
      requires Valid()
      ensures n == |Contents()|
    {
      match mode {
        case External(vec) => n := |vec.items|;
        case Fixed(_) => n := fixedPos;
        case Owned => n := ownedPos;
      }
    }

    method GetSpan() returns (bs: bytes)
      requires Valid()
      ensures bs == Contents()
    {
      match mode {
        case External(vec) => bs := vec.items;
        case Fixed(buf) => bs := buf[..fixedPos];
        case Owned => bs := owned[..ownedPos];
      }
    }

    /** Hands the owned buffer over, trimmed to what was written, and starts over. */
    method TakeBuffer() returns (bs: bytes)
      requires Valid()
      modifies this
      ensures Valid()
      ensures mode == Owned ==> bs == old(Contents()) && State() == WState(old(error), [], Unbounded)
      ensures mode != Owned ==> bs == [] && State() == Failing(old(State()), NotSupported)
    {
      if mode != Owned {
        Fail(NotSupported);
        return [];
      }
      owned := Resized(owned, ownedPos);
      ownedPos := 0;
      bs := owned;
      owned := [];
    }

    method Fail(code: MemoryPackError)
      requires Valid() && code != NoError
      modifies this
      ensures Valid() && State() == Failing(old(State()), code)
    {
      if error == NoError {
        error := code;
      }
    }

    /** Doubles the buffer until there is room for `needed` more bytes. */
    method GrowOwned(needed: nat)
      requires Valid()
      modifies this
      ensures Valid() && State() == old(State()) && ownedPos == old(ownedPos)
      ensures ownedPos + needed <= |owned|
    {
      var target := ownedPos + needed;
      var next := if |owned| > 0 then |owned| * 2 else 64;
      while next < target
        invariant next > |owned|
        decreases target - next
      {
        next := next * 2;
      }
      owned := Resized(owned, next);
    }

    method AppendByte(b: byte)
      requires Valid()
      modifies this, Target()
      ensures Valid() && Wrote(old(State()), State(), [b], true)
    {
      match mode {
        case External(vec) => vec.items := vec.items + [b];
        case Fixed(buf) => PushFixed(buf, b);
        case Owned => PushOwned(b);
      }
    }

    method PushFixed(buf: array<byte>, b: byte)
      requires Valid() && mode == Fixed(buf)
      modifies this, Target()
      ensures Valid() && Wrote(old(State()), State(), [b], true)
    {
      if fixedPos >= buf.Length {
        Fail(BufferOverflow);
        return;
      }
      buf[fixedPos] := b;
      fixedPos := fixedPos + 1;
      assert buf[..fixedPos] == old(buf[..fixedPos]) + [b];
      assert buf[fixedPos..] == old(buf[fixedPos..])[1..];
    }

    method PushOwned(b: byte)
      requires Valid() && mode == Owned
      modifies this
      ensures Valid() && Wrote(old(State()), State(), [b], true)
    {
      if ownedPos >= |owned| {
        GrowOwned(1);
      }
      owned := owned[ownedPos := b];
      ownedPos := ownedPos + 1;
      assert owned[..ownedPos] == old(owned[..ownedPos]) + [b];
    }

    method AppendBytes(src: bytes)
      requires Valid()
      modifies this, Target()
      ensures Valid() && Wrote(old(State()), State(), src, true)
    {
      if |src| == 0 {
        WroteNothing(State());
        return;
      }
      match mode {
        case External(vec) => vec.items := vec.items + src;
        case Fixed(buf) => AppendFixed(buf, src);
        case Owned => AppendOwned(src);
      }
    }

    method AppendFixed(buf: array<byte>, src: bytes)
      requires Valid() && mode == Fixed(buf)
      modifies this, Target()
      ensures Valid() && Wrote(old(State()), State(), src, true)
    {
      if |src| > buf.Length - fixedPos {
        Fail(BufferOverflow);
        return;
      }
      CopyInto(buf, fixedPos, src);
      fixedPos := fixedPos + |src|;
      assert buf[..fixedPos] == old(buf[..fixedPos]) + src;
      assert buf[fixedPos..] == old(buf[fixedPos..])[|src|..];
    }

    method AppendOwned(src: bytes)
      requires Valid() && mode == Owned
      modifies this
      ensures Valid() && Wrote(old(State()), State(), src, true)
    {
      if |src| > |owned| - ownedPos {
        GrowOwned(|src|);
      }
      owned := owned[..ownedPos] + src + owned[ownedPos + |src|..];
      ownedPos := ownedPos + |src|;
      assert owned[..ownedPos] == old(owned[..ownedPos]) + src;
    }

    // -- Headers, numbers and strings ------------------------------------------------------------

    method WriteRaw(n: nat, width: nat)
      requires Valid()
      modifies this, Target()
      ensures Valid() && Wrote(old(State()), State(), LE(n, width), true)
    {
      AppendBytes(LE(n, width));
    }

    method WriteObjectHeader(memberCount: nat)
      requires Valid()
      modifies this, Target()
      ensures Valid() && Wrote(old(State()), State(), LE(memberCount, 1), memberCount <= MAX_MEMBER_COUNT)
      ensures memberCount > 249 ==> State() == Failing(old(State()), InvalidHeader)
    {
      if memberCount > MAX_MEMBER_COUNT {
        Fail(InvalidHeader);
        return;
      }
      assert LE(memberCount, 1) == [memberCount];
      AppendByte(memberCount);
    }

    method WriteUnionHeader(tag: nat)
      requires Valid()
      modifies this, Target()
      ensures Valid() && Wrote(old(State()), State(), UnionHeader(tag), true)
    {
      if tag < WIDE_TAG {
        AppendByte(tag);
      } else {
        WriteTagged(WIDE_TAG, LE(tag, 2));
      }
    }

    method WriteVarIntLength(value: nat)
      requires Valid()
      modifies this, Target()
      ensures Valid() && Wrote(old(State()), State(), VarIntBytes(value), true)
    {
      if value <= 127 {
        AppendByte(value);
      } else if value <= 0xFFFF {
        WriteTagged(0x84, LE(value, 2));
      } else {
        WriteTagged(0x82, LE(value, 4));
      }
    }

    method WriteTagged(tag: byte, bs: bytes)
      requires Valid()
      modifies this, Target()
      ensures Valid() && Wrote(old(State()), State(), [tag] + bs, true)
    {
      ghost var s := State();
      AppendByte(tag);
      ghost var m := State();
      AppendBytes(bs);
      WroteBoth(s, m, State(), [tag], bs, true, true);
    }

    /** ToInt32Length: records an error for a size that does not fit. */
    method CheckedLength(size: nat) returns (n: int)
      requires Valid()
      modifies this
      ensures Valid() && n == if size <= INT32_MAX then size else -1
      ensures State() == if size <= INT32_MAX then old(State()) else Failing(old(State()), LengthLimit)
    {
      if size > INT32_MAX {
        Fail(LengthLimit);
        return -1;
      }
      return size;
    }

    method WriteString(text: bytes)
      requires Valid()
      modifies this, Target()
      ensures Valid() && Wrote(old(State()), State(), StringBytes(text), |text| <= INT32_MAX)
      ensures |text| > 0x7FFF_FFFF ==> State() == Failing(old(State()), LengthLimit)
    {
      if |text| == 0 {
        WriteRaw(0, 4);
        return;
      }
      var byteCount := CheckedLength(|text|);
      if byteCount < 0 {
        FailingWrites(old(State()), LengthLimit, StringBytes(text));
        return;
      }
      WriteText(text, byteCount);
    }

    method WriteText(text: bytes, byteCount: nat)
      requires Valid() && text != [] && byteCount == |text|
      modifies this, Target()
      ensures Valid() && Wrote(old(State()), State(), StringBytes(text), true)
    {
      var units := Utf16LengthFromUtf8(text);
      var header, count := LE(FromInt32(-1 - byteCount), 4), LE(units, 4);
      assert StringBytes(text) == header + count + text;
      WriteThree(header, count, text);
    }

    method WriteThree(a: bytes, b: bytes, c: bytes)
      requires Valid()
      modifies this, Target()
      ensures Valid() && Wrote(old(State()), State(), a + b + c, true)
    {
      ghost var s := State();
      AppendBytes(a);
      ghost var s1 := State();
      AppendBytes(b);
      ghost var s2 := State();
      WroteBoth(s, s1, s2, a, b, true, true);
      AppendBytes(c);
      WroteBoth(s, s2, State(), a + b, c, true, true);
    }

    method WriteStringUtf16(u: units)
      requires Valid()
      modifies this, Target()
      ensures Valid() && Wrote(old(State()), State(), Utf16StringBytes(u), |u| <= INT32_MAX)
      ensures |u| > 0x7FFF_FFFF ==> State() == Failing(old(State()), LengthLimit)
    {
      if |u| == 0 {
        WriteRaw(0, 4);
        return;
      }
      var n := CheckedLength(|u|);
      if n < 0 {
        FailingWrites(old(State()), LengthLimit, Utf16StringBytes(u));
        return;
      }
      WriteUnits(LE(n, 4), u);
    }

    method WriteUnits(header: bytes, u: units)
      requires Valid()
      modifies this, Target()
      ensures Valid() && Wrote(old(State()), State(), header + UnitsLE(u), true)
    {
      ghost var s, done, all := State(), header, header + UnitsLE(u);
      AppendBytes(header);
      assert u[0..] == u;
      var i := 0;
      while i < |u|
        invariant 0 <= i <= |u| && Valid() && Wrote(s, State(), done, true)
        invariant done + UnitsLE(u[i..]) == all
      {
        ghost var m, unit := State(), LE(u[i], 2);
        WriteRaw(u[i], 2);
        UnitNext(s, m, State(), done, u, i, unit, all);
        done := done + unit;
        i := i + 1;
      }
      assert u[i..] == [] && done + [] == done;
    }

    // -- Write<T> -----------------------------------------------------------------------------------

    method WriteLeaf(ghost env: Env, t: Ty, v: Val)
      requires Valid() && IsLeaf(t)
      modifies this, Target()
      ensures Valid() && Wrote(old(State()), State(), EncLeaf(t, v), Writable(env, t, v))
    {
      WroteNothing(State());
      match (t, v) {
        case (Prim(w, _), VInt(n)) => WriteRaw(n, w);
        case (Bool, VBool(b)) => AppendByte(if b then 1 else 0);
        case (Raw(_, _), VRaw(raw)) => AppendBytes(raw);
        case (Str, VStr(text)) => WriteString(text);
        case (Str16, VStr16(u)) => WriteStringUtf16(u);
        case _ =>
      }
    }

    /** Writes a value with the formatter of its type. */
    method Write(env: Env, t: Ty, v: Val)
      requires Valid()
      modifies this, Target()
      ensures Valid() && Wrote(old(State()), State(), Enc(env, t, v), Writable(env, t, v))
      decreases v, 2
    {
      if IsLeaf(t) {
        WriteLeaf(env, t, v);
        return;
      }
      if IsCollection(t) {
        WriteCollection(env, t, v);
        return;
      }
      WroteNothing(State());
      match (t, v) {
        case (Obj(id), VObj(fields)) => WriteMembers(env, ClassOf(env, id).members, fields);
        case (Pair(a, b), VPair(x, y)) =>
          WritePair(env, a, b, x, y, Enc(env, a, x), Writable(env, a, x), Enc(env, b, y), Writable(env, b, y));
        case (Tuple(ts), VTuple(vs)) => WriteMembers(env, ts, vs);
        case (Opt(i), _) => WriteOptional(env, i, v);
        case (Ptr(i), _) => WritePointer(env, i, v);
        case (Union(tags, alts), VUnion(tag, x)) => WriteAlternative(env, tags, alts, tag, x);
        case _ =>
      }
    }

    /** Write, in terms of the bytes the value is written as and of whether it can be. */
    method WriteAs(env: Env, t: Ty, v: Val, ghost bs: bytes, ghost p: bool)
      requires Valid() && bs == Enc(env, t, v) && p == Writable(env, t, v)
      modifies this, Target()
      ensures Valid() && Wrote(old(State()), State(), bs, p)
      decreases v, 3
    {
      Write(env, t, v);
    }

    /** The first value of a writer without limit. */
    method WriteFirst(env: Env, t: Ty, v: Val, ghost bs: bytes, ghost p: bool) returns (ok: bool)
      requires Valid() && State() == WState(NoError, [], Unbounded)
      requires bs == Enc(env, t, v) && p == Writable(env, t, v)
      modifies this, Target()
      ensures Valid() && ok == p && (ok ==> Contents() == bs)
    {
      WriteAs(env, t, v, bs, p);
      AfterNothing(State(), bs, p);
      ok := error == NoError;
    }

    /** The first value of a writer, and the size of what was written. */
    method WriteSized(env: Env, t: Ty, v: Val, ghost bs: bytes, ghost p: bool) returns (n: nat)
      requires Valid() && error == NoError && Contents() == [] && !mode.External? && (mode.Fixed? ==> fixedPos == 0)
      requires bs == Enc(env, t, v) && p == Writable(env, t, v)
      modifies this, Target()
      ensures mode.Fixed? ==> PutInto(old(mode.buf[..]), mode.buf[..], n, bs, p)
      ensures !mode.Fixed? ==> n == if p then |bs| else 0
    {
      ghost var s := State();
      assert mode.Fixed? ==> s.room.tail == mode.buf[..];
      WriteAs(env, t, v, bs, p);
      var size := Size();
      n := if error == NoError then size else 0;
      SizedIs(s, State(), bs, p, n);
      assert mode.Fixed? ==> mode.buf[..] == Contents() + State().room.tail;
    }

    method WritePair(env: Env, a: Ty, b: Ty, x: Val, y: Val,
                     ghost first: bytes, ghost p: bool, ghost second: bytes, ghost q: bool)
      requires Valid() && first == Enc(env, a, x) && p == Writable(env, a, x)
      requires second == Enc(env, b, y) && q == Writable(env, b, y)
      modifies this, Target()
      ensures Valid() && Wrote(old(State()), State(), first + second, p && q)
      decreases VPair(x, y), 0
    {
      ghost var s := State();
      WriteAs(env, a, x, first, p);
      ghost var m := State();
      WriteAs(env, b, y, second, q);
      WroteBoth(s, m, State(), first, second, p, q);
    }

    method WriteAlternative(env: Env, tags: seq<nat>, alts: seq<Ty>, tag: nat, x: Val)
      requires Valid()
      modifies this, Target()
      ensures Valid()
      ensures var u, v := Union(tags, alts), VUnion(tag, x); Wrote(old(State()), State(), Enc(env, u, v), Writable(env, u, v))
      decreases x, 3
    {
      ghost var s := State();
      WriteUnionHeader(tag);
      var i := FindTag(tags, tag);
      if i < |alts| {
        ghost var m := State();
        Write(env, alts[i], x);
        WroteBoth(s, m, State(), UnionHeader(tag), Enc(env, alts[i], x), true, Writable(env, alts[i], x));
      } else {
        assert UnionHeader(tag) + [] == UnionHeader(tag);
      }
    }

    method WriteOptional(env: Env, i: Ty, v: Val)
      requires Valid()
      modifies this, Target()
      ensures Valid() && Wrote(old(State()), State(), Enc(env, Opt(i), v), Writable(env, Opt(i), v))
      decreases v, 0
    {
      WroteNothing(State());
      match v {
        case VNull => AppendBytes(NullBytes(i));
        case VSome(x) => WriteSome(env, i, x);
        case _ =>
      }
    }

    method WritePointer(env: Env, i: Ty, v: Val)
      requires Valid()
      modifies this, Target()
      ensures Valid() && Wrote(old(State()), State(), Enc(env, Ptr(i), v), Writable(env, Ptr(i), v))
      decreases v, 0
    {
      WroteNothing(State());
      match v {
        case VNull => AppendByte(NULL_OBJECT);
        case VSome(x) => Write(env, i, x);
        case _ =>
      }
    }

    /** An optional that holds a value. */
    method WriteSome(env: Env, i: Ty, x: Val)
      requires Valid()
      modifies this, Target()
      ensures Valid() && Wrote(old(State()), State(), SomeBytes(i, Enc(env, i, x)), Writable(env, i, x))
      decreases x, 3
    {
      if IsValueType(i) {
        WriteNullable(i, EncLeaf(i, x));
      } else {
        Write(env, i, x);
      }
    }

    /** The Nullable<T> struct: a flag, then the value at its alignment, padded with zeros. */
    method WriteNullable(i: Ty, payload: bytes)
      requires Valid() && IsValueType(i)
      modifies this, Target()
      ensures Valid() && Wrote(old(State()), State(), SomeBytes(i, payload), true)
    {
      var buf := payload;
      if |payload| == ValueSize(i) {
        buf := Zeros(NullableSize(i));
        buf := buf[0 := 1];
        buf := buf[..ValueAlign(i)] + payload + buf[ValueAlign(i) + |payload|..];
        assert buf == NullableBytes(i, payload);
      }
      AppendBytes(buf);
    }

    /** The header and the members of an object or tuple. */
    method WriteMembers(env: Env, ts: seq<Ty>, vs: seq<Val>)
      requires Valid()
      modifies this, Target()
      ensures Valid()
      ensures Wrote(old(State()), State(), LE(|vs|, 1) + EncAll(env, ts, vs),
                    |vs| <= MAX_MEMBER_COUNT && WritableAll(env, ts, vs))
      decreases vs, 1
    {
      ghost var s := State();
      WriteObjectHeader(|vs|);
      ghost var m := State();
      WriteAll(env, ts, vs);
      WroteBoth(s, m, State(), LE(|vs|, 1), EncAll(env, ts, vs), |vs| <= MAX_MEMBER_COUNT, WritableAll(env, ts, vs));
    }

    /** The first member, then the others, as the macro expands. */
    method WriteAll(env: Env, ts: seq<Ty>, vs: seq<Val>)
      requires Valid()
      modifies this, Target()
      ensures Valid() && Wrote(old(State()), State(), EncAll(env, ts, vs), WritableAll(env, ts, vs))
      decreases vs, 0
    {
      WroteNothing(State());
      if ts != [] && vs != [] {
        ghost var s, first, p := State(), Enc(env, ts[0], vs[0]), Writable(env, ts[0], vs[0]);
        Write(env, ts[0], vs[0]);
        ghost var m, others, q := State(), EncAll(env, ts[1..], vs[1..]), WritableAll(env, ts[1..], vs[1..]);
        WriteAll(env, ts[1..], vs[1..]);
        WroteBoth(s, m, State(), first, others, p, q);
      }
    }

    /** The length and the elements of a container. */
    method WriteCollection(env: Env, t: Ty, v: Val)
      requires Valid() && IsCollection(t)
      modifies this, Target()
      ensures Valid() && Wrote(old(State()), State(), Enc(env, t, v), Writable(env, t, v))
      ensures v.VList? && |v.elems| > 0x7FFF_FFFF ==> State() == Failing(old(State()), LengthLimit)
      decreases v, 0
    {
      if !v.VList? {
        WroteNothing(State());
        return;
      }
      var n := CheckedLength(|v.elems|);
      if n < 0 {
        FailingWrites(old(State()), LengthLimit, Enc(env, t, v));
        return;
      }
      var e := ElemOf(t);
      if (t.Arr? || (t.Sequence? && t.isVector)) && e.Prim? && !e.isEnum && AllInts(v.elems) {
        WriteContiguous(env, e, LE(n, 4), v.elems);
      } else {
        WriteItems(env, t, LE(n, 4), v.elems);
      }
    }

    /** The memory of a vector or array of numbers is appended at once. */
    method WriteContiguous(env: Env, e: Ty, header: bytes, vs: seq<Val>)
      requires Valid() && e.Prim? && AllInts(vs)
      modifies this, Target()
      ensures Valid() && Wrote(old(State()), State(), header + EncEach(env, e, vs), WritableEach(env, e, vs))
      decreases vs, 1
    {
      ghost var s := State();
      AppendBytes(header);
      ghost var m := State();
      var memory := Memory(e.width, vs);
      MemoryIsEncoding(env, e, vs);
      NumbersWritable(env, e, vs);
      AppendBytes(memory);
      WroteBoth(s, m, State(), header, memory, true, true);
    }

    method WriteItems(env: Env, t: Ty, header: bytes, vs: seq<Val>)
      requires Valid() && IsCollection(t)
      modifies this, Target()
      ensures Valid()
      ensures Wrote(old(State()), State(), header + EncEach(env, ElemOf(t), vs), WritableEach(env, ElemOf(t), vs))
      decreases vs, 1
    {
      ghost var s := State();
      AppendBytes(header);
      ghost var m := State();
      WriteElements(env, t, vs);
      WroteBoth(s, m, State(), header, EncEach(env, ElemOf(t), vs), true, WritableEach(env, ElemOf(t), vs));
    }

    method WriteElements(env: Env, t: Ty, vs: seq<Val>)
      requires Valid() && IsCollection(t)
      modifies this, Target()
      ensures Valid() && Wrote(old(State()), State(), EncEach(env, ElemOf(t), vs), WritableEach(env, ElemOf(t), vs))
      decreases vs, 0
    {
      ghost var s, e, bs, p := State(), ElemOf(t), [], true;
      EachBegin(env, e, vs, s);
      var i := 0;
      while i < |vs|
        invariant 0 <= i <= |vs| && Valid() && EachFrom(env, e, vs, i, s, State(), bs, p)
      {
        bs, p := WriteNext(env, t, vs, i, s, bs, p);
        i := i + 1;
      }
      EachEnd(env, e, vs, s, State(), bs, p);
    }

    /** One round of the loop. */
    method WriteNext(env: Env, t: Ty, vs: seq<Val>, i: nat, ghost s: WState, ghost bs: bytes, ghost p: bool)
      returns (ghost done: bytes, ghost possible: bool)
      requires Valid() && IsCollection(t) && i < |vs| && EachFrom(env, ElemOf(t), vs, i, s, State(), bs, p)
      modifies this, Target()
      ensures Valid() && EachFrom(env, ElemOf(t), vs, i + 1, s, State(), done, possible)
      decreases vs[i], 4
    {
      ghost var e := ElemOf(t);
      ghost var now, b, q := State(), Enc(env, e, vs[i]), Writable(env, e, vs[i]);
      WriteElement(env, t, vs[i]);
      EachNext(env, e, vs, i, s, now, bs, p, b, q, State());
      done, possible := bs + b, p && q;
    }

    /** An element; for a map, its key and its value. */
    method WriteElement(env: Env, t: Ty, v: Val)
      requires Valid() && IsCollection(t)
      modifies this, Target()
      ensures Valid() && Wrote(old(State()), State(), Enc(env, ElemOf(t), v), Writable(env, ElemOf(t), v))
      decreases v, 3
    {
      if t.Map? && v.VPair? {
        WritePair(env, t.key, t.value, v.fst, v.snd, Enc(env, t.key, v.fst), Writable(env, t.key, v.fst),
                  Enc(env, t.value, v.snd), Writable(env, t.value, v.snd));
      } else {
        Write(env, ElemOf(t), v);
      }
    }
  }

  // -- The top-level functions -----------------------------------------------------------------------

  /** A new buffer that holds exactly the encoding. */
  method Serialize(env: Env, t: Ty, v: Val) returns (ok: bool, bs: bytes)
    ensures ok <==> Writable(env, t, v)
    ensures ok ==> bs == Enc(env, t, v)
  {
    var writer := new MemoryPackWriter();
    ok := writer.WriteFirst(env, t, v, Enc(env, t, v), Writable(env, t, v));
    bs := writer.TakeBuffer();
  }

  /** Appends to the caller's vector. */
  method SerializeInto(env: Env, t: Ty, v: Val, out: ByteVector) returns (ok: bool)
    modifies out
    ensures ok <==> Writable(env, t, v)
    ensures ok ==> out.items == old(out.items) + Enc(env, t, v)
  {
    var writer := new MemoryPackWriter.ToVector(out);
    writer.Write(env, t, v);
    ok := writer.error == NoError;
  }

  /**
   Succeeds exactly when the encoding fits, and leaves the rest of the buffer alone. Only for a null
   pointer it reports the size of bytes that were written nowhere.
   */
  method SerializeTo(buffer: array?<byte>, env: Env, t: Ty, v: Val) returns (n: nat)
    modifies if buffer == null then {} else {buffer}
    ensures buffer != null ==> PutInto(old(buffer[..]), buffer[..], n, Enc(env, t, v), Writable(env, t, v))
    ensures buffer == null ==> n == if Writable(env, t, v) then |Enc(env, t, v)| else 0
  {
    var writer := new MemoryPackWriter.ToBuffer(buffer);
    n := writer.WriteSized(env, t, v, Enc(env, t, v), Writable(env, t, v));
  }
}
