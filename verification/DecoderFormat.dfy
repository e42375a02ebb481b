/**
 What the reader makes of the bytes of each header, in numbers: which are accepted, what they mean, and
 which error the others are answered with.
 */
module DecoderFormat {
  import opened Bytes
  import opened Transcode
  import opened Wire
  import opened Decoder
  import opened DecoderSteps
  import opened WireFormat

  function At(s: RState, p: nat): (r: RState)
    requires p <= |s.data|
  {
    s.(pos := p)
  }

  // -- Numbers -----------------------------------------------------------------------------------

  /** A signed number: the upper half of the range is negative. Too few bytes read as 0. */
  lemma Int32Is(s: RState)
    requires s.Ok()
    ensures ReadInt32(s) ==
            if s.pos + 4 > |s.data| then (0, s.(error := BufferUnderflow))
            else
              var n := Word(s.data, s.pos);
              (if n < 0x8000_0000 then n else n - 0x1_0000_0000, At(s, s.pos + 4))
  {
    if s.pos + 4 <= |s.data| {
      FourByteNumber(s.data[s.pos..s.pos + 4]);
    }
  }

  lemma UnderflowIs(s: RState, w: nat)
    requires s.Ok() && s.pos + w > |s.data|
    ensures ReadRaw(s, w) == (0, s.(error := BufferUnderflow))
  {
  }

  lemma BoolIs(env: Env, into: Val, s: RState)
    requires s.Ok() && s.pos < |s.data|
    ensures Dec(env, Bool, into, s) == (VBool(s.data[s.pos] != 0), At(s, s.pos + 1))
  {
  }

  // -- Collections -------------------------------------------------------------------------------

  /** The length of a collection: -1 is null, what is too long or cannot be there is an error. */
  lemma LengthIs(s: RState, min: nat)
    requires s.Ok()
    ensures var (len, r) := ReadCollectionLength(s, min);
            if s.pos + 4 > |s.data| then len == 0 && r == s.(error := BufferUnderflow)
            else
              var n, behind := Word(s.data, s.pos), At(s, s.pos + 4);
              if n == 0xFFFF_FFFF then len == -1 && r == behind
              else if n >= 0x8000_0000 then len == -1 && r == behind.(error := LengthLimit)
              else if n > s.opts.maxCollectionLength then len == -1 && r == behind.(error := LengthLimit)
              else if n * min > |s.data| - s.pos - 4 then len == -1 && r == behind.(error := LengthLimit)
              else len == n && r == behind
  {
    Int32Is(s);
  }

  /** No error exactly for null and for a length within the limit whose elements can be there. */
  lemma LengthAccepted(s: RState, min: nat)
    requires s.Ok()
    ensures ReadCollectionLength(s, min).1.Ok() <==>
            && s.pos + 4 <= |s.data|
            && var n := Word(s.data, s.pos);
               || n == 0xFFFF_FFFF
               || (n < 0x8000_0000 && n <= s.opts.maxCollectionLength && n * min <= |s.data| - s.pos - 4)
  {
    LengthIs(s, min);
  }

  /** What `min` is: the bytes an element takes at least, as far as the formatters know. */
  lemma MinimumIs(e: Ty, k: Ty, w: nat, n: nat)
    ensures MinElementOf(Sequence(Prim(w, false), true)) == w && MinElementOf(Sequence(Prim(w, true), true)) == w
    ensures MinElementOf(Sequence(Str, true)) == 4
    ensures !e.Prim? && !e.Str? ==> MinElementOf(Sequence(e, true)) == 1
    ensures !e.Prim? ==> MinElementOf(Sequence(e, false)) == 1 && MinElementOf(Set(e)) == 1
    ensures !e.Prim? && !k.Prim? ==> MinElementOf(Map(k, e)) == 2
    ensures MinElementOf(Map(Prim(w, false), Prim(n, false))) == w + n && MinElementOf(Set(Prim(w, false))) == w
    ensures MinElementOf(Arr(Prim(w, false), n)) == w && MinElementOf(Arr(Bool, n)) == 1 && MinElementOf(Arr(Str, n)) == 1
  {
  }

  /** A null collection is read as an empty one, and as an array of defaults. */
  lemma NullCollection(env: Env, t: Ty, into: Val, s: RState)
    requires IsCollection(t) && s.Ok() && s.pos + 4 <= |s.data| && s.data[s.pos..s.pos + 4] == [255, 255, 255, 255]
    ensures Dec(env, t, into, s).1 == At(s, s.pos + 4)
    ensures var v := Dec(env, t, into, s).0;
            && v.VList? && |v.elems| == (if t.Arr? then t.n else 0)
            && forall x | x in v.elems :: x == Default(env, ElemOf(t))
  {
    var bs := s.data[s.pos..s.pos + 4];
    assert s.data[s.pos] == bs[0] && s.data[s.pos + 1] == bs[1] && s.data[s.pos + 2] == bs[2] && s.data[s.pos + 3] == bs[3];
    LengthIs(s, MinElementOf(t));
    assert DecItems(env, t, ElemOf(t), MinElementOf(t), s) == ([], At(s, s.pos + 4));
  }

  /** An array takes the first elements, and defaults for those that are missing. */
  lemma ArrayIs(env: Env, e: Ty, n: nat, vs: seq<Val>, i: nat)
    requires i < n
    ensures var v := Collect(env, Arr(e, n), vs);
            |v.elems| == n && v.elems[i] == if i < |vs| then vs[i] else Default(env, e)
  {
  }

  /** No earlier element has the same key. */
  predicate IsFirst(isMap: bool, vs: seq<Val>, i: nat)
    requires i < |vs|
  {
    forall j | 0 <= j < i :: KeyOf(isMap, vs[j]) != KeyOf(isMap, vs[i])
  }

  /** The first element of each key is kept. */
  lemma {:induction false} FirstIsKept(isMap: bool, vs: seq<Val>, i: nat)
    requires i < |vs| && IsFirst(isMap, vs, i)
    ensures vs[i] in InsertAll(isMap, [], vs)
    decreases |vs|
  {
    var init, v := vs[..|vs| - 1], vs[|vs| - 1];
    assert vs == init + [v];
    InsertLast(isMap, [], init, v);
    if i < |init| {
      FirstIsKept(isMap, init, i);
    } else {
      assert forall j | 0 <= j < |init| :: vs[j] == init[j];
      NewKey(isMap, init, KeyOf(isMap, v));
    }
  }

  lemma {:induction false} NewKey(isMap: bool, vs: seq<Val>, k: Val)
    requires !HasKey(isMap, vs, k)
    ensures !HasKey(isMap, InsertAll(isMap, [], vs), k)
    decreases |vs|
  {
    if vs != [] {
      var init, v := vs[..|vs| - 1], vs[|vs| - 1];
      assert vs == init + [v];
      assert forall j | 0 <= j < |init| :: vs[j] == init[j];
      InsertLast(isMap, [], init, v);
      NewKey(isMap, init, k);
    }
  }

  /** Nothing else is. */
  lemma {:induction false} KeptIsFirst(isMap: bool, vs: seq<Val>, x: Val) returns (i: nat)
    requires x in InsertAll(isMap, [], vs)
    ensures i < |vs| && IsFirst(isMap, vs, i) && vs[i] == x
    decreases |vs|
  {
    var init, v := vs[..|vs| - 1], vs[|vs| - 1];
    assert vs == init + [v];
    InsertLast(isMap, [], init, v);
    if x in InsertAll(isMap, [], init) {
      i := KeptIsFirst(isMap, init, x);
      assert forall j | 0 <= j <= i :: vs[j] == init[j];
    } else {
      i := |init|;
      forall j | 0 <= j < i ensures KeyOf(isMap, vs[j]) != KeyOf(isMap, v) {
        KeyIsKept(isMap, init, j);
      }
    }
  }

  lemma {:induction false} KeyIsKept(isMap: bool, vs: seq<Val>, i: nat)
    requires i < |vs|
    ensures HasKey(isMap, InsertAll(isMap, [], vs), KeyOf(isMap, vs[i]))
    decreases |vs|
  {
    var init, v := vs[..|vs| - 1], vs[|vs| - 1];
    var r, k := InsertAll(isMap, [], init), KeyOf(isMap, vs[i]);
    assert vs == init + [v];
    InsertLast(isMap, [], init, v);
    if i < |init| {
      KeyIsKept(isMap, init, i);
      var j :| 0 <= j < |r| && KeyOf(isMap, r[j]) == k;
      assert Inserted(isMap, r, v)[j] == r[j];
    } else if !HasKey(isMap, r, k) {
      assert Inserted(isMap, r, v)[|r|] == v;
    }
  }

  // -- Objects, tuples and unions --------------------------------------------------------------------

  /** The header of an object or tuple: 255 is null, 250 to 254 are reserved. */
  lemma HeaderIs(s: RState)
    requires s.Ok()
    ensures ReadObjectHeader(s) ==
            if s.pos >= |s.data| then (Header(0, false), s.(error := BufferUnderflow))
            else
              var b, r := s.data[s.pos], At(s, s.pos + 1);
              if b == 255 then (Header(0, true), r)
              else if b >= 250 then (Header(0, true), r.(error := InvalidHeader))
              else (Header(b, false), r)
  {
  }

  /** A null object or tuple is read as its defaults; a reserved header is an error. */
  lemma NullMembers(env: Env, id: string, ts: seq<Ty>, into: Val, s: RState)
    requires s.Ok() && s.pos < |s.data| && s.data[s.pos] >= 250
    ensures var r := if s.data[s.pos] == 255 then At(s, s.pos + 1) else At(s, s.pos + 1).(error := InvalidHeader);
            && Dec(env, Obj(id), into, s) == (VObj(ClassOf(env, id).defaults), r)
            && Dec(env, Tuple(ts), into, s) == (VTuple(DefaultAll(env, ts)), r)
  {
    HeaderIs(s);
  }

  /** An object whose header is read at the depth limit keeps its members and is an error. */
  lemma TooDeep(env: Env, id: string, into: Val, s: RState)
    requires s.Ok() && s.pos < |s.data| && s.data[s.pos] < 250 && ClassOf(env, id).members != []
    requires s.depth >= s.opts.maxDepth
    ensures Dec(env, Obj(id), into, s).0 == VObj(FieldsOf(ClassOf(env, id), into))
    ensures Dec(env, Obj(id), into, s).1.error == LengthLimit && Dec(env, Obj(id), into, s).1.pos == s.pos + 1
  {
    HeaderIs(s);
  }

  /** The header of a union: tags up to 249, 250 and two bytes, 255 for null. */
  lemma TagIs(s: RState)
    requires s.Ok()
    ensures ReadUnionHeader(s) ==
            if s.pos >= |s.data| then (Tag(0), s.(error := BufferUnderflow))
            else
              var b, r := s.data[s.pos], At(s, s.pos + 1);
              if b < 250 then (Tag(b), r)
              else if b == 255 then (NullUnion, r)
              else if b > 250 then (NullUnion, r.(error := InvalidHeader))
              else if s.pos + 3 > |s.data| then (Tag(0), r.(error := BufferUnderflow))
              else
                var lo: int, hi: int := s.data[s.pos + 1], s.data[s.pos + 2];
                (Tag(lo + 0x100 * hi), At(s, s.pos + 3))
  {
    if s.pos + 3 <= |s.data| {
      TwoByteNumber(s.data[s.pos + 1..s.pos + 3]);
    }
  }

  /** A null union is its first alternative by default; behind an unknown tag everything is skipped. */
  lemma UnionIs(env: Env, tags: seq<nat>, alts: seq<Ty>, into: Val, s: RState)
    requires s.Ok() && s.pos < |s.data|
    ensures s.data[s.pos] == 255 ==>
              Dec(env, Union(tags, alts), into, s) == (Default(env, Union(tags, alts)), At(s, s.pos + 1))
    ensures s.data[s.pos] < 250 && s.data[s.pos] !in tags ==> Dec(env, Union(tags, alts), into, s) == (into, At(s, |s.data|))
  {
    TagIs(s);
    var b := s.data[s.pos];
    if b !in tags {
      NoTag(tags, b);
    }
  }

  lemma {:induction false} NoTag(tags: seq<nat>, tag: nat)
    requires tag !in tags
    ensures FindTag(tags, tag) == |tags|
  {
    if tags != [] {
      NoTag(tags[1..], tag);
    }
  }

  // -- Strings and nullables ---------------------------------------------------------------------------

  /**
   The header of a string: -1 is null, 0 is empty, a positive number counts UTF-16 units, and the others
   are the complement of a count of UTF-8 bytes behind four bytes that are not looked at.
   */
  lemma StringIs(s: RState)
    requires s.Ok()
    ensures var (m, r) := ReadString(s);
            if s.pos + 4 > |s.data| then (m, r) == (Text([]), s.(error := BufferUnderflow))
            else
              var h, left, p := Word(s.data, s.pos), |s.data| - s.pos - 4, s.pos + 4;
              if h == 0xFFFF_FFFF then (m, r) == (NullString, At(s, p))
              else if h == 0 then (m, r) == (Text([]), At(s, p))
              else if h < 0x8000_0000 then
                if h > s.opts.maxStringLength || 2 * h > left then (m, r) == (Text([]), At(s, p).(error := LengthLimit))
                else r == At(s, p + 2 * h)
              else
                var n := 0xFFFF_FFFF - h;
                if left < 4 then r == At(s, p).(error := BufferUnderflow)
                else if n > s.opts.maxStringLength || n > left - 4 then r == At(s, p + 4).(error := LengthLimit)
                else (m, r) == (Text(s.data[p + 4..p + 4 + n]), At(s, p + 4 + n))
  {
    Int32Is(s);
  }

  /** A null string is read as an empty one. */
  lemma NullStrings(env: Env, into: Val, s: RState)
    requires s.Ok() && s.pos + 4 <= |s.data| && Word(s.data, s.pos) == 0xFFFF_FFFF
    ensures Dec(env, Str, into, s) == (VStr([]), At(s, s.pos + 4))
    ensures Dec(env, Str16, into, s) == (VStr16([]), At(s, s.pos + 4))
    ensures Dec(env, Opt(Str), into, s) == (VNull, At(s, s.pos + 4))
  {
    StringIs(s);
  }

  /** Null if the flag is 0, a value if it is anything else, null and an error if bytes are missing. */
  lemma FlagIs(env: Env, i: Ty, into: Val, s: RState)
    requires s.Ok() && IsValueType(i)
    ensures var (v, r) := Dec(env, Opt(i), into, s);
            if s.pos + NullableSize(i) > |s.data| then (v, r) == (VNull, s.(error := BufferUnderflow))
            else r == At(s, s.pos + NullableSize(i)) && (v == VNull <==> s.data[s.pos] == 0)
  {
    var bs := ReadBytes(s, NullableSize(i)).0;
    if s.pos + NullableSize(i) <= |s.data| {
      assert bs[0] == s.data[s.pos];
    }
  }

  // -- Lengths of VersionTolerant members ----------------------------------------------------------------

  lemma VarIntIs(s: RState)
    requires s.Ok() && s.pos < |s.data|
    ensures var b, r := s.data[s.pos], ReadVarIntLength(s);
            && (b <= 127 ==> r == (b, At(s, s.pos + 1)))
            && (b > 127 && b != 0x84 && b != 0x82 ==> r == (0, At(s, s.pos + 1).(error := InvalidHeader)))
            && (b == 0x82 && s.pos + 5 <= |s.data| ==> r == (Word(s.data, s.pos + 1), At(s, s.pos + 5)))
            && (b == 0x84 && s.pos + 3 <= |s.data| ==>
                  var lo: int, hi: int := s.data[s.pos + 1], s.data[s.pos + 2];
                  r == (lo + 0x100 * hi, At(s, s.pos + 3)))
  {
    if s.pos + 3 <= |s.data| {
      TwoByteNumber(s.data[s.pos + 1..s.pos + 3]);
    }
    if s.pos + 5 <= |s.data| {
      FourByteNumber(s.data[s.pos + 1..s.pos + 5]);
    }
  }
}
