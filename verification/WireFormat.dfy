/**
 The bytes of every kind of value in numbers: what a reader of another implementation relies on.
 */
module WireFormat {
  import opened Bytes
  import opened Transcode
  import opened Wire

  // -- Numbers -----------------------------------------------------------------------------------

  /** The number in the four bytes at `p`, least significant first. */
  function Word(bs: bytes, p: nat): (n: nat)
    requires p + 4 <= |bs|
  {
    var b0: int, b1: int, b2: int, b3: int := bs[p], bs[p + 1], bs[p + 2], bs[p + 3];
    b0 + 0x100 * b1 + 0x1_0000 * b2 + 0x100_0000 * b3
  }

  predicate Is32(bs: bytes, p: nat, n: int)
  {
    p + 4 <= |bs| && Word(bs, p) == n
  }

  lemma LittleEndian(n: nat)
    ensures LE(n, 1) == [n % 0x100]
    ensures LE(n, 2) == [n % 0x100, n / 0x100 % 0x100]
    ensures LE(n, 4) == [n % 0x100, n / 0x100 % 0x100, n / 0x1_0000 % 0x100, n / 0x100_0000 % 0x100]
  {
    var a, b, c := n / 0x100, n / 0x100 / 0x100, n / 0x100 / 0x100 / 0x100;
    Quotients(n);
    OneByte(n, 1);
    OneByte(n, 2);
    OneByte(a, 1);
    FourBytes(n, a, b, c);
  }

  lemma Quotients(n: nat)
    ensures n / 0x100 / 0x100 == n / 0x1_0000
    ensures n / 0x100 / 0x100 / 0x100 == n / 0x100_0000
    ensures n / 0x100 / 0x100 / 0x100 / 0x100 == n / 0x1_0000_0000
  {
  }

  lemma OneByte(n: nat, w: nat)
    requires w > 0
    ensures LE(n, w) == [n % 0x100] + LE(n / 0x100, w - 1)
  {
  }

  lemma FourBytes(n: nat, a: nat, b: nat, c: nat)
    requires a == n / 0x100 && b == a / 0x100 && c == b / 0x100
    ensures LE(n, 4) == [n % 0x100, a % 0x100, b % 0x100, c % 0x100]
  {
    OneByte(n, 4);
    OneByte(a, 3);
    OneByte(b, 2);
    OneByte(c, 1);
  }

  lemma Four(n: nat)
    requires n < 0x1_0000_0000
    ensures Is32(LE(n, 4), 0, n)
  {
    var a, b, c := n / 0x100, n / 0x100 / 0x100, n / 0x100 / 0x100 / 0x100;
    FourBytes(n, a, b, c);
  }

  /** Numbers, enums and floats: 1, 2, 4 or 8 bytes, least significant first. */
  lemma NumberForm(env: Env, w: nat, isEnum: bool, n: nat)
    ensures var bs := Enc(env, Prim(w, isEnum), VInt(n));
            && (w == 1 ==> bs == [n % 0x100])
            && (w == 2 ==> bs == [n % 0x100, n / 0x100 % 0x100])
            && (w == 4 ==> bs == [n % 0x100, n / 0x100 % 0x100, n / 0x1_0000 % 0x100, n / 0x100_0000 % 0x100])
            && (w == 8 ==> |bs| == 8 && bs[..4] == Enc(env, Prim(4, isEnum), VInt(n))
                           && bs[4..] == Enc(env, Prim(4, isEnum), VInt(n / 0x1_0000_0000)))
  {
    LittleEndian(n);
    if w == 8 {
      Halves(n);
    }
  }

  lemma Halves(n: nat)
    ensures LE(n, 8) == LE(n, 4) + LE(n / 0x1_0000_0000, 4)
  {
    var m := n / 0x100 / 0x100;
    Quotients(n);
    TwoBytes(n, 6);
    TwoBytes(n, 2);
    TwoBytes(m, 4);
    Associate(LE(n, 2), LE(m, 2), LE(m / 0x100 / 0x100, 4));
  }

  lemma TwoBytes(n: nat, w: nat)
    ensures LE(n, 2 + w) == LE(n, 2) + LE(n / 0x100 / 0x100, w)
  {
    OneByte(n, 2 + w);
    OneByte(n / 0x100, 1 + w);
    OneByte(n, 2);
    OneByte(n / 0x100, 1);
    Associate([n % 0x100], [n / 0x100 % 0x100], LE(n / 0x100 / 0x100, w));
  }

  lemma Associate(a: bytes, b: bytes, c: bytes)
    ensures a + (b + c) == a + b + c
  {
  }

  lemma TwoByteNumber(bs: bytes)
    requires |bs| == 2
    ensures var lo: int, hi: int := bs[0], bs[1]; FromLE(bs) == lo + 0x100 * hi
  {
    assert FromLE(bs) == bs[0] + 256 * FromLE(bs[1..]) && FromLE(bs[1..]) == bs[1] + 256 * FromLE([]);
  }

  lemma FourByteNumber(bs: bytes)
    requires |bs| == 4
    ensures FromLE(bs) == Word(bs, 0)
  {
    assert FromLE(bs) == bs[0] + 256 * FromLE(bs[1..]);
    assert FromLE(bs[1..]) == bs[1] + 256 * FromLE(bs[1..][1..]);
    assert FromLE(bs[1..][1..]) == bs[2] + 256 * FromLE(bs[1..][1..][1..]);
    assert FromLE(bs[1..][1..][1..]) == bs[3] + 256 * FromLE([]);
  }

  lemma BoolForm(env: Env, b: bool)
    ensures Enc(env, Bool, VBool(b)) == if b then [1] else [0]
  {
  }

  // -- Strings -------------------------------------------------------------------------------------

  /**
   A string of scalar values: the complement of the UTF-8 byte count, the number of UTF-16 units, and
   the UTF-8 bytes.
   */
  lemma TextForm(env: Env, cs: seq<codepoint>)
    requires AllScalar(cs) && cs != [] && |EncodeUtf8(cs)| <= 0x7FFF_FFFF
    ensures var text, bs := EncodeUtf8(cs), Enc(env, Str, VStr(EncodeUtf8(cs)));
            && |bs| == 8 + |text| && bs[8..] == text
            && Is32(bs, 0, 0xFFFF_FFFF - |text|)
            && Is32(bs, 4, |EncodeUtf16(cs)|)
  {
    var text := EncodeUtf8(cs);
    CountUnitsOfEncodeUtf8(cs);
    var a, b := LE(FromInt32(-1 - |text|), 4), LE(CountUnits(text), 4);
    assert Enc(env, Str, VStr(text)) == a + b + text;
    assert FromInt32(-1 - |text|) == 0xFFFF_FFFF - |text|;
    Four(FromInt32(-1 - |text|));
    Four(CountUnits(text));
    Shifted(a, b, text, |EncodeUtf16(cs)|);
  }

  lemma Shifted(a: bytes, b: bytes, c: bytes, n: int)
    requires |a| == 4 && |b| == 4 && Is32(b, 0, n)
    ensures Is32(a + b + c, 4, n)
  {
  }

  lemma EmptyText(env: Env)
    ensures Enc(env, Str, VStr([])) == [0, 0, 0, 0] && Enc(env, Str16, VStr16([])) == [0, 0, 0, 0]
  {
    LittleEndian(0);
  }

  /** A u16string: the number of units, then two bytes each. */
  lemma Text16Form(env: Env, u: units)
    requires 0 < |u| <= 0x7FFF_FFFF
    ensures var bs := Enc(env, Str16, VStr16(u));
            && |bs| == 4 + 2 * |u| && Is32(bs, 0, |u|)
            && forall i | 0 <= i < |u| :: bs[4 + 2 * i] == u[i] % 0x100 && bs[5 + 2 * i] == u[i] / 0x100
  {
    Four(|u|);
    forall i | 0 <= i < |u| ensures UnitsLE(u)[2 * i] == u[i] % 0x100 && UnitsLE(u)[2 * i + 1] == u[i] / 0x100 {
      UnitBytes(u, i);
    }
  }

  lemma {:induction false} UnitBytes(u: units, i: nat)
    requires i < |u|
    ensures UnitsLE(u)[2 * i] == u[i] % 0x100 && UnitsLE(u)[2 * i + 1] == u[i] / 0x100
  {
    LittleEndian(u[0]);
    if i > 0 {
      UnitBytes(u[1..], i - 1);
    }
  }

  // -- Containers, objects and tuples ----------------------------------------------------------------

  lemma {:induction false} ElementInPlace(env: Env, e: Ty, vs: seq<Val>, i: nat)
    requires i < |vs|
    ensures HasAt(EncEach(env, e, vs), |EncEach(env, e, vs[..i])|, Enc(env, e, vs[i]))
    decreases i
  {
    if i > 0 {
      var head, rest, before := Enc(env, e, vs[0]), EncEach(env, e, vs[1..]), EncEach(env, e, vs[1..][..i - 1]);
      ElementInPlace(env, e, vs[1..], i - 1);
      assert vs[..i][1..] == vs[1..][..i - 1];
      BehindHead(head, rest, |before|, Enc(env, e, vs[i]));
    }
  }

  lemma BehindHead(head: bytes, rest: bytes, p: nat, bs: bytes)
    requires HasAt(rest, p, bs)
    ensures HasAt(head + rest, |head| + p, bs)
  {
    assert (head + rest)[|head| + p..|head| + p + |bs|] == rest[p..p + |bs|];
  }

  lemma {:induction false} MemberInPlace(env: Env, ts: seq<Ty>, vs: seq<Val>, i: nat)
    requires i < |vs| == |ts|
    ensures HasAt(EncAll(env, ts, vs), |EncAll(env, ts[..i], vs[..i])|, Enc(env, ts[i], vs[i]))
    decreases i
  {
    if i > 0 {
      var head, rest := Enc(env, ts[0], vs[0]), EncAll(env, ts[1..], vs[1..]);
      MemberInPlace(env, ts[1..], vs[1..], i - 1);
      assert ts[..i][1..] == ts[1..][..i - 1] && vs[..i][1..] == vs[1..][..i - 1];
      BehindHead(head, rest, |EncAll(env, ts[1..][..i - 1], vs[1..][..i - 1])|, Enc(env, ts[i], vs[i]));
    }
  }

  predicate ElementsInOrder(env: Env, e: Ty, vs: seq<Val>, bs: bytes)
  {
    && Is32(bs, 0, |vs|) && |bs| == 4 + |EncEach(env, e, vs)|
    && forall i | 0 <= i < |vs| :: HasAt(bs, 4 + |EncEach(env, e, vs[..i])|, Enc(env, e, vs[i]))
  }

  /** A container: the number of elements in four bytes, then the elements in order. */
  lemma CollectionForm(env: Env, t: Ty, vs: seq<Val>)
    requires IsCollection(t) && |vs| < 0x1_0000_0000
    ensures ElementsInOrder(env, ElemOf(t), vs, Enc(env, t, VList(vs)))
  {
    ElementsForm(env, ElemOf(t), vs, Enc(env, t, VList(vs)));
  }

  lemma ElementsForm(env: Env, e: Ty, vs: seq<Val>, bs: bytes)
    requires |vs| < 0x1_0000_0000 && bs == LE(|vs|, 4) + EncEach(env, e, vs)
    ensures ElementsInOrder(env, e, vs, bs)
  {
    Four(|vs|);
    forall i | 0 <= i < |vs| ensures HasAt(bs, 4 + |EncEach(env, e, vs[..i])|, Enc(env, e, vs[i])) {
      ElementInPlace(env, e, vs, i);
      BehindHead(LE(|vs|, 4), EncEach(env, e, vs), |EncEach(env, e, vs[..i])|, Enc(env, e, vs[i]));
    }
  }

  /** A tuple: the number of members in one byte, then the members in order. */
  lemma TupleForm(env: Env, ts: seq<Ty>, vs: seq<Val>)
    requires |vs| == |ts| <= 249
    ensures MembersInOrder(env, ts, vs, Enc(env, Tuple(ts), VTuple(vs)))
  {
    MembersForm(env, ts, vs, Enc(env, Tuple(ts), VTuple(vs)));
  }

  /** An object of a class: the same. */
  lemma ObjectForm(env: Env, id: string, vs: seq<Val>)
    requires |vs| == |ClassOf(env, id).members| <= 249
    ensures MembersInOrder(env, ClassOf(env, id).members, vs, Enc(env, Obj(id), VObj(vs)))
  {
    MembersForm(env, ClassOf(env, id).members, vs, Enc(env, Obj(id), VObj(vs)));
  }

  predicate MembersInOrder(env: Env, ts: seq<Ty>, vs: seq<Val>, bs: bytes)
    requires |vs| == |ts|
  {
    && bs != [] && bs[0] == |ts| && |bs| == 1 + |EncAll(env, ts, vs)|
    && forall i | 0 <= i < |vs| :: HasAt(bs, 1 + |EncAll(env, ts[..i], vs[..i])|, Enc(env, ts[i], vs[i]))
  }

  lemma MembersForm(env: Env, ts: seq<Ty>, vs: seq<Val>, bs: bytes)
    requires |vs| == |ts| <= 249 && bs == LE(|vs|, 1) + EncAll(env, ts, vs)
    ensures MembersInOrder(env, ts, vs, bs)
  {
    LittleEndian(|vs|);
    forall i | 0 <= i < |vs| ensures HasAt(bs, 1 + |EncAll(env, ts[..i], vs[..i])|, Enc(env, ts[i], vs[i])) {
      MemberInPlace(env, ts, vs, i);
      BehindHead(LE(|vs|, 1), EncAll(env, ts, vs), |EncAll(env, ts[..i], vs[..i])|, Enc(env, ts[i], vs[i]));
    }
  }

  /** A union: tags up to 249 in one byte, greater ones behind a byte 250 in two. */
  lemma UnionForm(env: Env, tags: seq<nat>, alts: seq<Ty>, i: nat, x: Val)
    requires i < |tags| == |alts| && tags[i] < 0x1_0000 && tags[i] !in tags[..i]
    ensures var tag := tags[i];
            Enc(env, Union(tags, alts), VUnion(tag, x)) ==
            (if tag < 250 then [tag] else [250, tag % 0x100, tag / 0x100]) + Enc(env, alts[i], x)
  {
    assert FindTag(tags, tags[i]) == i;
    LittleEndian(tags[i]);
    assert UnionHeader(tags[i]) == if tags[i] < 250 then [tags[i]] else [250, tags[i] % 0x100, tags[i] / 0x100];
  }

  // -- Nulls and nullables -----------------------------------------------------------------------------

  /** How null is spelled where the type has a length or a header: a length of -1, or the byte 255. */
  lemma NullForm(env: Env, i: Ty)
    requires !IsValueType(i)
    ensures Enc(env, Ptr(i), VNull) == [255]
    ensures i.Str? || i.Str16? || i.Sequence? || i.Set? || i.Map? ==> Enc(env, Opt(i), VNull) == [255, 255, 255, 255]
    ensures i.Obj? || i.Tuple? || i.Pair? || i.Union? || i.Opt? || i.Ptr? || i.Arr? ==> Enc(env, Opt(i), VNull) == [255]
  {
    MinusOne();
  }

  /** A number or bool that is null: twice its size in zeros. */
  lemma NullNumberForm(env: Env, i: Ty, w: nat)
    requires (i.Prim? && i.width == w && w in {1, 2, 4, 8}) || (i.Bool? && w == 1)
    ensures Enc(env, Opt(i), VNull) == Zeros(2 * w)
  {
    TwiceTheWidth(i, w);
  }

  lemma MinusOne()
    ensures LE(FromInt32(-1), 4) == [255, 255, 255, 255]
  {
    var n := FromInt32(-1);
    assert n == 0xFFFF_FFFF;
    FourBytes(n, 0xFF_FFFF, 0xFFFF, 0xFF);
  }

  lemma TwiceTheWidth(i: Ty, w: nat)
    requires (i.Prim? && i.width == w && w in {1, 2, 4, 8}) || (i.Bool? && w == 1)
    ensures NullableSize(i) == 2 * w
  {
    assert 2 * w % w == 0;
  }

  /** A number that is not null: the byte 1, zeros up to the alignment, the number. */
  lemma NullableNumberForm(env: Env, w: nat, isEnum: bool, n: nat)
    requires w in {1, 2, 4, 8}
    ensures Enc(env, Opt(Prim(w, isEnum)), VSome(VInt(n))) == [1] + Zeros(w - 1) + Enc(env, Prim(w, isEnum), VInt(n))
  {
    var i, bs := Prim(w, isEnum), Enc(env, Prim(w, isEnum), VInt(n));
    TwiceTheWidth(i, w);
    assert Enc(env, Opt(i), VSome(VInt(n))) == [1] + Zeros(w - 1) + bs + Zeros(0);
  }

  /** A struct that is not null: flag, zeros, the struct at its alignment, zeros up to a multiple of it. */
  lemma NullableStructForm(env: Env, size: nat, align: nat, raw: bytes)
    requires size >= 1 && align >= 1 && |raw| == size
    ensures var bs := Enc(env, Opt(Raw(size, align)), VSome(VRaw(raw)));
            && |bs| % align == 0 && align + size <= |bs| < 2 * align + size
            && bs[0] == 1 && bs[align..align + size] == raw
            && forall k | 1 <= k < |bs| && !(align <= k < align + size) :: bs[k] == 0
  {
    var i := Raw(size, align);
    var total := NullableSize(i);
    assert Enc(env, Opt(i), VSome(VRaw(raw))) == [1] + Zeros(align - 1) + raw + Zeros(total - align - size);
  }

  // -- Lengths of VersionTolerant members ---------------------------------------------------------------

  lemma VarIntForm(n: nat)
    requires n < 0x1_0000_0000
    ensures n <= 127 ==> VarIntBytes(n) == [n]
    ensures 127 < n < 0x1_0000 ==> VarIntBytes(n) == [0x84, n % 0x100, n / 0x100]
    ensures n >= 0x1_0000 ==> |VarIntBytes(n)| == 5 && VarIntBytes(n)[0] == 0x82 && Is32(VarIntBytes(n), 1, n)
  {
    LittleEndian(n);
    Four(n);
    if n >= 0x1_0000 {
      assert VarIntBytes(n) == [0x82] + LE(n, 4);
    }
  }
}
