/**
 Sequential struct layout: the offset arithmetic of UnmanagedLayout.Compute, and the padding
 guarantees of the MEMORYPACK_UNMANAGED_EXACT and MEMORYPACK_UNMANAGED_SCRUBBED serializers.
 */
module StructLayout {
  import opened Basics
  import opened Bytes

  type pos = n: int | n >= 1 witness 1

  datatype Layout = Layout(size: nat, align: pos)

  function RoundUp(value: nat, align: pos): (r: nat)
    ensures value <= r < value + align && r % align == 0
    ensures value % align == 0 ==> r == value
  {
    RoundUpBounds(value, align);
    (value + align - 1) / align * align
  }

  lemma MulLess(a: nat, b: nat, d: pos)
    requires a < b
    ensures a * d + d <= b * d
  {
    assert b * d == (b - a - 1) * d + a * d + d;
    assert (b - a - 1) * d >= 0;
  }

  lemma QuotientLess(x: nat, d: pos, n: nat)
    requires x < n * d
    ensures x / d < n
  {
    assert x == x / d * d + x % d;
    if n <= x / d {
      MulAtMost(n, x / d, d);
    }
  }

  lemma MulAtMost(a: nat, b: nat, d: pos)
    requires a <= b
    ensures a * d <= b * d
  {
    assert (b - a) * d >= 0;
    assert b * d == (b - a) * d + a * d;
  }

  lemma QuotientUnique(d: pos, q: nat, r: nat, q': nat, r': nat)
    requires q * d + r == q' * d + r' && r < d && r' < d
    ensures q == q' && r == r'
  {
    if q < q' {
      MulLess(q, q', d);
    } else if q' < q {
      MulLess(q', q, d);
    }
  }

  lemma DivModUnique(x: nat, d: pos, q: nat, r: nat)
    requires x == q * d + r && r < d
    ensures x / d == q && x % d == r
  {
    assert x == x / d * d + x % d;
    QuotientUnique(d, q, r, x / d, x % d);
  }

  lemma RoundUpBounds(value: nat, align: pos)
    ensures var r := (value + align - 1) / align * align;
            value <= r < value + align && r % align == 0 && (value % align == 0 ==> r == value)
  {
    var n := value + align - 1;
    var r := n / align * align;
    assert r == n - n % align;
    DivModUnique(r, align, n / align, 0);
    if value % align == 0 {
      DivModUnique(n, align, value / align, align - 1);
    }
  }

  // -- Field offsets ---------------------------------------------------------------------

  function Effective(l: Layout, pack: pos): (a: pos) { Min(l.align, pack) }

  /** Where each field of the loop over the members is placed, starting at `offset`. */
  function Offsets(ls: seq<Layout>, pack: pos, offset: nat): (os: seq<nat>)
    ensures |os| == |ls|
  {
    if ls == [] then []
    else
      var at := RoundUp(offset, Effective(ls[0], pack));
      [at] + Offsets(ls[1..], pack, at + ls[0].size)
  }

  /** The running offset after the last field. */
  function End(ls: seq<Layout>, pack: pos, offset: nat): (n: nat)
    ensures n >= offset
  {
    if ls == [] then offset
    else End(ls[1..], pack, RoundUp(offset, Effective(ls[0], pack)) + ls[0].size)
  }

  function MaxAlign(ls: seq<Layout>, pack: pos, maxAlign: pos): (a: pos)
    ensures a >= maxAlign
  {
    if ls == [] then maxAlign else MaxAlign(ls[1..], pack, Max(maxAlign, Effective(ls[0], pack)))
  }

  function Pack(pack1: bool): (p: pos) { if pack1 then 1 else 8 }

  /** Compute's result for resolved fields; an empty C# struct takes one byte. */
  function Compute(ls: seq<Layout>, pack1: bool): (l: Layout)
  {
    if ls == [] then Layout(1, 1)
    else
      var a := MaxAlign(ls, Pack(pack1), 1);
      Layout(RoundUp(End(ls, Pack(pack1), 0), a), a)
  }

  function SumSizes(ls: seq<Layout>): (n: nat)
  {
    if ls == [] then 0 else ls[0].size + SumSizes(ls[1..])
  }

  lemma {:induction false} MaxAlignCovers(ls: seq<Layout>, pack: pos, maxAlign: pos, i: nat)
    requires i < |ls|
    ensures Effective(ls[i], pack) <= MaxAlign(ls, pack, maxAlign)
  {
    var m := Max(maxAlign, Effective(ls[0], pack));
    if i > 0 {
      MaxAlignCovers(ls[1..], pack, m, i - 1);
    }
  }

  lemma {:induction false} OffsetsInOrder(ls: seq<Layout>, pack: pos, offset: nat, i: nat)
    requires i < |ls|
    ensures var os := Offsets(ls, pack, offset);
            && os[i] % Effective(ls[i], pack) == 0
            && offset <= os[i]
            && (i + 1 < |ls| ==> os[i] + ls[i].size <= os[i + 1])
            && os[i] + ls[i].size <= End(ls, pack, offset)
  {
    var at := RoundUp(offset, Effective(ls[0], pack));
    var next := at + ls[0].size;
    if i > 0 {
      OffsetsInOrder(ls[1..], pack, next, i - 1);
    } else if |ls| > 1 {
      OffsetsInOrder(ls[1..], pack, next, 0);
    }
  }

  // -- The same from the fields' own sizes and alignments --------------------------------------

  /** The least multiple of `d` that is not below `low`. */
  predicate IsNext(n: nat, d: pos, low: nat)
  {
    low <= n < low + d && n % d == 0
  }

  /** The alignment a field gets: its own, but at most 8, and 1 with Pack=1. */
  function Natural(l: Layout, pack1: bool): (a: pos)
  {
    if pack1 then 1 else if l.align <= 8 then l.align else 8
  }

  /** Where the field before field `i` ends. */
  function EndBefore(ls: seq<Layout>, os: seq<nat>, i: nat): (n: nat)
    requires i <= |ls| == |os|
  {
    if i == 0 then 0 else os[i - 1] + ls[i - 1].size
  }

  /**
   Sequential layout: every field at the next aligned offset behind the one before, the struct aligned
   like its most aligned field, and its size the next multiple of that behind the last field.
   */
  predicate Sequential(ls: seq<Layout>, pack1: bool, os: seq<nat>, l: Layout)
  {
    && |os| == |ls|
    && (forall i | 0 <= i < |ls| :: IsNext(os[i], Natural(ls[i], pack1), EndBefore(ls, os, i)))
    && (forall i | 0 <= i < |ls| :: Natural(ls[i], pack1) <= l.align)
    && (exists i :: 0 <= i < |ls| && Natural(ls[i], pack1) == l.align)
    && IsNext(l.size, l.align, EndBefore(ls, os, |ls|))
  }

  lemma {:induction false} OffsetIsNext(ls: seq<Layout>, pack1: bool, offset: nat, i: nat)
    requires i < |ls|
    ensures var os := Offsets(ls, Pack(pack1), offset);
            IsNext(os[i], Natural(ls[i], pack1), if i == 0 then offset else EndBefore(ls, os, i))
  {
    var at := RoundUp(offset, Effective(ls[0], Pack(pack1)));
    if i > 0 {
      OffsetIsNext(ls[1..], pack1, at + ls[0].size, i - 1);
    }
  }

  lemma {:induction false} EndIsLast(ls: seq<Layout>, pack: pos, offset: nat)
    requires ls != []
    ensures End(ls, pack, offset) == EndBefore(ls, Offsets(ls, pack, offset), |ls|)
  {
    var at := RoundUp(offset, Effective(ls[0], pack));
    if |ls| > 1 {
      EndIsLast(ls[1..], pack, at + ls[0].size);
    }
  }

  lemma {:induction false} MaxAlignAttained(ls: seq<Layout>, pack1: bool, maxAlign: pos)
    ensures var a := MaxAlign(ls, Pack(pack1), maxAlign);
            a == maxAlign || exists i :: 0 <= i < |ls| && Natural(ls[i], pack1) == a
  {
    if ls != [] {
      var m := Max(maxAlign, Effective(ls[0], Pack(pack1)));
      MaxAlignAttained(ls[1..], pack1, m);
      var a := MaxAlign(ls, Pack(pack1), maxAlign);
      if a == m {
        assert m == maxAlign || Natural(ls[0], pack1) == m;
      } else {
        var i :| 0 <= i < |ls[1..]| && Natural(ls[1..][i], pack1) == a;
        assert ls[i + 1] == ls[1..][i];
      }
    }
  }

  /** The computed offsets, size and alignment are those of sequential layout. */
  lemma ComputeIsSequential(ls: seq<Layout>, pack1: bool)
    ensures ls == [] ==> Compute(ls, pack1) == Layout(1, 1)
    ensures ls != [] ==> Sequential(ls, pack1, Offsets(ls, Pack(pack1), 0), Compute(ls, pack1))
  {
    if ls != [] {
      var l := Compute(ls, pack1);
      forall i | 0 <= i < |ls|
        ensures IsNext(Offsets(ls, Pack(pack1), 0)[i], Natural(ls[i], pack1), EndBefore(ls, Offsets(ls, Pack(pack1), 0), i))
        ensures Natural(ls[i], pack1) <= l.align
      {
        OffsetIsNext(ls, pack1, 0, i);
        MaxAlignCovers(ls, Pack(pack1), 1, i);
      }
      EndIsLast(ls, Pack(pack1), 0);
      MaxAlignAttained(ls, pack1, 1);
      assert l.align == 1 ==> Natural(ls[0], pack1) == 1;
    }
  }

  /** Every field is aligned, in bounds and in front of the next one; the size is a multiple of the alignment. */
  lemma FieldsFit(ls: seq<Layout>, pack1: bool, i: nat)
    requires i < |ls|
    ensures var os, l := Offsets(ls, Pack(pack1), 0), Compute(ls, pack1);
            && os[i] % Natural(ls[i], pack1) == 0
            && Natural(ls[i], pack1) <= l.align
            && (i + 1 < |ls| ==> os[i] + ls[i].size <= os[i + 1])
            && os[i] + ls[i].size <= l.size
            && l.size % l.align == 0
  {
    OffsetsInOrder(ls, Pack(pack1), 0, i);
    MaxAlignCovers(ls, Pack(pack1), 1, i);
  }

  /** A byte and a four-byte number: padded to the number's alignment, or not with Pack=1. */
  lemma ByteAndInt()
    ensures Compute([Layout(1, 1), Layout(4, 4)], false) == Layout(8, 4)
    ensures Compute([Layout(1, 1), Layout(4, 4)], true) == Layout(5, 1)
  {
    var ls := [Layout(1, 1), Layout(4, 4)];
    assert ls[1..] == [Layout(4, 4)] && ls[1..][1..] == [];
    assert End(ls, 8, 0) == End(ls[1..], 8, 1) == End([], 8, 8) && End(ls, 1, 0) == End(ls[1..], 1, 1) == End([], 1, 5);
    assert MaxAlign(ls, 8, 1) == MaxAlign(ls[1..], 8, 1) == MaxAlign([], 8, 4);
    assert MaxAlign(ls, 1, 1) == MaxAlign(ls[1..], 1, 1) == MaxAlign([], 1, 1);
  }

  lemma {:induction false} OffsetsIncrease(ls: seq<Layout>, pack: pos, offset: nat, i: nat, j: nat)
    requires i < j < |ls|
    ensures Offsets(ls, pack, offset)[i] + ls[i].size <= Offsets(ls, pack, offset)[j]
    decreases j
  {
    OffsetsInOrder(ls, pack, offset, j - 1);
    if i < j - 1 {
      OffsetsIncrease(ls, pack, offset, i, j - 1);
    }
  }

  // -- Padding -----------------------------------------------------------------------------

  /** Byte `b` of the struct belongs to field `i`. */
  predicate InField(ls: seq<Layout>, os: seq<nat>, i: nat, b: nat)
    requires i < |ls| == |os|
  {
    os[i] <= b < os[i] + ls[i].size
  }

  /** One of the first `n` fields contains byte `b`. */
  predicate InFirst(ls: seq<Layout>, os: seq<nat>, n: nat, b: nat)
    requires n <= |ls| == |os|
  {
    exists i: nat | i < n :: InField(ls, os, i, b)
  }

  predicate IsMemberByte(ls: seq<Layout>, os: seq<nat>, b: nat)
    requires |ls| == |os|
  {
    InFirst(ls, os, |ls|, b)
  }

  predicate NoPadding(ls: seq<Layout>, pack1: bool)
  {
    forall b: nat | b < Compute(ls, pack1).size :: IsMemberByte(ls, Offsets(ls, Pack(pack1), 0), b)
  }

  /** No byte belongs to two fields. */
  lemma FieldsDisjoint(ls: seq<Layout>, pack1: bool, i: nat, j: nat, b: nat)
    requires i < |ls| && j < |ls|
    requires InField(ls, Offsets(ls, Pack(pack1), 0), i, b) && InField(ls, Offsets(ls, Pack(pack1), 0), j, b)
    ensures i == j
  {
    if i < j {
      OffsetsIncrease(ls, Pack(pack1), 0, i, j);
    } else if j < i {
      OffsetsIncrease(ls, Pack(pack1), 0, j, i);
    }
  }

  lemma {:induction false} EndAtLeastSum(ls: seq<Layout>, pack: pos, offset: nat)
    ensures End(ls, pack, offset) >= offset + SumSizes(ls)
  {
    if ls != [] {
      EndAtLeastSum(ls[1..], pack, RoundUp(offset, Effective(ls[0], pack)) + ls[0].size);
    }
  }

  /** Fields that add up to the whole extent leave no gap before any of them. */
  lemma {:induction false} TightCovers(ls: seq<Layout>, pack: pos, offset: nat, b: nat)
    requires End(ls, pack, offset) == offset + SumSizes(ls) && offset <= b < End(ls, pack, offset)
    ensures IsMemberByte(ls, Offsets(ls, pack, offset), b)
  {
    var at := RoundUp(offset, Effective(ls[0], pack));
    var next := at + ls[0].size;
    EndAtLeastSum(ls[1..], pack, next);
    var os := Offsets(ls, pack, offset);
    if b < next {
      assert InField(ls, os, 0, b);
    } else {
      TightCovers(ls[1..], pack, next, b);
      var i: nat :| i < |ls[1..]| && InField(ls[1..], Offsets(ls[1..], pack, next), i, b);
      assert InField(ls, os, i + 1, b);
    }
  }

  /** A gap before a field, or after the last one, belongs to no field. */
  lemma {:induction false} GapIsPadding(ls: seq<Layout>, pack: pos, offset: nat) returns (b: nat)
    requires End(ls, pack, offset) > offset + SumSizes(ls)
    ensures offset <= b < End(ls, pack, offset)
    ensures !IsMemberByte(ls, Offsets(ls, pack, offset), b)
  {
    var at := RoundUp(offset, Effective(ls[0], pack));
    var next := at + ls[0].size;
    var os := Offsets(ls, pack, offset);
    if at > offset {
      b := offset;
      OffsetsInOrder(ls, pack, offset, 0);
      forall i: nat | i < |ls| ensures !InField(ls, os, i, b) {
        if i > 0 {
          OffsetsIncrease(ls, pack, offset, 0, i);
        }
      }
    } else {
      b := GapIsPadding(ls[1..], pack, next);
      forall i: nat | i < |ls| ensures !InField(ls, os, i, b) {
        if i > 0 {
          assert InField(ls, os, i, b) == InField(ls[1..], Offsets(ls[1..], pack, next), i - 1, b);
        }
      }
    }
  }

  /** EXACT's compile-time sum test accepts a struct exactly when it has no padding byte. */
  lemma ExactIffNoPadding(ls: seq<Layout>, pack1: bool)
    ensures SumSizes(ls) == Compute(ls, pack1).size <==> NoPadding(ls, pack1)
  {
    var os, l := Offsets(ls, Pack(pack1), 0), Compute(ls, pack1);
    if ls == [] {
      assert !IsMemberByte(ls, os, 0);
      return;
    }
    var end := End(ls, Pack(pack1), 0);
    EndAtLeastSum(ls, Pack(pack1), 0);
    if SumSizes(ls) == l.size {
      forall b: nat | b < l.size ensures IsMemberByte(ls, os, b) {
        TightCovers(ls, Pack(pack1), 0, b);
      }
    } else if end > SumSizes(ls) {
      var b := GapIsPadding(ls, Pack(pack1), 0);
      assert !IsMemberByte(ls, os, b);
    } else {
      forall i: nat | i < |ls| ensures !InField(ls, os, i, end) {
        OffsetsInOrder(ls, Pack(pack1), 0, i);
      }
      assert !IsMemberByte(ls, os, end);
    }
  }

  lemma {:induction false} PackedEnd(ls: seq<Layout>, offset: nat)
    ensures End(ls, 1, offset) == offset + SumSizes(ls) && MaxAlign(ls, 1, 1) == 1
  {
    if ls != [] {
      assert RoundUp(offset, Effective(ls[0], 1)) == offset;
      PackedEnd(ls[1..], offset + ls[0].size);
    }
  }

  /** Pack = 1: the size is the sum of the member sizes, so EXACT always holds for a non-empty struct. */
  lemma PackedIsExact(ls: seq<Layout>)
    requires ls != []
    ensures Compute(ls, true) == Layout(SumSizes(ls), 1) && NoPadding(ls, true)
  {
    PackedEnd(ls, 0);
    ExactIffNoPadding(ls, true);
  }

  // -- Scrubbed serialization -----------------------------------------------------------------

  /** `wire` holds the member bytes of `source` and zero everywhere else. */
  predicate IsScrubbed(ls: seq<Layout>, os: seq<nat>, source: bytes, wire: bytes)
    requires |ls| == |os|
  {
    && |wire| == |source|
    && forall b: nat | b < |source| :: wire[b] == if IsMemberByte(ls, os, b) then source[b] else 0
  }

  /** MEMORYPACK_UNMANAGED_SCRUBBED: a zeroed buffer and one memcpy per member. */
  method Scrub(ls: seq<Layout>, pack1: bool, source: bytes) returns (wire: bytes)
    requires |source| == Compute(ls, pack1).size
    ensures IsScrubbed(ls, Offsets(ls, Pack(pack1), 0), source, wire)
  {
    var os := Offsets(ls, Pack(pack1), 0);
    var buf := new byte[|source|](_ => 0);
    for i := 0 to |ls|
      invariant forall b: nat | b < |source| :: buf[b] == if InFirst(ls, os, i, b) then source[b] else 0
    {
      FieldsFit(ls, pack1, i);
      ghost var before := buf[..];
      forall b | os[i] <= b < os[i] + ls[i].size {
        buf[b] := source[b];
      }
      forall b: nat | b < |source| ensures buf[b] == if InFirst(ls, os, i + 1, b) then source[b] else 0 {
        assert before[b] == if InFirst(ls, os, i, b) then source[b] else 0;
        assert InFirst(ls, os, i + 1, b) <==> InFirst(ls, os, i, b) || InField(ls, os, i, b);
      }
    }
    wire := buf[..];
  }

  /** The bytes of member `i`. */
  function MemberBytes(ls: seq<Layout>, pack1: bool, i: nat, data: bytes): (bs: bytes)
    requires i < |ls| && |data| == Compute(ls, pack1).size
  {
    FieldsFit(ls, pack1, i);
    var at := Offsets(ls, Pack(pack1), 0)[i];
    data[at..at + ls[i].size]
  }

  /** Reading the wire bytes back gives every member, whatever the padding of the source held. */
  lemma ScrubbedReadsBack(ls: seq<Layout>, pack1: bool, source: bytes, wire: bytes, i: nat)
    requires |source| == Compute(ls, pack1).size && i < |ls|
    requires IsScrubbed(ls, Offsets(ls, Pack(pack1), 0), source, wire)
    ensures MemberBytes(ls, pack1, i, wire) == MemberBytes(ls, pack1, i, source)
  {
    var os := Offsets(ls, Pack(pack1), 0);
    FieldsFit(ls, pack1, i);
    forall b | os[i] <= b < os[i] + ls[i].size ensures wire[b] == source[b] {
      assert InField(ls, os, i, b);
    }
  }

  ghost predicate SameMembers(ls: seq<Layout>, pack1: bool, s1: bytes, s2: bytes)
    requires |s1| == |s2| == Compute(ls, pack1).size
  {
    forall i: nat | i < |ls| :: MemberBytes(ls, pack1, i, s1) == MemberBytes(ls, pack1, i, s2)
  }

  lemma SameMemberByte(ls: seq<Layout>, pack1: bool, s1: bytes, s2: bytes, b: nat)
    requires |s1| == |s2| == Compute(ls, pack1).size && b < |s1| && SameMembers(ls, pack1, s1, s2)
    requires IsMemberByte(ls, Offsets(ls, Pack(pack1), 0), b)
    ensures s1[b] == s2[b]
  {
    var os := Offsets(ls, Pack(pack1), 0);
    var i: nat :| i < |ls| && InField(ls, os, i, b);
    FieldsFit(ls, pack1, i);
    var m1, m2 := MemberBytes(ls, pack1, i, s1), MemberBytes(ls, pack1, i, s2);
    assert m1[b - os[i]] == m2[b - os[i]];
  }

  /** The wire bytes depend on the members alone: objects agree on the wire exactly if their members do. */
  lemma ScrubbedIgnoresPadding(ls: seq<Layout>, pack1: bool, s1: bytes, w1: bytes, s2: bytes, w2: bytes)
    requires |s1| == |s2| == Compute(ls, pack1).size
    requires IsScrubbed(ls, Offsets(ls, Pack(pack1), 0), s1, w1)
    requires IsScrubbed(ls, Offsets(ls, Pack(pack1), 0), s2, w2)
    ensures w1 == w2 <==> SameMembers(ls, pack1, s1, s2)
  {
    var os := Offsets(ls, Pack(pack1), 0);
    if SameMembers(ls, pack1, s1, s2) {
      forall b: nat | b < |s1| ensures w1[b] == w2[b] {
        if IsMemberByte(ls, os, b) {
          SameMemberByte(ls, pack1, s1, s2, b);
        }
      }
    }
    if w1 == w2 {
      forall i: nat | i < |ls| ensures MemberBytes(ls, pack1, i, s1) == MemberBytes(ls, pack1, i, s2) {
        ScrubbedReadsBack(ls, pack1, s1, w1, i);
        ScrubbedReadsBack(ls, pack1, s2, w2, i);
      }
    }
  }
}
