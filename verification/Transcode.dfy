/**
 UTF-16 <-> UTF-8 transcoding of core.hpp.

 A code unit is a 16-bit number, a code point a number below 0x20_0000 (the largest value the
 four-byte decoder of the u16string formatter can assemble).
 */
module Transcode {
  import opened Bytes

  type unit = u: int | 0 <= u < 0x1_0000

  type units = seq<unit>

  type codepoint = c: int | 0 <= c < 0x20_0000

  const REPLACEMENT: codepoint := 0xFFFD

  predicate IsHigh(u: unit) { 0xD800 <= u <= 0xDBFF }

  predicate IsLow(u: unit) { 0xDC00 <= u <= 0xDFFF }

  predicate IsScalar(c: codepoint) { c <= 0x10_FFFF && !(0xD800 <= c <= 0xDFFF) }

  predicate AllScalar(cs: seq<codepoint>) { forall c | c in cs :: IsScalar(c) }

  // -- UTF-16 ------------------------------------------------------------------

  function CombinePair(hi: unit, lo: unit): (c: codepoint)
    requires IsHigh(hi) && IsLow(lo)
    ensures IsScalar(c) && c > 0xFFFF
  {
    0x1_0000 + (hi - 0xD800) * 0x400 + (lo - 0xDC00)
  }

  /** The code points ReadUtf16String emits for `u`: an unpaired surrogate becomes U+FFFD. */
  function DecodeUtf16(u: units): (cs: seq<codepoint>)
    ensures AllScalar(cs)
    ensures u != [] ==> cs != []
  {
    if u == [] then []
    else if IsHigh(u[0]) then
      if |u| > 1 && IsLow(u[1]) then [CombinePair(u[0], u[1])] + DecodeUtf16(u[2..])
      else [REPLACEMENT] + DecodeUtf16(u[1..])
    else if IsLow(u[0]) then [REPLACEMENT] + DecodeUtf16(u[1..])
    else [u[0]] + DecodeUtf16(u[1..])
  }

  /** The code units the u16string formatter pushes for one code point. */
  function Utf16Of(c: codepoint): (u: units)
    ensures |u| == if c <= 0xFFFF then 1 else 2
  {
    if c <= 0xFFFF then [c]
    else [0xD800 + (c - 0x1_0000) / 0x400, 0xDC00 + (c - 0x1_0000) % 0x400]
  }

  function EncodeUtf16(cs: seq<codepoint>): (u: units)
  {
    if cs == [] then [] else Utf16Of(cs[0]) + EncodeUtf16(cs[1..])
  }

  /** A surrogate that has its partner next to it. */
  predicate Paired(u: units, i: nat)
    requires i < |u|
  {
    || (IsHigh(u[i]) && i + 1 < |u| && IsLow(u[i + 1]))
    || (IsLow(u[i]) && i > 0 && IsHigh(u[i - 1]))
  }

  predicate Unpaired(u: units, i: nat)
    requires i < |u|
  {
    (IsHigh(u[i]) || IsLow(u[i])) && !Paired(u, i)
  }

  predicate WellFormedUtf16(u: units)
  {
    forall i: nat | i < |u| :: !Unpaired(u, i)
  }

  /** `u` with exactly its unpaired surrogates replaced by U+FFFD. */
  function Repair(u: units): (r: units)
    ensures |r| == |u|
  {
    seq(|u|, (i: nat) requires i < |u| => if Unpaired(u, i) then REPLACEMENT else u[i])
  }

  lemma RepairIdentity(u: units)
    ensures Repair(u) == u <==> WellFormedUtf16(u)
  {
    if Repair(u) == u {
      forall i: nat | i < |u| ensures !Unpaired(u, i) {
        assert Repair(u)[i] == u[i];
      }
    } else {
      assert exists i: nat :: i < |u| && Repair(u)[i] != u[i];
    }
  }

  /** Dropping a prefix that does not end in a high surrogate leaves every pairing as it was. */
  lemma RepairDrop(u: units, k: nat)
    requires k <= |u|
    requires k > 0 && k < |u| && IsLow(u[k]) ==> !IsHigh(u[k - 1])
    ensures Repair(u)[k..] == Repair(u[k..])
  {
    forall i: nat | i < |u| - k
      ensures Repair(u)[k..][i] == Repair(u[k..])[i]
    {
      assert u[k..][i] == u[k + i];
      assert Unpaired(u, k + i) == Unpaired(u[k..], i);
    }
  }

  /** Decoding UTF-16 and encoding it again replaces exactly the unpaired surrogates. */
  lemma {:induction false} EncodeOfDecodeUtf16(u: units)
    ensures EncodeUtf16(DecodeUtf16(u)) == Repair(u)
  {
    if u != [] {
      var k := if IsHigh(u[0]) && |u| > 1 && IsLow(u[1]) then 2 else 1;
      EncodeOfDecodeUtf16(u[k..]);
      RepairDrop(u, k);
      var cs := DecodeUtf16(u);
      assert cs[1..] == DecodeUtf16(u[k..]);
      assert Repair(u) == Repair(u)[..k] + Repair(u)[k..];
      assert Repair(u)[..k] == Utf16Of(cs[0]);
    }
  }

  // -- UTF-8 -------------------------------------------------------------------

  /** append_utf8_codepoint: the bytes appended for `c`. */
  function Utf8Of(c: codepoint): (bs: bytes)
    ensures 1 <= |bs| <= 4
  {
    if c <= 0x7F then [c]
    else if c <= 0x7FF then [0xC0 + c / 0x40, 0x80 + c % 0x40]
    else if c <= 0xFFFF then [0xE0 + c / 0x1000, 0x80 + c / 0x40 % 0x40, 0x80 + c % 0x40]
    else [0xF0 + c / 0x4_0000, 0x80 + c / 0x1000 % 0x40, 0x80 + c / 0x40 % 0x40, 0x80 + c % 0x40]
  }

  function EncodeUtf8(cs: seq<codepoint>): (bs: bytes)
  {
    if cs == [] then [] else Utf8Of(cs[0]) + EncodeUtf8(cs[1..])
  }

  predicate Tail(b: byte) { 0x80 <= b <= 0xBF }

  /** The length of the UTF8-char that starts `bs` (section 4 of RFC 3629), or 0 if there is none. */
  function CharLength(bs: bytes): (n: nat)
    ensures n <= |bs| && n <= 4
  {
    if |bs| >= 1 && bs[0] <= 0x7F then 1
    else if |bs| >= 2 && 0xC2 <= bs[0] <= 0xDF && Tail(bs[1]) then 2
    else if |bs| >= 3 && Tail(bs[2]) &&
            (|| (bs[0] == 0xE0 && 0xA0 <= bs[1] <= 0xBF)
             || (0xE1 <= bs[0] <= 0xEC && Tail(bs[1]))
             || (bs[0] == 0xED && 0x80 <= bs[1] <= 0x9F)
             || (0xEE <= bs[0] <= 0xEF && Tail(bs[1]))) then 3
    else if |bs| >= 4 && Tail(bs[2]) && Tail(bs[3]) &&
            (|| (bs[0] == 0xF0 && 0x90 <= bs[1] <= 0xBF)
             || (0xF1 <= bs[0] <= 0xF3 && Tail(bs[1]))
             || (bs[0] == 0xF4 && 0x80 <= bs[1] <= 0x8F)) then 4
    else 0
  }

  /** UTF8-octets of section 4 of RFC 3629. */
  predicate WellFormedUtf8(bs: bytes)
  {
    bs == [] || (CharLength(bs) > 0 && WellFormedUtf8(bs[CharLength(bs)..]))
  }

  // The arithmetic of the sextets of a code point is kept apart from the byte strings.

  lemma Digits64(c: nat)
    ensures c / 0x1000 == c / 0x40 / 0x40 && c / 0x4_0000 == c / 0x1000 / 0x40
    ensures c == c / 0x40 * 0x40 + c % 0x40
  {
  }

  lemma Sextets(c: nat)
    ensures c == c / 0x40 * 0x40 + c % 0x40
    ensures c / 0x40 == c / 0x1000 * 0x40 + c / 0x40 % 0x40
    ensures c / 0x1000 == c / 0x4_0000 * 0x40 + c / 0x1000 % 0x40
  {
    Digits64(c);
    Digits64(c / 0x40);
    Digits64(c / 0x1000);
  }

  lemma ThreeByteForm(c: codepoint)
    requires IsScalar(c) && 0x7FF < c <= 0xFFFF
    ensures var a, b := c / 0x1000, c / 0x40 % 0x40; a < 0x10 && (a == 0 ==> b >= 0x20) && (a == 0xD ==> b < 0x20)
  {
    Sextets(c);
    var a, b, d := c / 0x1000, c / 0x40 % 0x40, c % 0x40;
    assert c == a * 0x1000 + b * 0x40 + d;
  }

  lemma FourByteForm(c: codepoint)
    requires 0xFFFF < c <= 0x10_FFFF
    ensures var a, b := c / 0x4_0000, c / 0x1000 % 0x40; a <= 4 && (a == 0 ==> b >= 0x10) && (a == 4 ==> b < 0x10)
  {
    Sextets(c);
    var a, b := c / 0x4_0000, c / 0x1000 % 0x40;
    assert 0x10 <= a * 0x40 + b <= 0x10F;
  }

  lemma CharLengthOfUtf8(c: codepoint, rest: bytes)
    requires IsScalar(c)
    ensures CharLength(Utf8Of(c) + rest) == |Utf8Of(c)|
  {
    if c <= 0x7F {
    } else if c <= 0x7FF {
      Sextets(c);
      TwoByteLength(c / 0x40, c % 0x40, rest);
    } else if c <= 0xFFFF {
      ThreeByteForm(c);
      ThreeByteLength(c / 0x1000, c / 0x40 % 0x40, c % 0x40, rest);
    } else {
      FourByteForm(c);
      FourByteLength(c / 0x4_0000, c / 0x1000 % 0x40, c / 0x40 % 0x40, c % 0x40, rest);
    }
  }

  lemma TwoByteLength(a: nat, b: nat, rest: bytes)
    requires 2 <= a < 0x20 && b < 0x40
    ensures CharLength([0xC0 + a, 0x80 + b] + rest) == 2
  {
  }

  lemma ThreeByteLength(a: nat, b: nat, d: nat, rest: bytes)
    requires a < 0x10 && b < 0x40 && d < 0x40 && (a == 0 ==> b >= 0x20) && (a == 0xD ==> b < 0x20)
    ensures CharLength([0xE0 + a, 0x80 + b, 0x80 + d] + rest) == 3
  {
  }

  lemma FourByteLength(a: nat, b: nat, d: nat, e: nat, rest: bytes)
    requires a <= 4 && b < 0x40 && d < 0x40 && e < 0x40 && (a == 0 ==> b >= 0x10) && (a == 4 ==> b < 0x10)
    ensures CharLength([0xF0 + a, 0x80 + b, 0x80 + d, 0x80 + e] + rest) == 4
  {
  }

  lemma {:induction false} EncodeUtf8WellFormed(cs: seq<codepoint>)
    requires AllScalar(cs)
    ensures WellFormedUtf8(EncodeUtf8(cs))
  {
    if cs != [] {
      var rest := EncodeUtf8(cs[1..]);
      EncodeUtf8WellFormed(cs[1..]);
      CharLengthOfUtf8(cs[0], rest);
      assert EncodeUtf8(cs)[|Utf8Of(cs[0])|..] == rest;
    }
  }

  /** Where the bits of a code point go in its UTF-8 bytes (section 3 of RFC 3629). */
  lemma Utf8Layout(a: nat, b: nat, d: nat, e: nat)
    requires b < 0x40 && d < 0x40 && e < 0x40
    ensures e + 0x40 * d < 0x80 ==> Utf8Of(e + 0x40 * d) == [e + 0x40 * d]
    ensures 2 <= d < 0x20 ==> Utf8Of(e + 0x40 * d) == [0xC0 + d, 0x80 + e]
    ensures b < 0x10 && e + 0x40 * d + 0x1000 * b >= 0x800 ==>
              Utf8Of(e + 0x40 * d + 0x1000 * b) == [0xE0 + b, 0x80 + d, 0x80 + e]
    ensures a < 8 && e + 0x40 * d + 0x1000 * b + 0x4_0000 * a >= 0x1_0000 ==>
              Utf8Of(e + 0x40 * d + 0x1000 * b + 0x4_0000 * a) == [0xF0 + a, 0x80 + b, 0x80 + d, 0x80 + e]
  {
    BaseDigits(a, b, d, e);
    BaseDigits(0, b, d, e);
    BaseDigits(0, 0, d, e);
  }

  lemma BaseDigits(a: nat, b: nat, d: nat, e: nat)
    requires b < 0x40 && d < 0x40 && e < 0x40
    ensures var c := e + 0x40 * d + 0x1000 * b + 0x4_0000 * a;
            c % 0x40 == e && c / 0x40 % 0x40 == d && c / 0x1000 % 0x40 == b && c / 0x4_0000 == a
  {
    var x := b + 0x40 * a;
    var y := d + 0x40 * x;
    Digits64(e + 0x40 * y);
    Split64(a, b);
    Split64(x, d);
    Split64(y, e);
  }

  /** A code point beyond the 16-bit ones is a surrogate pair (section 2.1 of RFC 2781). */
  lemma Utf16Layout(hi: nat, lo: nat)
    requires hi < 0x400 && lo < 0x400
    ensures Utf16Of(0x1_0000 + 0x400 * hi + lo) == [0xD800 + hi, 0xDC00 + lo]
  {
    assert (0x400 * hi + lo) / 0x400 == hi && (0x400 * hi + lo) % 0x400 == lo;
  }

  // -- The u16string formatter: UTF-8 -> UTF-16 on arbitrary bytes --------------

  /** The sequence length the formatter assumes for a leading byte. */
  function LeadLength(b0: byte): (n: nat)
    ensures 1 <= n <= 4
  {
    if b0 < 0x80 then 1
    else if b0 / 0x20 == 6 then 2
    else if b0 / 0x10 == 14 then 3
    else 4
  }

  /** The payload bits of a leading byte. */
  function LeadBits(b0: byte): (n: nat)
    ensures n < if LeadLength(b0) == 1 then 0x80 else if LeadLength(b0) == 2 then 0x20
                else if LeadLength(b0) == 3 then 0x10 else 8
  {
    if b0 < 0x80 then b0
    else if b0 / 0x20 == 6 then b0 % 0x20
    else if b0 / 0x10 == 14 then b0 % 0x10
    else b0 % 8
  }

  /** The code point assembled from the first LeadLength bytes, whatever they are. */
  function Assemble(bs: bytes): (c: codepoint)
    requires bs != [] && LeadLength(bs[0]) <= |bs|
  {
    var n := LeadLength(bs[0]);
    var c := LeadBits(bs[0]);
    if n == 1 then c
    else if n == 2 then c * 0x40 + bs[1] % 0x40
    else if n == 3 then (c * 0x40 + bs[1] % 0x40) * 0x40 + bs[2] % 0x40
    else ((c * 0x40 + bs[1] % 0x40) * 0x40 + bs[2] % 0x40) * 0x40 + bs[3] % 0x40
  }

  /** The code points the formatter decodes; it stops at a truncated sequence. */
  function DecodeUtf8(bs: bytes): (cs: seq<codepoint>)
  {
    if bs == [] || LeadLength(bs[0]) > |bs| then []
    else [Assemble(bs)] + DecodeUtf8(bs[LeadLength(bs[0])..])
  }

  function Utf8ToUtf16(bs: bytes): (u: units)
  {
    EncodeUtf16(DecodeUtf8(bs))
  }

  function Utf16ToUtf8(u: units): (bs: bytes)
  {
    EncodeUtf8(DecodeUtf16(u))
  }

  lemma AssembleOfUtf8(c: codepoint, rest: bytes)
    ensures var bs := Utf8Of(c) + rest;
            LeadLength(bs[0]) == |Utf8Of(c)| && Assemble(bs) == c
  {
    Sextets(c);
    if c <= 0x7F {
    } else if c <= 0x7FF {
      AssembleTwo(c / 0x40, c % 0x40, rest);
    } else if c <= 0xFFFF {
      AssembleThree(c / 0x1000, c / 0x40 % 0x40, c % 0x40, rest);
    } else {
      AssembleFour(c / 0x4_0000, c / 0x1000 % 0x40, c / 0x40 % 0x40, c % 0x40, rest);
    }
  }

  lemma AssembleTwo(a: nat, b: nat, rest: bytes)
    requires a < 0x20 && b < 0x40
    ensures var bs: bytes := [0xC0 + a, 0x80 + b] + rest;
            LeadLength(bs[0]) == 2 && Assemble(bs) == a * 0x40 + b
  {
    LeadByte(a, 2);
    assert (0x80 + b) % 0x40 == b;
  }

  lemma AssembleThree(a: nat, b: nat, d: nat, rest: bytes)
    requires a < 0x10 && b < 0x40 && d < 0x40
    ensures var bs: bytes := [0xE0 + a, 0x80 + b, 0x80 + d] + rest;
            LeadLength(bs[0]) == 3 && Assemble(bs) == (a * 0x40 + b) * 0x40 + d
  {
    LeadByte(a, 3);
    assert (0x80 + b) % 0x40 == b && (0x80 + d) % 0x40 == d;
  }

  lemma AssembleFour(a: nat, b: nat, d: nat, e: nat, rest: bytes)
    requires a < 8 && b < 0x40 && d < 0x40 && e < 0x40
    ensures var bs: bytes := [0xF0 + a, 0x80 + b, 0x80 + d, 0x80 + e] + rest;
            LeadLength(bs[0]) == 4 && Assemble(bs) == ((a * 0x40 + b) * 0x40 + d) * 0x40 + e
  {
    LeadByte(a, 4);
    assert (0x80 + b) % 0x40 == b && (0x80 + d) % 0x40 == d && (0x80 + e) % 0x40 == e;
  }

  /** What the leading bytes 0xC0 + a, 0xE0 + a and 0xF0 + a announce. */
  lemma LeadByte(a: nat, n: nat)
    requires (n == 2 && a < 0x20) || (n == 3 && a < 0x10) || (n == 4 && a < 8)
    ensures var b0 := (if n == 2 then 0xC0 else if n == 3 then 0xE0 else 0xF0) + a;
            LeadLength(b0) == n && LeadBits(b0) == a
  {
  }

  lemma {:induction false} DecodeOfEncodeUtf8(cs: seq<codepoint>)
    ensures DecodeUtf8(EncodeUtf8(cs)) == cs
  {
    if cs != [] {
      var rest := EncodeUtf8(cs[1..]);
      DecodeOfEncodeUtf8(cs[1..]);
      AssembleOfUtf8(cs[0], rest);
      assert EncodeUtf8(cs)[|Utf8Of(cs[0])|..] == rest;
    }
  }

  /** The UTF-16 -> UTF-8 -> UTF-16 trip of a u16string, for every code-unit sequence. */
  lemma TranscodeRoundTrip(u: units)
    ensures Utf8ToUtf16(Utf16ToUtf8(u)) == Repair(u)
    ensures WellFormedUtf8(Utf16ToUtf8(u))
    ensures Utf8ToUtf16(Utf16ToUtf8(u)) == u <==> WellFormedUtf16(u)
  {
    DecodeOfEncodeUtf8(DecodeUtf16(u));
    EncodeOfDecodeUtf16(u);
    EncodeUtf8WellFormed(DecodeUtf16(u));
    RepairIdentity(u);
  }

  // -- Counting UTF-16 units in UTF-8 -------------------------------------------

  /** What one byte adds to the UTF-16 length. */
  function UnitsOfByte(b: byte): (n: nat)
  {
    if Tail(b) then 0 else if b >= 0xF0 then 2 else 1
  }

  /** The plain per-byte count. */
  function CountUnits(bs: bytes): (n: nat)
    ensures n <= 2 * |bs|
  {
    if bs == [] then 0 else UnitsOfByte(bs[0]) + CountUnits(bs[1..])
  }

  lemma {:induction false} CountUnitsConcat(a: bytes, b: bytes)
    ensures CountUnits(a + b) == CountUnits(a) + CountUnits(b)
  {
    if a == [] {
      assert a + b == b;
    } else {
      CountUnitsConcat(a[1..], b);
      assert (a + b)[1..] == a[1..] + b;
    }
  }

  lemma {:induction false} CountUnitsAscii(bs: bytes)
    requires forall i | 0 <= i < |bs| :: bs[i] < 0x80
    ensures CountUnits(bs) == |bs|
  {
    if bs != [] {
      CountUnitsAscii(bs[1..]);
    }
  }

  /** utf16_length_from_utf8: eight ASCII bytes at a time, then byte by byte. */
  method Utf16LengthFromUtf8(data: bytes) returns (n: nat)
    ensures n == CountUnits(data)
  {
    n := 0;
    var i := 0;
    while i + 8 <= |data|
      invariant 0 <= i <= |data|
      invariant n == CountUnits(data[..i])
    {
      var block := data[i..i + 8];
      if exists k | 0 <= k < 8 :: block[k] >= 0x80 {
        break;
      }
      n := n + 8;
      CountUnitsAscii(block);
      CountUnitsConcat(data[..i], block);
      assert data[..i + 8] == data[..i] + block;
      i := i + 8;
    }
    while i < |data|
      invariant 0 <= i <= |data|
      invariant n == CountUnits(data[..i])
    {
      var b := data[i];
      CountUnitsConcat(data[..i], [b]);
      assert data[..i + 1] == data[..i] + [b];
      assert CountUnits([b]) == UnitsOfByte(b) + CountUnits([]);
      i := i + 1;
      if b / 0x40 == 2 {
        continue;
      }
      n := n + if b >= 0xF0 then 2 else 1;
    }
    assert data[..i] == data;
  }

  lemma CountUnitsOfUtf8(c: codepoint)
    requires c <= 0x10_FFFF
    ensures CountUnits(Utf8Of(c)) == |Utf16Of(c)| <= |Utf8Of(c)|
  {
    var bs := Utf8Of(c);
    assert |bs| == 2 ==> CountUnits(bs) == UnitsOfByte(bs[0]) + (UnitsOfByte(bs[1]) + CountUnits(bs[1..][1..]));
    if |bs| > 1 {
      assert bs == [bs[0]] + bs[1..];
      CountTails(bs[1..]);
    }
  }

  lemma {:induction false} CountTails(bs: bytes)
    requires forall b | b in bs :: Tail(b)
    ensures CountUnits(bs) == 0
  {
    if bs != [] {
      CountTails(bs[1..]);
    }
  }

  lemma {:induction false} CountUnitsOfEncodeUtf8(cs: seq<codepoint>)
    requires AllScalar(cs)
    ensures CountUnits(EncodeUtf8(cs)) == |EncodeUtf16(cs)| <= |EncodeUtf8(cs)|
  {
    if cs != [] {
      CountUnitsOfEncodeUtf8(cs[1..]);
      assert IsScalar(cs[0]);
      CountUnitsOfUtf8(cs[0]);
      CountUnitsConcat(Utf8Of(cs[0]), EncodeUtf8(cs[1..]));
    }
  }

  /** ReadUtf16String's output has exactly as many UTF-16 units as its input. */
  lemma CountOfTranscoded(u: units)
    ensures CountUnits(Utf16ToUtf8(u)) == |u|
  {
    CountUnitsOfEncodeUtf8(DecodeUtf16(u));
    EncodeOfDecodeUtf16(u);
  }

  lemma Split64(a: nat, b: nat)
    requires b < 0x40
    ensures (a * 0x40 + b) / 0x40 == a && (a * 0x40 + b) % 0x40 == b
  {
  }

  /** A UTF8-char is exactly what append_utf8_codepoint writes for some scalar value. */
  lemma CharIsUtf8Of(bs: bytes)
    requires CharLength(bs) > 0
    ensures LeadLength(bs[0]) == CharLength(bs)
    ensures IsScalar(Assemble(bs)) && Utf8Of(Assemble(bs)) == bs[..CharLength(bs)]
  {
    match CharLength(bs)
    case 1 =>
    case 2 => TwoByteChar(bs);
    case 3 => ThreeByteChar(bs);
    case 4 => FourByteChar(bs);
  }

  lemma TwoByteChar(bs: bytes)
    requires CharLength(bs) == 2
    ensures LeadLength(bs[0]) == 2
    ensures IsScalar(Assemble(bs)) && Utf8Of(Assemble(bs)) == bs[..2]
  {
    var a: int, b: int := bs[0] - 0xC0, bs[1] - 0x80;
    assert bs == [0xC0 + a, 0x80 + b] + bs[2..];
    AssembleTwo(a, b, bs[2..]);
    Split64(a, b);
  }

  lemma ThreeByteChar(bs: bytes)
    requires CharLength(bs) == 3
    ensures LeadLength(bs[0]) == 3
    ensures IsScalar(Assemble(bs)) && Utf8Of(Assemble(bs)) == bs[..3]
  {
    var a: int, b: int, d: int := bs[0] - 0xE0, bs[1] - 0x80, bs[2] - 0x80;
    assert bs == [0xE0 + a, 0x80 + b, 0x80 + d] + bs[3..];
    AssembleThree(a, b, d, bs[3..]);
    ThreeByteParts(a, b, d);
  }

  lemma ThreeByteParts(a: nat, b: nat, d: nat)
    requires a < 0x10 && b < 0x40 && d < 0x40 && (a == 0 ==> b >= 0x20) && (a == 0xD ==> b < 0x20)
    ensures var c := (a * 0x40 + b) * 0x40 + d;
            && 0x800 <= c <= 0xFFFF && !(0xD800 <= c <= 0xDFFF)
            && c / 0x1000 == a && c / 0x40 % 0x40 == b && c % 0x40 == d
  {
    Split64(a, b);
    Split64(a * 0x40 + b, d);
    Digits64((a * 0x40 + b) * 0x40 + d);
  }

  lemma FourByteChar(bs: bytes)
    requires CharLength(bs) == 4
    ensures LeadLength(bs[0]) == 4
    ensures IsScalar(Assemble(bs)) && Utf8Of(Assemble(bs)) == bs[..4]
  {
    var a: int, b: int, d: int, e: int := bs[0] - 0xF0, bs[1] - 0x80, bs[2] - 0x80, bs[3] - 0x80;
    assert bs == [0xF0 + a, 0x80 + b, 0x80 + d, 0x80 + e] + bs[4..];
    AssembleFour(a, b, d, e, bs[4..]);
    FourByteParts(a, b, d, e);
  }

  lemma FourByteParts(a: nat, b: nat, d: nat, e: nat)
    requires a <= 4 && b < 0x40 && d < 0x40 && e < 0x40 && (a == 0 ==> b >= 0x10) && (a == 4 ==> b < 0x10)
    ensures var c := ((a * 0x40 + b) * 0x40 + d) * 0x40 + e;
            && 0x1_0000 <= c <= 0x10_FFFF
            && c / 0x4_0000 == a && c / 0x1000 % 0x40 == b && c / 0x40 % 0x40 == d && c % 0x40 == e
  {
    var x, y := a * 0x40 + b, (a * 0x40 + b) * 0x40 + d;
    Split64(a, b);
    Split64(x, d);
    Split64(y, e);
    Digits64(y * 0x40 + e);
  }

  /** Well-formed UTF-8 is the encoding of the scalar values decoded from it. */
  lemma {:induction false} WellFormedIsEncoded(bs: bytes)
    requires WellFormedUtf8(bs)
    ensures AllScalar(DecodeUtf8(bs)) && EncodeUtf8(DecodeUtf8(bs)) == bs
  {
    if bs != [] {
      var n := CharLength(bs);
      var c, rest := Assemble(bs), bs[n..];
      CharIsUtf8Of(bs);
      WellFormedIsEncoded(rest);
      ConsScalar(c, DecodeUtf8(rest));
      assert DecodeUtf8(bs) == [c] + DecodeUtf8(rest);
      assert bs == bs[..n] + rest;
    }
  }

  lemma ConsScalar(c: codepoint, cs: seq<codepoint>)
    requires IsScalar(c) && AllScalar(cs)
    ensures AllScalar([c] + cs) && EncodeUtf8([c] + cs) == Utf8Of(c) + EncodeUtf8(cs)
  {
    assert ([c] + cs)[1..] == cs;
  }

  /** On well-formed UTF-8 the count is the true UTF-16 length and never exceeds the byte count. */
  lemma CountIsUtf16Length(bs: bytes)
    requires WellFormedUtf8(bs)
    ensures CountUnits(bs) == |Utf8ToUtf16(bs)| <= |bs|
  {
    WellFormedIsEncoded(bs);
    CountUnitsOfEncodeUtf8(DecodeUtf8(bs));
  }
}
