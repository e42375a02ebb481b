/**
 System.Half of dotnet.hpp: conversion between binary32 and binary16 bit patterns.

 A float is its 32-bit pattern, a Half its 16-bit pattern. Exact values are integers counted in
 units of 2^-149, the smallest positive binary32.
 */
module Half {

  type bits32 = x: int | 0 <= x < 0x1_0000_0000

  type bits16 = h: int | 0 <= h < 0x1_0000

  /** `n * 2^e` */
  function Scale(n: nat, e: nat): (s: nat)
    ensures s >= n
  {
    if e == 0 then n else 2 * Scale(n, e - 1)
  }

  /** `n >> k` */
  function ShiftRight(n: nat, k: nat): (r: nat)
    ensures r <= n
  {
    if k == 0 then n else ShiftRight(n / 2, k - 1)
  }

  lemma {:induction false} ScaleMonotone(a: nat, b: nat, e: nat)
    requires a <= b
    ensures Scale(a, e) <= Scale(b, e) && (a < b ==> Scale(a, e) < Scale(b, e))
  {
    if e > 0 {
      ScaleMonotone(a, b, e - 1);
    }
  }

  lemma {:induction false} ScaleGrows(n: nat, d: nat, e: nat)
    requires d <= e
    ensures Scale(n, d) <= Scale(n, e)
  {
    if d < e {
      ScaleGrows(n, d, e - 1);
    }
  }

  lemma {:induction false} ScaleAdd(a: nat, b: nat, e: nat)
    ensures Scale(a + b, e) == Scale(a, e) + Scale(b, e)
  {
    if e > 0 {
      ScaleAdd(a, b, e - 1);
    }
  }

  lemma {:induction false} ScaleShift(n: nat, d: nat, e: nat)
    ensures Scale(Scale(n, d), e) == Scale(n, d + e)
  {
    if e > 0 {
      ScaleShift(n, d, e - 1);
    }
  }

  lemma ScaleFour(n: nat, e: nat)
    ensures Scale(n, e + 4) == 0x10 * Scale(n, e)
  {
    assert Scale(n, e + 2) == 4 * Scale(n, e);
  }

  lemma ScaleValues(n: nat)
    ensures Scale(n, 1) == 2 * n && Scale(n, 4) == 0x10 * n && Scale(n, 11) == 0x800 * n
    ensures Scale(n, 12) == 0x1000 * n && Scale(n, 13) == 0x2000 * n && Scale(n, 24) == 0x100_0000 * n
  {
    ScaleFour(n, 0);
    ScaleFour(n, 4);
    ScaleFour(n, 8);
    ScaleFour(n, 12);
    ScaleFour(n, 16);
    ScaleFour(n, 20);
  }

  lemma {:induction false} ShiftRightBounds(n: nat, k: nat)
    ensures Scale(ShiftRight(n, k), k) <= n < Scale(ShiftRight(n, k) + 1, k)
  {
    if k > 0 {
      ShiftRightBounds(n / 2, k - 1);
    }
  }

  lemma {:induction false} ShiftRightStep(n: nat, k: nat)
    ensures ShiftRight(n, k + 1) == ShiftRight(n, k) / 2
  {
    if k > 0 {
      ShiftRightStep(n / 2, k - 1);
    }
  }

  // -- Exact values ----------------------------------------------------------------

  const INF32 := 0x7F80_0000

  const INF16 := 0x7C00

  /** The pattern without its sign bit. */
  function Magnitude32(x: bits32): (m: nat) { x % 0x8000_0000 }

  function Magnitude16(h: bits16): (m: nat) { h % 0x8000 }

  predicate Negative32(x: bits32) { x >= 0x8000_0000 }

  predicate Negative16(h: bits16) { h >= 0x8000 }

  predicate IsNaN32(x: bits32) { Magnitude32(x) > INF32 }

  predicate IsNaN16(h: bits16) { Magnitude16(h) > INF16 }

  /** |value| of a binary32 of magnitude `m`; infinity counts as 2^128. */
  function Value32(m: nat): (v: nat)
  {
    var e, f := m / 0x80_0000, m % 0x80_0000;
    if e == 0 then f else Scale(0x80_0000 + f, e - 1)
  }

  /**
   |value| of a binary16 of magnitude `m`. At INF16 this is 65536, the value that would come next:
   the midpoint between it and the largest finite half is the overflow threshold 65520.
   */
  function Value16(m: nat): (v: nat)
  {
    var e, f := m / 0x400, m % 0x400;
    if e == 0 then Scale(f, 125) else Scale(0x400 + f, e + 124)
  }

  /** The k-th half of binade `e`; the subnormals share the spacing of binade 1. */
  predicate InBinade(e: nat, k: nat)
  {
    e >= 1 && k <= 0x800 && (e > 1 ==> 0x400 <= k)
  }

  lemma Value16InBinade(e: nat, k: nat)
    requires InBinade(e, k)
    ensures Value16((e - 1) * 0x400 + k) == Scale(k, e + 124)
  {
    var m := (e - 1) * 0x400 + k;
    if k < 0x400 {
      assert m / 0x400 == 0 && m % 0x400 == k;
    } else if k < 0x800 {
      assert m / 0x400 == e && m % 0x400 == k - 0x400;
    } else {
      assert m / 0x400 == e + 1 && m % 0x400 == 0;
      ScaleShift(0x400, 1, e + 124);
      ScaleValues(0x400);
    }
  }

  lemma Value16Next(m: nat)
    ensures Value16(m) < Value16(m + 1)
  {
    var e := if m < 0x400 then 1 else m / 0x400;
    var k := m - (e - 1) * 0x400;
    Value16InBinade(e, k);
    Value16InBinade(e, k + 1);
    ScaleMonotone(k, k + 1, e + 124);
  }

  lemma {:induction false} Value16Monotone(m: nat, n: nat)
    requires m <= n
    ensures Value16(m) <= Value16(n)
  {
    if m < n {
      Value16Monotone(m, n - 1);
      Value16Next(n - 1);
    }
  }

  // -- Half::FromFloat -------------------------------------------------------------

  /** FromFloat without the sign bit. */
  function FromMagnitude(m: nat): (h: nat)
    requires m < 0x8000_0000
  {
    var exp, mant := m / 0x80_0000 - 112, m % 0x80_0000;
    if m / 0x80_0000 == 0xFF then INF16 + if mant != 0 then 0x200 else 0
    else if exp >= 0x1F then INF16
    else if exp < -10 then 0
    else if exp <= 0 then
      var full := mant + 0x80_0000;
      ShiftRight(full, 14 - exp) + ShiftRight(full, 13 - exp) % 2
    else
      exp * 0x400 + mant / 0x2000 + mant / 0x1000 % 2
  }

  /**
   Twice the value lies between the midpoints around `h`, the lower midpoint included: `h` is the
   nearest half, and a value halfway between two halves goes to the larger.
   */
  predicate Rounds(v: nat, h: nat)
  {
    && h <= INF16
    && (h > 0 ==> Value16(h - 1) + Value16(h) <= 2 * v)
    && (h < INF16 ==> 2 * v < Value16(h) + Value16(h + 1))
  }

  lemma LowerMidpoint(e: nat, k: nat)
    requires InBinade(e, k) && k > 0 && InBinade(e, k - 1)
    ensures var h := (e - 1) * 0x400 + k; Value16(h - 1) + Value16(h) == Scale(2 * k - 1, e + 124)
  {
    var h := (e - 1) * 0x400 + k;
    HalfInBinade(h, e, k);
    HalfInBinade(h - 1, e, k - 1);
    ScaleSum(k - 1, k, 2 * k - 1, e + 124);
  }

  lemma HalfInBinade(h: nat, e: nat, k: nat)
    requires InBinade(e, k) && h == (e - 1) * 0x400 + k
    ensures Value16(h) == Scale(k, e + 124)
  {
    Value16InBinade(e, k);
  }

  lemma ScaleSum(a: nat, b: nat, c: nat, e: nat)
    requires c == a + b
    ensures Scale(c, e) == Scale(a, e) + Scale(b, e)
  {
    ScaleAdd(a, b, e);
  }

  lemma UpperMidpoint(e: nat, k: nat)
    requires InBinade(e, k)
    ensures var h := (e - 1) * 0x400 + k; Scale(2 * k + 1, e + 124) <= Value16(h) + Value16(h + 1)
  {
    if k < 0x800 {
      LowerMidpoint(e, k + 1);
    } else {
      Value16InBinade(e, k);
      Value16InBinade(e + 1, 0x401);
      ScaleShift(0x401, 1, e + 124);
      ScaleValues(0x401);
      ScaleAdd(0x800, 0x802, e + 124);
      ScaleMonotone(0x1001, 0x1002, e + 124);
    }
  }

  /** The interval from `2k - 1` to `2k + 1` half-ulps rounds to the k-th half of its binade. */
  lemma RoundsInBinade(v: nat, e: nat, k: nat)
    requires InBinade(e, k) && e <= 30
    requires k > 0 ==> Scale(2 * k - 1, e + 124) <= 2 * v
    requires 2 * v < Scale(2 * k + 1, e + 124)
    requires e > 1 && k == 0x400 ==> Scale(2 * k, e + 124) <= 2 * v
    ensures Rounds(v, (e - 1) * 0x400 + k)
  {
    var h := (e - 1) * 0x400 + k;
    if h > 0 {
      if InBinade(e, k - 1) {
        LowerMidpoint(e, k);
      } else {
        Value16InBinade(e, k);
        Value16Next(h - 1);
        ScaleAdd(k, k, e + 124);
      }
    }
    UpperMidpoint(e, k);
  }

  lemma NormalRounds(m: nat)
    requires m < INF32 && 113 <= m / 0x80_0000 <= 142
    ensures Rounds(Value32(m), FromMagnitude(m))
  {
    var e, mant := m / 0x80_0000 - 112, m % 0x80_0000;
    assert FromMagnitude(m) == (e - 1) * 0x400 + ((0x80_0000 + mant) / 0x1000 + 1) / 2;
    SignificandRounds(0x80_0000 + mant, e);
  }

  lemma SignificandRounds(full: nat, e: nat)
    requires 0x80_0000 <= full < 0x100_0000 && 1 <= e <= 30
    ensures Rounds(Scale(full, e + 111), (e - 1) * 0x400 + (full / 0x1000 + 1) / 2)
  {
    var k := (full / 0x1000 + 1) / 2;
    Widen(full, 2 * k - 1, e);
    Widen(full, 2 * k + 1, e);
    Widen(full, 2 * k, e);
    RoundsInBinade(Scale(full, e + 111), e, k);
  }

  /** Comparing a 24-bit significand with `j` half-ulps of the 11-bit format. */
  lemma Widen(full: nat, j: nat, e: nat)
    requires e >= 1
    ensures j * 0x1000 <= full ==> Scale(j, e + 124) <= 2 * Scale(full, e + 111)
    ensures j * 0x1000 > full ==> Scale(j, e + 124) > 2 * Scale(full, e + 111)
  {
    ScaleValues(j);
    ScaleShift(j, 12, e + 112);
    assert Scale(full, e + 112) == 2 * Scale(full, e + 111);
    if j * 0x1000 <= full {
      ScaleMonotone(j * 0x1000, full, e + 112);
    } else {
      ScaleMonotone(full, j * 0x1000, e + 112);
    }
  }

  lemma SubnormalRounds(m: nat)
    requires 102 <= m / 0x80_0000 <= 112
    ensures Rounds(Value32(m), FromMagnitude(m))
  {
    var e32, full := m / 0x80_0000, 0x80_0000 + m % 0x80_0000;
    var shift := 125 - e32;
    var q := ShiftRight(full, shift);
    var k := (q + 1) / 2;
    ShiftRightStep(full, shift);
    assert FromMagnitude(m) == k;
    SubnormalIsSmall(full, shift);
    SubnormalBounds(full, q, k, shift, e32);
    RoundsInBinade(Value32(m), 1, k);
  }

  lemma SubnormalIsSmall(full: nat, shift: nat)
    requires full < 0x100_0000 && shift >= 13
    ensures ShiftRight(full, shift) < 0x800
  {
    var q := ShiftRight(full, shift);
    ShiftRightBounds(full, shift);
    ScaleGrows(q, 13, shift);
    ScaleValues(q);
  }

  lemma SubnormalBounds(full: nat, q: nat, k: nat, s: nat, e: nat)
    requires s + e == 125 && e > 0 && q == ShiftRight(full, s) && k == (q + 1) / 2
    ensures k > 0 ==> Scale(2 * k - 1, 125) <= 2 * Scale(full, e - 1)
    ensures 2 * Scale(full, e - 1) < Scale(2 * k + 1, 125)
  {
    ShiftRightBounds(full, s);
    assert Scale(full, e) == 2 * Scale(full, e - 1);
    if k > 0 {
      ScaleMonotone(2 * k - 1, q, s);
      ScaleMonotone(Scale(2 * k - 1, s), full, e);
      ScaleShift(2 * k - 1, s, e);
    }
    ScaleMonotone(q + 1, 2 * k + 1, s);
    ScaleMonotone(full, Scale(2 * k + 1, s), e);
    ScaleShift(2 * k + 1, s, e);
  }

  /** Below 2^-25, half the smallest subnormal half. */
  lemma TinyValue(m: nat)
    requires m / 0x80_0000 < 102
    ensures Value32(m) < Scale(1, 124)
  {
    var e32, f := m / 0x80_0000, m % 0x80_0000;
    ScaleValues(1);
    if e32 == 0 {
      ScaleGrows(1, 24, 124);
    } else {
      ScaleMonotone(0x80_0000 + f, Scale(1, 24), e32 - 1);
      ScaleShift(1, 24, e32 - 1);
      ScaleGrows(1, 24 + (e32 - 1), 124);
    }
  }

  lemma TinyRounds(m: nat)
    requires m / 0x80_0000 < 102
    ensures Rounds(Value32(m), FromMagnitude(m))
  {
    TinyValue(m);
    assert Scale(1, 125) == 2 * Scale(1, 124);
    RoundsInBinade(Value32(m), 1, 0);
  }

  lemma OverflowRounds(m: nat)
    requires m <= INF32 && m / 0x80_0000 >= 143
    ensures Rounds(Value32(m), FromMagnitude(m))
  {
    OverflowValue(m);
    Value16Next(INF16 - 1);
  }

  lemma OverflowValue(m: nat)
    requires m <= INF32 && m / 0x80_0000 >= 143
    ensures Value16(INF16) <= Value32(m) && FromMagnitude(m) == INF16
  {
    var e, f := m / 0x80_0000 - 112, m % 0x80_0000;
    Value16InBinade(e, 0x400);
    ScaleShift(0x400, 13, e + 111);
    ScaleValues(0x400);
    ScaleMonotone(0x80_0000, 0x80_0000 + f, e + 111);
    Value16Monotone(INF16, e * 0x400);
  }

  lemma FromMagnitudeRounds(m: nat)
    requires m <= INF32
    ensures Rounds(Value32(m), FromMagnitude(m))
  {
    if m / 0x80_0000 < 102 { TinyRounds(m); }
    else if m / 0x80_0000 <= 112 { SubnormalRounds(m); }
    else if m / 0x80_0000 <= 142 { NormalRounds(m); }
    else { OverflowRounds(m); }
  }

  function Distance(a: int, b: int): (d: nat)
  {
    if a >= b then a - b else b - a
  }

  lemma RoundedIsNearest(v: nat, r: nat, h: nat)
    requires Rounds(v, r) && h <= INF16
    ensures Distance(v, Value16(r)) <= Distance(v, Value16(h))
    ensures Distance(v, Value16(r)) == Distance(v, Value16(h)) ==> h <= r
  {
    if h < r {
      Value16Monotone(h, r - 1);
      Value16Next(r - 1);
    } else if h > r {
      Value16Monotone(r + 1, h);
      Value16Next(r);
    }
  }

  /** FromFloat picks a nearest half, and the one of larger magnitude when two are equally near. */
  lemma Nearest(m: nat, h: nat)
    requires m <= INF32 && h <= INF16
    ensures FromMagnitude(m) <= INF16
    ensures Distance(Value32(m), Value16(FromMagnitude(m))) <= Distance(Value32(m), Value16(h))
    ensures Distance(Value32(m), Value16(FromMagnitude(m))) == Distance(Value32(m), Value16(h))
            ==> h <= FromMagnitude(m)
  {
    FromMagnitudeRounds(m);
    RoundedIsNearest(Value32(m), FromMagnitude(m), h);
  }

  // -- Where the comment's rounding to nearest even fails ---------------------------------------

  /** `h` is a nearest half to `v`, the even one of two equally near ones. */
  ghost predicate NearestEven(v: nat, h: nat)
  {
    && h <= INF16
    && forall g: nat :: g <= INF16 && g != h ==>
         && Distance(v, Value16(h)) <= Distance(v, Value16(g))
         && (Distance(v, Value16(h)) == Distance(v, Value16(g)) ==> h % 2 == 0)
  }

  /** The value lies halfway between `h` and the half below it. */
  predicate TieAt(v: nat, h: nat)
  {
    h > 0 && Value16(h - 1) + Value16(h) == 2 * v
  }

  lemma OnlyNeighbourTies(v: nat, h: nat, g: nat)
    requires Rounds(v, h) && g < h && Distance(v, Value16(h)) == Distance(v, Value16(g))
    ensures TieAt(v, h)
  {
    Value16Monotone(g, h - 1);
    Value16Next(h - 1);
    if g < h - 1 {
      Value16Monotone(g + 1, h - 1);
      Value16Next(g);
    }
  }

  /** Rounding ties up agrees with rounding them to even unless it ends on an odd half. */
  lemma RoundedIsNearestEven(v: nat, h: nat)
    requires Rounds(v, h)
    ensures NearestEven(v, h) <==> !(TieAt(v, h) && h % 2 == 1)
  {
    if TieAt(v, h) {
      Value16Next(h - 1);
      assert Distance(v, Value16(h)) == Distance(v, Value16(h - 1));
    }
    forall g: nat | g <= INF16 && g != h
      ensures Distance(v, Value16(h)) <= Distance(v, Value16(g))
      ensures Distance(v, Value16(h)) == Distance(v, Value16(g)) ==> TieAt(v, h)
    {
      RoundedIsNearest(v, h, g);
      if Distance(v, Value16(h)) == Distance(v, Value16(g)) {
        OnlyNeighbourTies(v, h, g);
      }
    }
  }

  /**
   The bits of a tie whose larger neighbour is odd: the rounding bit is set, nothing is below it, and
   the bit above it is clear. Below the normal halves it is the shifted significand that is rounded.
   */
  predicate OddTie(m: nat)
  {
    var e32, full := m / 0x80_0000, 0x80_0000 + m % 0x80_0000;
    if e32 >= 113 then e32 <= 142 && m % 0x4000 == 0x1000
    else e32 >= 102 && var q := ShiftRight(full, 125 - e32); q % 4 == 1 && full == Scale(q, 125 - e32)
  }

  lemma {:induction false} ScaleInjective(a: nat, b: nat, e: nat)
    requires Scale(a, e) == Scale(b, e)
    ensures a == b
  {
    if a < b {
      ScaleMonotone(a, b, e);
    } else if b < a {
      ScaleMonotone(b, a, e);
    }
  }

  /** In a binade the tie below its k-th half is at 2k - 1 half-ulps. */
  lemma TieInBinade(v: nat, e: nat, k: nat)
    requires InBinade(e, k) && e <= 30
    requires e > 1 && k == 0x400 ==> Scale(2 * k, e + 124) <= 2 * v
    ensures TieAt(v, (e - 1) * 0x400 + k) <==> k > 0 && InBinade(e, k - 1) && Scale(2 * k - 1, e + 124) == 2 * v
  {
    var h := (e - 1) * 0x400 + k;
    if h > 0 {
      if InBinade(e, k - 1) {
        LowerMidpoint(e, k);
      } else {
        Value16InBinade(e, k);
        Value16Next(h - 1);
        ScaleAdd(k, k, e + 124);
      }
    }
  }

  lemma NormalTie(m: nat)
    requires m < INF32 && 113 <= m / 0x80_0000 <= 142
    ensures TieAt(Value32(m), FromMagnitude(m)) && FromMagnitude(m) % 2 == 1 <==> OddTie(m)
  {
    var e, full := m / 0x80_0000 - 112, 0x80_0000 + m % 0x80_0000;
    var k := (full / 0x1000 + 1) / 2;
    SignificandTie(full, e, k);
    NormalTieBits(m, full, k);
    NormalFields(m, e, full, k);
  }

  lemma NormalFields(m: nat, e: nat, full: nat, k: nat)
    requires m < INF32 && 113 <= m / 0x80_0000 <= 142
    requires e == m / 0x80_0000 - 112 && full == 0x80_0000 + m % 0x80_0000 && k == (full / 0x1000 + 1) / 2
    ensures Value32(m) == Scale(full, e + 111) && FromMagnitude(m) == (e - 1) * 0x400 + k
    ensures FromMagnitude(m) % 2 == k % 2
  {
    assert FromMagnitude(m) == (e - 1) * 0x400 + k;
  }

  lemma SignificandTie(full: nat, e: nat, k: nat)
    requires 0x80_0000 <= full < 0x100_0000 && 1 <= e <= 30 && k == (full / 0x1000 + 1) / 2
    ensures TieAt(Scale(full, e + 111), (e - 1) * 0x400 + k) <==> (2 * k - 1) * 0x1000 == full
  {
    Widen(full, 2 * k, e);
    WidenExactly(full, 2 * k - 1, e);
    TieInBinade(Scale(full, e + 111), e, k);
  }

  lemma WidenExactly(full: nat, j: nat, e: nat)
    requires e >= 1
    ensures Scale(j, e + 124) == 2 * Scale(full, e + 111) <==> j * 0x1000 == full
  {
    Widen(full, j, e);
    ScaleValues(j);
    ScaleShift(j, 12, e + 112);
    assert Scale(full, e + 112) == 2 * Scale(full, e + 111);
    if Scale(j, e + 124) == 2 * Scale(full, e + 111) {
      ScaleInjective(j * 0x1000, full, e + 112);
    }
  }

  lemma NormalTieBits(m: nat, full: nat, k: nat)
    requires full == 0x80_0000 + m % 0x80_0000 && k == (full / 0x1000 + 1) / 2
    ensures (2 * k - 1) * 0x1000 == full && k % 2 == 1 <==> m % 0x4000 == 0x1000
    ensures (2 * k - 1) * 0x1000 == full ==> k > 0x400
  {
    assert m % 0x4000 == full % 0x4000;
  }

  lemma SubnormalTie(m: nat)
    requires 102 <= m / 0x80_0000 <= 112
    ensures TieAt(Value32(m), FromMagnitude(m)) && FromMagnitude(m) % 2 == 1 <==> OddTie(m)
  {
    var e32, full := m / 0x80_0000, 0x80_0000 + m % 0x80_0000;
    var shift := 125 - e32;
    var q := ShiftRight(full, shift);
    ShiftRightStep(full, shift);
    assert FromMagnitude(m) == (q + 1) / 2;
    ShiftedTie(full, q, (q + 1) / 2, shift, e32);
  }

  lemma ShiftedTie(full: nat, q: nat, k: nat, s: nat, e32: nat)
    requires full < 0x100_0000 && s + e32 == 125 && e32 > 0 && s >= 13 && q == ShiftRight(full, s) && k == (q + 1) / 2
    ensures TieAt(Scale(full, e32 - 1), k) && k % 2 == 1 <==> q % 4 == 1 && full == Scale(q, s)
  {
    SubnormalIsSmall(full, s);
    TieInBinade(Scale(full, e32 - 1), 1, k);
    if k > 0 {
      ShiftedTieUnits(full, 2 * k - 1, s, e32);
      ShiftExact(full, 2 * k - 1, s);
      OddQuotient(q, k);
    }
  }

  lemma OddQuotient(q: nat, k: nat)
    requires k == (q + 1) / 2
    ensures q == 2 * k - 1 && k % 2 == 1 <==> q % 4 == 1
  {
    var a, r := q / 4, q % 4;
    assert q == 4 * a + r && k == 2 * a + (r + 1) / 2;
  }

  lemma ShiftedTieUnits(full: nat, j: nat, s: nat, e: nat)
    requires s + e == 125 && e > 0
    ensures Scale(j, 125) == 2 * Scale(full, e - 1) <==> Scale(j, s) == full
  {
    ScaleShift(j, s, e);
    assert Scale(full, e) == 2 * Scale(full, e - 1);
    if Scale(j, 125) == 2 * Scale(full, e - 1) {
      ScaleInjective(Scale(j, s), full, e);
    }
  }

  lemma {:induction false} ShiftExact(n: nat, j: nat, k: nat)
    ensures Scale(j, k) == n ==> ShiftRight(n, k) == j
  {
    if Scale(j, k) == n && k > 0 {
      ShiftExact(n / 2, j, k - 1);
    }
  }

  lemma NoTieOutside(m: nat)
    requires m <= INF32 && (m / 0x80_0000 < 102 || m / 0x80_0000 >= 143)
    ensures !TieAt(Value32(m), FromMagnitude(m)) && !OddTie(m)
  {
    if m / 0x80_0000 >= 143 {
      OverflowValue(m);
      Value16Next(INF16 - 1);
    }
  }

  /** FromFloat rounds to nearest even, as its comment says, if and only if the bits are no odd tie. */
  lemma NearestEvenIff(m: nat)
    requires m <= INF32
    ensures NearestEven(Value32(m), FromMagnitude(m)) <==> !OddTie(m)
  {
    FromMagnitudeRounds(m);
    RoundedIsNearestEven(Value32(m), FromMagnitude(m));
    if m / 0x80_0000 < 102 || m / 0x80_0000 >= 143 {
      NoTieOutside(m);
    } else if m / 0x80_0000 <= 112 {
      SubnormalTie(m);
    } else {
      NormalTie(m);
    }
  }

  /** 1 + 2^-11 lies halfway between 1 and 1 + 2^-10; the even half is 1, the code returns the other. */
  lemma OddTieRoundsUp(m: nat)
    requires m == 0x3F80_1000
    ensures FromMagnitude(m) == 0x3C01 && !NearestEven(Value32(m), 0x3C01)
    ensures Distance(Value32(m), Value16(0x3C00)) == Distance(Value32(m), Value16(0x3C01))
  {
    assert m / 0x80_0000 == 127 && m % 0x80_0000 == 0x1000 && m % 0x4000 == 0x1000;
    assert FromMagnitude(m) == 0x3C01;
    NearestEvenIff(m);
    FromMagnitudeRounds(m);
    NormalTie(m);
  }

  lemma InfinityFrom(v: nat, r: nat, top: nat)
    requires Rounds(v, r) && top == INF16
    ensures r == top <==> Value16(top - 1) + Value16(top) <= 2 * v
  {
    if r < top {
      Value16Monotone(r, top - 1);
      Value16Monotone(r + 1, top);
    }
  }

  lemma LastMidpoint(top: nat)
    requires top == INF16
    ensures Value16(top - 1) + Value16(top) == Scale(0xFFF, 154)
  {
    LowerMidpoint(30, 0x800);
  }

  /** The result is infinity exactly from 65520 (65520 * 2^149 units) on. */
  lemma OverflowThreshold(m: nat, top: nat)
    requires m <= INF32 && top == INF16
    ensures FromMagnitude(m) == top <==> Value32(m) >= Scale(65520, 149)
  {
    FromMagnitudeRounds(m);
    InfinityFrom(Value32(m), FromMagnitude(m), top);
    LastMidpoint(top);
    ThresholdUnits();
  }

  lemma ThresholdUnits()
    ensures Scale(0xFFF, 154) == 2 * Scale(65520, 149)
  {
    ScaleShift(0xFFF, 4, 150);
    ScaleFour(0xFFF, 0);
  }

  lemma RoundingMonotone(v: nat, w: nat, a: nat, b: nat)
    requires v <= w && Rounds(v, a) && Rounds(w, b)
    ensures a <= b
  {
    if a > b {
      Value16Monotone(b, a - 1);
      Value16Monotone(b + 1, a);
    }
  }

  lemma ValueMonotone(m: nat, n: nat)
    requires m <= INF32 && n <= INF32 && Value32(m) <= Value32(n)
    ensures Value16(FromMagnitude(m)) <= Value16(FromMagnitude(n))
  {
    FromMagnitudeRounds(m);
    FromMagnitudeRounds(n);
    RoundingMonotone(Value32(m), Value32(n), FromMagnitude(m), FromMagnitude(n));
    Value16Monotone(FromMagnitude(m), FromMagnitude(n));
  }

  function FromFloat(x: bits32): (h: bits16)
  {
    var m := FromMagnitude(Magnitude32(x));
    assert m < 0x8000 by { MagnitudeFits(Magnitude32(x)); }
    m + if Negative32(x) then 0x8000 else 0
  }

  lemma MagnitudeFits(m: nat)
    requires m < 0x8000_0000
    ensures FromMagnitude(m) < 0x8000
    ensures m > INF32 <==> FromMagnitude(m) > INF16
  {
    if m <= INF32 {
      FromMagnitudeRounds(m);
    }
  }

  lemma FromFloatFields(x: bits32)
    ensures Magnitude16(FromFloat(x)) == FromMagnitude(Magnitude32(x))
    ensures IsNaN16(FromFloat(x)) <==> IsNaN32(x)
    ensures Negative16(FromFloat(x)) <==> Negative32(x)
  {
    MagnitudeFits(Magnitude32(x));
  }

  function Signed32(x: bits32): (v: int)
  {
    var v: int := Value32(Magnitude32(x));
    if Negative32(x) then -v else v
  }

  function Signed16(h: bits16): (v: int)
  {
    var v: int := Value16(Magnitude16(h));
    if Negative16(h) then -v else v
  }

  /** FromFloat never reverses the order of two values, infinities and signed zeros included. */
  lemma FromFloatMonotone(x: bits32, y: bits32)
    requires !IsNaN32(x) && !IsNaN32(y) && Signed32(x) <= Signed32(y)
    ensures Signed16(FromFloat(x)) <= Signed16(FromFloat(y))
  {
    FromFloatFields(x);
    FromFloatFields(y);
    var m, n := Magnitude32(x), Magnitude32(y);
    if Negative32(x) && Negative32(y) {
      ValueMonotone(n, m);
    } else if !Negative32(x) {
      ValueMonotone(m, n);
      if Negative32(y) {
        ZeroToZero();
        ValueMonotone(m, 0);
        ValueMonotone(n, 0);
      }
    }
  }

  lemma ZeroToZero()
    ensures Value32(0) == 0 && Value16(0) == 0 && FromMagnitude(0) == 0
  {
    ScaleAdd(0, 0, 125);
  }

  // -- Half::ToFloat ---------------------------------------------------------------

  /** Only `h` itself rounds to `h` among exact values of halves. */
  lemma RoundsExactly(h: nat, r: nat)
    requires h < INF16 && Rounds(Value16(h), r)
    ensures r == h
  {
    if r > h {
      Value16Monotone(h, r - 1);
      Value16Next(r - 1);
    } else if r < h {
      Value16Monotone(r + 1, h);
      Value16Next(r);
    }
  }

  /** The pattern with sign, biased exponent and fraction fields. */
  function Pack32(negative: bool, e: nat, f: nat): (x: bits32)
    requires e <= 0xFF && f < 0x80_0000
    ensures Magnitude32(x) == e * 0x80_0000 + f && (Negative32(x) <==> negative)
    ensures e < 0xFF ==> Magnitude32(x) < INF32
  {
    e * 0x80_0000 + f + if negative then 0x8000_0000 else 0
  }

  /** The subnormal case of ToFloat: shift until the implicit bit appears. */
  method Normalise(mant: nat) returns (e: nat, m: nat)
    requires 0 < mant < 0x400
    ensures 0 < e <= 113 && 0x400 <= m < 0x800
    ensures Scale(m, e + 12) == Scale(mant, 125)
  {
    e, m := 113, mant;
    while m < 0x400
      invariant 0 < m < 0x800 && 102 < e <= 113
      invariant Scale(1, 113 - e) <= m
      invariant Scale(m, e + 12) == Scale(mant, 125)
      decreases 0x400 - m
    {
      ScaleShift(m, 1, e + 11);
      ScaleValues(m);
      m, e := m * 2, e - 1;
      NormalisingStops(m, 113 - e);
    }
  }

  lemma NormalisingStops(m: nat, k: nat)
    ensures m < 0x800 && Scale(1, k) <= m ==> k < 11
  {
    ScaleValues(1);
    if k >= 11 {
      ScaleGrows(1, 11, k);
    }
  }

  /** A normal float whose top eleven significand bits are `m`. */
  lemma NormalisedValue(e: nat, m: nat)
    requires 0 < e && 0x400 <= m < 0x800
    ensures Value32(e * 0x80_0000 + (m - 0x400) * 0x2000) == Scale(m, e + 12)
  {
    var x := e * 0x80_0000 + (m - 0x400) * 0x2000;
    assert x / 0x80_0000 == e && x % 0x80_0000 == (m - 0x400) * 0x2000;
    ScaleShift(m, 13, e - 1);
    ScaleValues(m);
  }

  lemma Fields16(h: bits16)
    ensures var exp, mant := h / 0x400 % 0x20, h % 0x400;
            && Magnitude16(h) == exp * 0x400 + mant
            && Value16(Magnitude16(h)) == if exp == 0 then Scale(mant, 125) else Scale(0x400 + mant, exp + 124)
  {
    var m := Magnitude16(h);
    assert m / 0x400 == h / 0x400 % 0x20 && m % 0x400 == h % 0x400;
  }

  lemma ConvertsBack(x: bits32, h: bits16)
    requires Negative32(x) <==> Negative16(h)
    requires Magnitude32(x) == INF32 <==> Magnitude16(h) == INF16
    requires Magnitude32(x) <= INF32 <==> Magnitude16(h) <= INF16
    requires Magnitude16(h) < INF16 ==> Value32(Magnitude32(x)) == Value16(Magnitude16(h))
    ensures !IsNaN16(h) ==> FromFloat(x) == h
  {
    if Magnitude16(h) < INF16 {
      FromMagnitudeRounds(Magnitude32(x));
      RoundsExactly(Magnitude16(h), FromMagnitude(Magnitude32(x)));
    }
    FromFloatFields(x);
  }

  method ToFloat(bits: bits16) returns (out: bits32)
    ensures Negative32(out) <==> Negative16(bits)
    ensures IsNaN32(out) <==> IsNaN16(bits)
    ensures Magnitude32(out) == INF32 <==> Magnitude16(bits) == INF16
    ensures Magnitude16(bits) < INF16 ==> Value32(Magnitude32(out)) == Value16(Magnitude16(bits))
    ensures !IsNaN16(bits) ==> FromFloat(out) == bits
  {
    var negative := bits >= 0x8000;
    var exp, mant := bits / 0x400 % 0x20, bits % 0x400;
    Fields16(bits);
    if exp == 0 && mant == 0 {
      out := Pack32(negative, 0, 0);
      ZeroToZero();
    } else if exp == 0 {
      var e, m := Normalise(mant);
      out := Pack32(negative, e, (m - 0x400) * 0x2000);
      NormalisedValue(e, m);
    } else if exp == 0x1F {
      out := Pack32(negative, 0xFF, mant * 0x2000);
    } else {
      out := Pack32(negative, exp + 112, mant * 0x2000);
      NormalisedValue(exp + 112, 0x400 + mant);
    }
    ConvertsBack(out, bits);
  }
}
