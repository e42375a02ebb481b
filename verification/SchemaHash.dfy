/**
 The packet schema hash of SchemaHash.cs: a canonical schema string folded with 64-bit FNV-1a.
 */
module SchemaHash {
  import opened Bytes

  /** What is hashed of a type: its name and the whitespace-free C# types of its members, in serialization order. */
  datatype Signature = Signature(name: string, members: seq<string>)

  // -- The canonical string --------------------------------------------------------------

  /** The decimal digits StringBuilder.Append(int) writes. */
  function Digits(n: nat): (s: string)
    ensures s != [] && forall k | 0 <= k < |s| :: '0' <= s[k] <= '9'
  {
    if n < 10 then ['0' + n as char] else Digits(n / 10) + ['0' + (n % 10) as char]
  }

  function MemberString(i: nat, csType: string): (s: string)
  {
    Digits(i) + [':'] + csType + [';']
  }

  /** The members from index `i` on. */
  function MembersString(members: seq<string>, i: nat): (s: string)
  {
    if members == [] then [] else MemberString(i, members[0]) + MembersString(members[1..], i + 1)
  }

  function TypeString(t: Signature): (s: string)
  {
    t.name + ['('] + MembersString(t.members, 0) + [')', '\n']
  }

  function CanonicalString(types: seq<Signature>): (s: string)
  {
    if types == [] then [] else TypeString(types[0]) + CanonicalString(types[1..])
  }

  lemma Associate(a: string, b: string, c: string)
    ensures a + (b + c) == a + b + c
  {
  }

  lemma {:induction false} MembersStringSnoc(members: seq<string>, m: string, i: nat)
    ensures MembersString(members + [m], i) == MembersString(members, i) + MemberString(i + |members|, m)
  {
    var all, last := members + [m], MemberString(i + |members|, m);
    if members == [] {
      assert all[1..] == [] && MembersString(all, i) == last + [];
      assert [] + last == last;
    } else {
      MembersStringSnoc(members[1..], m, i + 1);
      assert all[1..] == members[1..] + [m] && all[0] == members[0];
      Associate(MemberString(i, members[0]), MembersString(members[1..], i + 1), last);
    }
  }

  lemma {:induction false} CanonicalStringSnoc(types: seq<Signature>, t: Signature)
    ensures CanonicalString(types + [t]) == CanonicalString(types) + TypeString(t)
  {
    if types == [] {
      assert CanonicalString([t]) == TypeString(t) + CanonicalString([]);
    } else {
      CanonicalStringSnoc(types[1..], t);
      assert (types + [t])[1..] == types[1..] + [t];
    }
  }

  lemma AppendTypeInParts(sb: string, name: string, members: string)
    ensures sb + name + ['('] + members + [')', '\n'] == sb + (name + ['('] + members + [')', '\n'])
  {
  }

  method BuildCanonicalString(types: seq<Signature>) returns (sb: string)
    ensures sb == CanonicalString(types)
  {
    sb := [];
    for k := 0 to |types|
      invariant sb == CanonicalString(types[..k])
    {
      var t := types[k];
      AppendTypeInParts(sb, t.name, MembersString(t.members, 0));
      sb := AppendMembers(sb + t.name + ['('], t.members);
      sb := sb + [')', '\n'];
      CanonicalStringSnoc(types[..k], t);
      assert types[..k + 1] == types[..k] + [t];
    }
    assert types[..|types|] == types;
  }

  lemma AppendInParts(sb: string, digits: string, m: string)
    ensures sb + digits + [':'] + m + [';'] == sb + (digits + [':'] + m + [';'])
  {
  }

  method AppendMembers(prefix: string, members: seq<string>) returns (sb: string)
    ensures sb == prefix + MembersString(members, 0)
  {
    sb := prefix;
    for i := 0 to |members|
      invariant sb == prefix + MembersString(members[..i], 0)
    {
      MembersStringSnoc(members[..i], members[i], 0);
      assert members[..i + 1] == members[..i] + [members[i]];
      AppendInParts(sb, Digits(i), members[i]);
      sb := sb + Digits(i) + [':'] + members[i] + [';'];
      assert sb == prefix + (MembersString(members[..i], 0) + MemberString(i, members[i]));
    }
    assert members[..|members|] == members;
  }

  // -- Injectivity --------------------------------------------------------------------------

  predicate Printable(t: Signature)
  {
    '(' !in t.name && forall m | m in t.members :: ';' !in m
  }

  lemma FirstDelimiter(x: string, c: char, r: string)
    requires c !in x
    ensures var z := x + [c] + r; z[|x|] == c && forall k | 0 <= k < |x| :: z[k] != c
    ensures var z := x + [c] + r; x == z[..|x|] && r == z[|x| + 1..]
  {
  }

  /** A delimiter that does not occur in `x` or `y` cuts both strings at the same place. */
  lemma Cut(x: string, y: string, c: char, r: string, s: string)
    requires c !in x && c !in y && x + [c] + r == y + [c] + s
    ensures x == y && r == s
  {
    FirstDelimiter(x, c, r);
    FirstDelimiter(y, c, s);
  }

  lemma DropCommon(p: string, r: string, s: string)
    requires p + r == p + s
    ensures r == s
  {
    assert r == (p + r)[|p|..] && s == (p + s)[|p|..];
  }

  lemma MembersHead(ms: seq<string>, i: nat, r: string)
    ensures var x := MembersString(ms, i) + [')'] + r; x[0] == ')' <==> ms == []
  {
    if ms != [] {
      assert MembersString(ms, i)[0] == MemberString(i, ms[0])[0] == Digits(i)[0];
    }
  }

  /** The member list can be read back from what follows the type name. */
  lemma {:induction false} MembersInjective(ms: seq<string>, ns: seq<string>, i: nat, r: string, s: string)
    requires forall m | m in ms :: ';' !in m
    requires forall n | n in ns :: ';' !in n
    requires MembersString(ms, i) + [')'] + r == MembersString(ns, i) + [')'] + s
    ensures ms == ns && r == s
  {
    MembersHead(ms, i, r);
    MembersHead(ns, i, s);
    if ms == [] {
      assert [] + [')'] + r == [')'] + r && [] + [')'] + s == [')'] + s;
      DropCommon([')'], r, s);
    } else {
      var p := Digits(i) + [':'];
      var ms', ns' := MembersString(ms[1..], i + 1) + [')'] + r, MembersString(ns[1..], i + 1) + [')'] + s;
      MembersSplit(ms, i, r);
      MembersSplit(ns, i, s);
      DropCommon(p, ms[0] + [';'] + ms', ns[0] + [';'] + ns');
      Cut(ms[0], ns[0], ';', ms', ns');
      MembersInjective(ms[1..], ns[1..], i + 1, r, s);
    }
  }

  lemma MembersSplit(ms: seq<string>, i: nat, r: string)
    requires ms != []
    ensures MembersString(ms, i) + [')'] + r ==
            Digits(i) + [':'] + (ms[0] + [';'] + (MembersString(ms[1..], i + 1) + [')'] + r))
  {
  }

  lemma CanonicalSplit(ts: seq<Signature>)
    requires ts != []
    ensures CanonicalString(ts) ==
            ts[0].name + ['('] + (MembersString(ts[0].members, 0) + [')'] + (['\n'] + CanonicalString(ts[1..])))
  {
    assert [')', '\n'] == [')'] + ['\n'];
  }

  /** Different schemas have different canonical strings. */
  lemma {:induction false} CanonicalInjective(a: seq<Signature>, b: seq<Signature>)
    requires forall t | t in a :: Printable(t)
    requires forall t | t in b :: Printable(t)
    requires CanonicalString(a) == CanonicalString(b)
    ensures a == b
  {
    if a == [] || b == [] {
      assert a != [] ==> |CanonicalString(a)| > 0;
      assert b != [] ==> |CanonicalString(b)| > 0;
    } else {
      assert Printable(a[0]) && Printable(b[0]);
      var ra, rb := ['\n'] + CanonicalString(a[1..]), ['\n'] + CanonicalString(b[1..]);
      var ma, mb := MembersString(a[0].members, 0) + [')'] + ra, MembersString(b[0].members, 0) + [')'] + rb;
      CanonicalSplit(a);
      CanonicalSplit(b);
      Cut(a[0].name, b[0].name, '(', ma, mb);
      MembersInjective(a[0].members, b[0].members, 0, ra, rb);
      DropCommon(['\n'], CanonicalString(a[1..]), CanonicalString(b[1..]));
      CanonicalInjective(a[1..], b[1..]);
    }
  }

  // -- FNV-1a ----------------------------------------------------------------------------------

  const FNV_OFFSET_BASIS := 0xcbf2_9ce4_8422_2325

  const FNV_PRIME := 0x100_0000_01b3

  const TWO_TO_THE_64 := 0x1_0000_0000_0000_0000

  /** The inverse of the prime modulo 2^64. */
  const FNV_INVERSE := 0xce96_5057_aff6_957b

  type ulong = h: int | 0 <= h < TWO_TO_THE_64

  function Bound(bits: nat): (n: nat)
  {
    if bits == 0 then 1 else 2 * Bound(bits - 1)
  }

  /** Bitwise exclusive or of the `bits` low-order bits. */
  function Xor(a: nat, b: nat, bits: nat): (x: nat)
    ensures x < Bound(bits)
  {
    if bits == 0 then 0 else (a + b) % 2 + 2 * Xor(a / 2, b / 2, bits - 1)
  }

  lemma ByteBound()
    ensures Bound(8) == 0x100
  {
    assert Bound(2) == 4;
    assert Bound(4) == 4 * Bound(2);
    assert Bound(6) == 4 * Bound(4);
    assert Bound(8) == 4 * Bound(6);
  }

  /** `hash ^= b`: only the low byte changes. */
  function XorByte(hash: ulong, b: byte): (h: ulong)
    ensures h / 0x100 == hash / 0x100 && h % 0x100 == Xor(hash % 0x100, b, 8)
  {
    var low := Xor(hash % 0x100, b, 8);
    assert low < 0x100 by { ByteBound(); }
    hash / 0x100 * 0x100 + low
  }

  lemma SameParity(a: nat, b: nat, c: nat, x: nat, y: nat)
    requires (a + b) % 2 + 2 * x == (a + c) % 2 + 2 * y
    ensures x == y && b % 2 == c % 2
  {
    assert x == y;
    assert a + b - (a + b) / 2 * 2 == a + c - (a + c) / 2 * 2;
  }

  lemma {:induction false} XorInjective(a: nat, b: nat, c: nat, bits: nat)
    requires Xor(a, b, bits) == Xor(a, c, bits) && b < Bound(bits) && c < Bound(bits)
    ensures b == c
  {
    if bits > 0 {
      var x, y := Xor(a / 2, b / 2, bits - 1), Xor(a / 2, c / 2, bits - 1);
      SameParity(a, b, c, x, y);
      XorInjective(a / 2, b / 2, c / 2, bits - 1);
    }
  }

  lemma {:induction false} XorSymmetric(a: nat, b: nat, bits: nat)
    ensures Xor(a, b, bits) == Xor(b, a, bits)
  {
    if bits > 0 {
      XorSymmetric(a / 2, b / 2, bits - 1);
    }
  }

  function FnvStep(hash: ulong, b: byte): (h: ulong)
  {
    XorByte(hash, b) * FNV_PRIME % TWO_TO_THE_64
  }

  function Fnv(hash: ulong, text: bytes): (h: ulong)
    decreases |text|
  {
    if text == [] then hash else Fnv(FnvStep(hash, text[0]), text[1..])
  }

  method Fnv1a64(text: bytes) returns (hash: ulong)
    ensures hash == Fnv(FNV_OFFSET_BASIS, text)
  {
    hash := FNV_OFFSET_BASIS;
    for i := 0 to |text|
      invariant Fnv(hash, text[i..]) == Fnv(FNV_OFFSET_BASIS, text)
    {
      assert text[i..][0] == text[i] && text[i..][1..] == text[i + 1..];
      hash := FnvStep(hash, text[i]);
    }
  }

  lemma InverseProduct(x: int, q: int, r: int)
    requires x * FNV_PRIME == q * TWO_TO_THE_64 + r
    ensures r * FNV_INVERSE == x + TWO_TO_THE_64 * (0xce_9650_590f * x - FNV_INVERSE * q)
  {
  }

  lemma AddMultiple(x: ulong, t: int)
    ensures (x + TWO_TO_THE_64 * t) % TWO_TO_THE_64 == x
  {
  }

  /** The prime is odd, so multiplying by it modulo 2^64 loses nothing. */
  lemma PrimeInvertible(x: ulong)
    ensures x * FNV_PRIME % TWO_TO_THE_64 * FNV_INVERSE % TWO_TO_THE_64 == x
  {
    var q, r := x * FNV_PRIME / TWO_TO_THE_64, x * FNV_PRIME % TWO_TO_THE_64;
    InverseProduct(x, q, r);
    AddMultiple(x, 0xce_9650_590f * x - FNV_INVERSE * q);
  }

  function Bit(n: nat, k: nat): (b: nat) { if k == 0 then n % 2 else Bit(n / 2, k - 1) }

  lemma {:induction false} XorBit(a: nat, b: nat, bits: nat, k: nat)
    requires k < bits
    ensures Bit(Xor(a, b, bits), k) == (Bit(a, k) + Bit(b, k)) % 2
  {
    if k > 0 {
      XorBit(a / 2, b / 2, bits - 1, k - 1);
    }
  }

  /** `x` is the state with the bits of `b` flipped in its low byte. */
  predicate IsFlipped(hash: ulong, b: byte, x: nat)
  {
    x / 0x100 == hash / 0x100 && forall k: nat | k < 8 :: Bit(x % 0x100, k) == (Bit(hash % 0x100, k) + Bit(b, k)) % 2
  }

  lemma XorByteFlips(hash: ulong, b: byte)
    ensures IsFlipped(hash, b, XorByte(hash, b))
  {
    forall k: nat | k < 8 ensures Bit(Xor(hash % 0x100, b, 8), k) == (Bit(hash % 0x100, k) + Bit(b, k)) % 2 {
      XorBit(hash % 0x100, b, 8, k);
    }
  }

  /** Undoing the multiplication gives the state with the byte's bits flipped: FNV-1a, not FNV-1. */
  lemma XorThenMultiply(hash: ulong, b: byte)
    ensures IsFlipped(hash, b, FnvStep(hash, b) * 0xce96_5057_aff6_957b % 0x1_0000_0000_0000_0000)
  {
    PrimeInvertible(XorByte(hash, b));
    XorByteFlips(hash, b);
  }

  /** The published hashes of the empty text and of "a". */
  lemma KnownHashes()
    ensures Fnv(FNV_OFFSET_BASIS, []) == 0xcbf2_9ce4_8422_2325
    ensures Fnv(FNV_OFFSET_BASIS, [0x61]) == 0xaf63_dc4c_8601_ec8c
  {
    XorOfExample();
    ExampleArithmetic();
    LowByte(FNV_OFFSET_BASIS, 0x61, 0x44);
    StepIs(FNV_OFFSET_BASIS, 0x61, 0xcbf2_9ce4_8422_2344, 0xaf63_dc4c_8601_ec8c);
    OneByteText(FNV_OFFSET_BASIS, 0x61);
  }

  lemma ExampleArithmetic()
    ensures 0xcbf2_9ce4_8422_2325 % 0x100 == 0x25
    ensures 0xcbf2_9ce4_8422_2325 / 0x100 * 0x100 + 0x44 == 0xcbf2_9ce4_8422_2344
    ensures 0xcbf2_9ce4_8422_2344 * 0x100_0000_01b3 % 0x1_0000_0000_0000_0000 == 0xaf63_dc4c_8601_ec8c
  {
  }

  lemma OneByteText(h: ulong, b: byte)
    ensures Fnv(h, [b]) == FnvStep(h, b)
  {
    assert [b][1..] == [] && Fnv(FnvStep(h, b), []) == FnvStep(h, b);
  }

  lemma LowByte(h: ulong, b: byte, low: nat)
    requires Xor(h % 0x100, b, 8) == low
    ensures XorByte(h, b) == h / 0x100 * 0x100 + low
  {
  }

  lemma StepIs(h: ulong, b: byte, x: ulong, r: nat)
    requires XorByte(h, b) == x && x * FNV_PRIME % TWO_TO_THE_64 == r
    ensures FnvStep(h, b) == r
  {
  }

  lemma XorOfExample()
    ensures Xor(0x25, 0x61, 8) == 0x44
  {
    assert Xor(0, 0, 1) == 0;
    assert Xor(0, 1, 2) == 1;
    assert Xor(1, 3, 3) == 2;
    assert Xor(2, 6, 4) == 4;
    assert Xor(4, 12, 5) == 8;
    assert Xor(9, 24, 6) == 17;
    assert Xor(18, 48, 7) == 34;
  }

  /** The canonical string of an example. */
  lemma CanonicalExample()
    ensures CanonicalString([Signature("Login", ["string", "int[]"]), Signature("Ping", [])]) ==
            "Login(0:string;1:int[];)\nPing()\n"
  {
    var ms := ["string", "int[]"];
    assert ms[1..] == ["int[]"] && ms[1..][1..] == [];
    assert Digits(0) == "0" && Digits(1) == "1";
    assert MemberString(0, "string") == "0:string;" && MemberString(1, "int[]") == "1:int[];";
    assert MembersString(["int[]"], 1) == "1:int[];" + MembersString([], 2);
    assert MembersString(ms, 0) == "0:string;" + "1:int[];";
    assert TypeString(Signature("Login", ms)) == "Login(0:string;1:int[];)\n";
    assert TypeString(Signature("Ping", [])) == "Ping()\n";
    var ts := [Signature("Login", ms), Signature("Ping", [])];
    assert ts[1..] == [Signature("Ping", [])] && ts[1..][1..] == [];
    assert CanonicalString(ts[1..]) == "Ping()\n" + CanonicalString([]);
  }

  lemma FnvStepInjective(g: ulong, h: ulong, b: byte, c: byte)
    requires FnvStep(g, b) == FnvStep(h, c)
    ensures b == c ==> g == h
    ensures g == h ==> b == c
  {
    PrimeInvertible(XorByte(g, b));
    PrimeInvertible(XorByte(h, c));
    ByteBound();
    if g == h {
      XorInjective(g % 0x100, b, c, 8);
    }
    if b == c {
      XorSymmetric(g % 0x100, b, 8);
      XorSymmetric(h % 0x100, b, 8);
      XorInjective(b, g % 0x100, h % 0x100, 8);
    }
  }

  /** Folding the same text keeps different states different. */
  lemma {:induction false} FnvInjective(g: ulong, h: ulong, text: bytes)
    requires g != h
    ensures Fnv(g, text) != Fnv(h, text)
    decreases |text|
  {
    if text != [] {
      if FnvStep(g, text[0]) == FnvStep(h, text[0]) {
        FnvStepInjective(g, h, text[0], text[0]);
      }
      FnvInjective(FnvStep(g, text[0]), FnvStep(h, text[0]), text[1..]);
    }
  }

  /** Changing one byte of a canonical string always changes the hash. */
  lemma {:induction false} OneByteChangesHash(hash: ulong, text: bytes, i: nat, b: byte)
    requires i < |text| && text[i] != b
    ensures Fnv(hash, text[i := b]) != Fnv(hash, text)
    decreases |text|
  {
    var changed := text[i := b];
    if i == 0 {
      assert changed[1..] == text[1..];
      if FnvStep(hash, text[0]) == FnvStep(hash, b) {
        FnvStepInjective(hash, hash, text[0], b);
      }
      FnvInjective(FnvStep(hash, b), FnvStep(hash, text[0]), text[1..]);
    } else {
      OneByteChangesHash(FnvStep(hash, text[0]), text[1..], i - 1, b);
      assert changed[1..] == text[1..][i - 1 := b];
    }
  }
}
