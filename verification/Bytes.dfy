/**
 Bytes, little-endian integers and byte-string slices shared by the other modules.
 Shifts and masks of the C++ code are written as division and remainder.
 */
module Bytes {

  type byte = b: int | 0 <= b < 256

  type bytes = seq<byte>

  function Pow256(n: nat): (p: nat)
    ensures p >= 1
  {
    if n == 0 then 1 else 256 * Pow256(n - 1)
  }

  /** The `width` low-order bytes of `n`, least significant first (WriteRaw). */
  function LE(n: nat, width: nat): (bs: bytes)
    ensures |bs| == width
  {
    if width == 0 then [] else [n % 256] + LE(n / 256, width - 1)
  }

  /** The integer whose little-endian bytes are `bs` (ReadRaw). */
  function FromLE(bs: bytes): (n: nat)
    ensures n < Pow256(|bs|)
  {
    if bs == [] then 0 else bs[0] + 256 * FromLE(bs[1..])
  }

  lemma {:induction false} FromLEOfLE(n: nat, width: nat)
    requires n < Pow256(width)
    ensures FromLE(LE(n, width)) == n
  {
    if width > 0 {
      FromLEOfLE(n / 256, width - 1);
      assert LE(n, width)[1..] == LE(n / 256, width - 1);
    }
  }

  /** Two's complement view of a 32-bit pattern. */
  function ToInt32(n: nat): int
    requires n < 0x1_0000_0000
  {
    if n < 0x8000_0000 then n else n - 0x1_0000_0000
  }

  /** The 32-bit pattern of an int32_t (wraps like a narrowing C++ cast). */
  function FromInt32(i: int): (n: nat)
    ensures n < 0x1_0000_0000
    ensures -0x8000_0000 <= i < 0x8000_0000 ==> ToInt32(n) == i
  {
    i % 0x1_0000_0000
  }

  lemma Pow256Small()
    ensures Pow256(1) == 0x100 && Pow256(2) == 0x1_0000 && Pow256(4) == 0x1_0000_0000
  {
    assert Pow256(2) == 256 * Pow256(1);
    assert Pow256(3) == 256 * Pow256(2);
  }

  /** `bs` occurs in `data` at `pos`. */
  predicate HasAt(data: bytes, pos: nat, bs: bytes)
  {
    pos + |bs| <= |data| && data[pos..pos + |bs|] == bs
  }

  lemma HasAtSplit(data: bytes, pos: nat, a: bytes, b: bytes)
    ensures HasAt(data, pos, a + b) <==> HasAt(data, pos, a) && HasAt(data, pos + |a|, b)
  {
    if pos + |a| + |b| <= |data| {
      var d := data[pos..pos + |a + b|];
      assert d[..|a|] == data[pos..pos + |a|];
      assert d[|a|..] == data[pos + |a|..pos + |a| + |b|];
      assert d == d[..|a|] + d[|a|..];
      assert (a + b)[..|a|] == a && (a + b)[|a|..] == b;
    }
  }
}
