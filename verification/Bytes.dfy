/** Bytes, and the little-endian integers that the file formats write straight from memory. */
module Bytes {
  type byte = x: int | 0 <= x < 256

  const UINT32: nat := 0x1_0000_0000

  /** The sum of two uint32_t. */
  function Sum32(a: nat, b: nat): nat {
    if a + b >= UINT32 then a + b - UINT32 else a + b
  }

  lemma Sum32Is(a: nat, b: nat)
    requires a < UINT32 && b < UINT32
    ensures Sum32(a, b) == (a + b) % UINT32
  {
  }

  function Pow256(w: nat): (p: nat)
    ensures p > 0
  {
    if w == 0 then 1 else 256 * Pow256(w - 1)
  }

  /** The `w` low bytes of `n`, lowest first. */
  function LE(n: nat, w: nat): (bs: seq<byte>)
    ensures |bs| == w
  {
    if w == 0 then [] else [n % 256] + LE(n / 256, w - 1)
  }

  function FromLE(bs: seq<byte>): nat {
    if bs == [] then 0 else bs[0] + 256 * FromLE(bs[1..])
  }

  /** Writing and reading back keeps a number that fits. */
  lemma {:induction false} FromLEOfLE(n: nat, w: nat)
    requires n < Pow256(w)
    ensures FromLE(LE(n, w)) == n
  {
    if w > 0 {
      assert LE(n, w)[1..] == LE(n / 256, w - 1);
      FromLEOfLE(n / 256, w - 1);
    }
  }

  /** `n` without its `i` lowest bytes. */
  function Shifted(n: nat, i: nat): nat {
    if i == 0 then n else Shifted(n, i - 1) / 256
  }

  lemma {:induction false} ShiftedStep(n: nat, i: nat)
    ensures Shifted(n / 256, i) == Shifted(n, i + 1)
  {
    if i > 0 {
      ShiftedStep(n, i - 1);
    }
  }

  /** The lowest byte comes first. */
  lemma {:induction false} LEAt(n: nat, w: nat, i: nat)
    requires i < w
    ensures LE(n, w)[i] == Shifted(n, i) % 256
  {
    if i > 0 {
      LEAt(n / 256, w - 1, i - 1);
      ShiftedStep(n, i - 1);
    }
  }

  /** Every string of bytes is the little-endian form of the number it reads as. */
  lemma {:induction false} LEOfFromLE(bs: seq<byte>)
    ensures FromLE(bs) < Pow256(|bs|) && LE(FromLE(bs), |bs|) == bs
  {
    if bs != [] {
      LEOfFromLE(bs[1..]);
      LowByte(bs[0], FromLE(bs[1..]));
      assert bs == [bs[0]] + bs[1..];
    }
  }

  lemma LowByte(b: byte, n: nat)
    ensures (b + 256 * n) % 256 == b && (b + 256 * n) / 256 == n
  {
  }

  lemma Widths()
    ensures Pow256(2) == 0x1_0000 && Pow256(4) == 0x1_0000_0000 && Pow256(8) == 0x1_0000_0000_0000_0000
  {
    assert Pow256(1) == 256;
    assert Pow256(3) == 256 * Pow256(2);
    assert Pow256(4) == 256 * Pow256(3);
    assert Pow256(6) == 256 * Pow256(5) == 0x1_0000 * Pow256(4);
    assert Pow256(8) == 256 * Pow256(7) == 0x1_0000 * Pow256(6);
  }
}
