/** Values that several components share. */
module Basics {

  datatype Option<+T> = None | Some(value: T)

  type Byte = x: int | 0 <= x < 256

  type Bytes = seq<Byte>

  function Pow2(n: nat): nat {
    if n == 0 then 1 else 2 * Pow2(n - 1)
  }

  function Power256(n: nat): nat {
    if n == 0 then 1 else 256 * Power256(n - 1)
  }

  lemma Pow2Byte()
    ensures Pow2(8) == 256
  {
    assert Pow2(4) == 16;
  }

  /** Bytes as a number, the most significant first. */
  function BigEndianValue(b: Bytes): nat {
    if b == [] then 0 else BigEndianValue(b[..|b| - 1]) * 256 + b[|b| - 1]
  }

  /** The last `n` bytes of a number, the most significant first. */
  function BigEndian(v: nat, n: nat): Bytes {
    if n == 0 then [] else BigEndian(v / 256, n - 1) + [v % 256]
  }

  lemma {:induction false} BigEndianWord(v: nat, n: nat)
    requires v < Power256(n)
    ensures |BigEndian(v, n)| == n && BigEndianValue(BigEndian(v, n)) == v
  {
    if n > 0 {
      BigEndianWord(v / 256, n - 1);
    }
  }
}
