/** 32-bit words as the sequence of their bits. */
module Words {
  /** Least significant bit first. */
  type Word = s: seq<bool> | |s| == 32 witness seq(32, _ => false)

  function Repeat(b: bool): Word { seq(32, _ => b) }

  const ZERO: Word := Repeat(false)
  const ONES: Word := Repeat(true)

  function And(a: Word, b: Word): Word { seq(32, i requires 0 <= i < 32 => a[i] && b[i]) }

  function Xor(a: Word, b: Word): Word { seq(32, i requires 0 <= i < 32 => a[i] != b[i]) }

  /** `w << n` */
  function Left(w: Word, n: nat): Word { seq(32, i requires 0 <= i < 32 => i >= n && w[i - n]) }

  /** A bit string, most significant bit first, as a word. */
  function FromBits(b: seq<bool>): Word { seq(32, i requires 0 <= i < 32 => i < |b| && b[|b| - 1 - i]) }

  function XorBits(a: seq<bool>, b: seq<bool>): seq<bool>
    requires |a| == |b|
  {
    seq(|a|, i requires 0 <= i < |a| => a[i] != b[i])
  }

  // ----- numbers

  /** The low `n` bits of a number, most significant bit first. */
  function BitsOf(x: nat, n: nat): (b: seq<bool>)
    ensures |b| == n
  {
    if n == 0 then [] else BitsOf(x / 2, n - 1) + [x % 2 == 1]
  }

  function Number(b: seq<bool>): nat {
    if b == [] then 0 else 2 * Number(b[..|b| - 1]) + if b[|b| - 1] then 1 else 0
  }

  function Pow2(n: nat): nat { if n == 0 then 1 else 2 * Pow2(n - 1) }

  lemma {:induction false} BitsOfNumber(b: seq<bool>)
    ensures BitsOf(Number(b), |b|) == b && Number(b) < Pow2(|b|)
  {
    if b != [] {
      BitsOfNumber(b[..|b| - 1]);
      assert b == b[..|b| - 1] + [b[|b| - 1]];
    }
  }
}
