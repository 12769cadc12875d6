/** Octets and network byte order, as every wire format of the repository uses them. */
module Bytes {
  type byte = x: int | 0 <= x < 256
  type u16 = x: int | 0 <= x < 0x1_0000
  type u32 = x: int | 0 <= x < 0x1_0000_0000

  function Be16(x: u16): seq<byte> { [x / 256, x % 256] }

  function Be32(x: u32): seq<byte> { Be16(x / 0x1_0000) + Be16(x % 0x1_0000) }

  function FromBe16(s: seq<byte>): u16
    requires |s| == 2
  {
    var hi: int := s[0];
    hi * 256 + s[1]
  }

  function FromBe32(s: seq<byte>): u32
    requires |s| == 4
  {
    FromBe16(s[..2]) * 0x1_0000 + FromBe16(s[2..])
  }

  lemma BeRoundTrip(x: u32, y: u16)
    ensures FromBe32(Be32(x)) == x && FromBe16(Be16(y)) == y
  {
    assert Be32(x)[..2] == Be16(x / 0x1_0000) && Be32(x)[2..] == Be16(x % 0x1_0000);
  }
}

/** Facts about concatenation that the verifier has to be told. */
module Seqs {
  lemma Assoc<T>(a: seq<T>, b: seq<T>, c: seq<T>)
    ensures (a + b) + c == a + (b + c)
  {
  }

  lemma Unit<T>(a: seq<T>)
    ensures a + [] == a && [] + a == a
  {
  }

  lemma Around<T>(a: seq<T>, i: nat)
    requires i < |a|
    ensures a[..i] + [a[i]] + a[i + 1..] == a
  {
  }

  lemma Snoc<T>(a: seq<T>, b: seq<T>)
    requires b != []
    ensures (a + b[..|b| - 1]) + [b[|b| - 1]] == a + b
  {
  }
}
