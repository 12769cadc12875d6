/**
 `csum.c`: the Internet checksum in a 32-bit accumulator that is folded once, and its incremental
 update, against the one's-complement sum of RFC 1071 and equation 3 of section 3 of RFC 1624.
 */
module Checksum {
  import opened Bytes

  // ----- reference

  /** Addition with end-around carry. */
  function OnesAdd(a: u16, b: u16): u16 { if a + b > 0xffff then a + b - 0xffff else a + b }

  function OnesSum(w: seq<u16>): u16 { if w == [] then 0 else OnesAdd(OnesSum(w[..|w| - 1]), w[|w| - 1]) }

  /** The checksum of RFC 1071. */
  function Reference(w: seq<u16>): u16 { 0xffff - OnesSum(w) }

  /** Two bytes as a 16-bit word of a big-endian or a little-endian machine. */
  function Word(a: byte, b: byte, big: bool): u16 {
    if big then 256 * a as int + b as int else a as int + 256 * b as int
  }

  /** The 16-bit words of a packet; an odd byte is padded with zero. */
  function WordsOf(d: seq<byte>, big: bool): seq<u16>
    decreases |d|
  {
    if d == [] then []
    else if |d| == 1 then [Word(d[0], 0, big)]
    else [Word(d[0], d[1], big)] + WordsOf(d[2..], big)
  }

  // ----- the arithmetic of `csum.c`

  /** `csum_add16` */
  function Add16(partial: u32, x: u16): u32 { (partial + x) % 0x1_0000_0000 }

  /** `csum_finish`: the fold before complementing, which may have carried */
  function Folded(partial: u32): nat { partial % 0x1_0000 + partial / 0x1_0000 }

  function Finish(partial: u32): u16 { 0xffff - Folded(partial) % 0x1_0000 }

  /** The words that `csum_continue` adds: an odd byte counts as a number of its own. */
  function Added(d: seq<byte>, big: bool): seq<u16>
    decreases |d|
  {
    if d == [] then []
    else if |d| == 1 then [d[0] as int]
    else [Word(d[0], d[1], big)] + Added(d[2..], big)
  }

  function Accumulate(partial: u32, w: seq<u16>): u32 {
    if w == [] then partial else Add16(Accumulate(partial, w[..|w| - 1]), w[|w| - 1])
  }

  /** The three-term sum of `recalc_csum16`. */
  function ThreeTerms(oldCsum: u16, old16: u16, new16: u16): nat { (0xffff - oldCsum) + (0xffff - old16) + new16 }

  /** `recalc_csum16` */
  function Recalc16(oldCsum: u16, old16: u16, new16: u16): u16 {
    var sum := ThreeTerms(oldCsum, old16, new16);
    0xffff - (sum + sum / 0x1_0000) % 0x1_0000
  }

  function Join(lo: u16, hi: u16): u32 { 0x1_0000 * (hi as int) + lo }

  /** `recalc_csum32` */
  function Recalc32(oldCsum: u16, old32: u32, new32: u32): u16 {
    Recalc16(Recalc16(oldCsum, old32 % 0x1_0000, new32 % 0x1_0000), old32 / 0x1_0000, new32 / 0x1_0000)
  }

  // ----- sums

  function Sum(w: seq<u16>): nat { if w == [] then 0 else Sum(w[..|w| - 1]) + w[|w| - 1] }

  /** End-around carry keeps the class modulo 65535, and makes no zero. */
  lemma OnesAddIs(a: u16, s: nat, x: u16)
    requires a % 0xffff == s % 0xffff && (a == 0 <==> s == 0)
    ensures OnesAdd(a, x) % 0xffff == (s + x) % 0xffff && (OnesAdd(a, x) == 0 <==> s + x == 0)
  {
    ModShift(a, s, x);
    ModAdd(a + x - 0xffff, 1);
  }

  /** The two representations of zero apart, a one's-complement sum is a sum modulo 65535. */
  lemma {:induction false} OnesSumIsSum(w: seq<u16>)
    ensures OnesSum(w) % 0xffff == Sum(w) % 0xffff
    ensures OnesSum(w) == 0 <==> Sum(w) == 0
  {
    if w != [] {
      var n := |w| - 1;
      OnesSumIsSum(w[..n]);
      OnesAddIs(OnesSum(w[..n]), Sum(w[..n]), w[n]);
    }
  }

  /** The representative of a sum that one's-complement addition arrives at. */
  lemma OnesSumIs(w: seq<u16>, x: u16)
    ensures x == OnesSum(w) <==> x % 0xffff == Sum(w) % 0xffff && (x == 0 <==> Sum(w) == 0)
  {
    OnesSumIsSum(w);
  }

  /** What a checksum is for: with it the words add up to all ones, whatever they are. */
  lemma ReferenceVerifies(w: seq<u16>)
    ensures OnesSum(w + [Reference(w)]) == 0xffff
    ensures forall x: u16 :: x != 0 && OnesSum(w + [x]) == 0xffff ==> x % 0xffff == Reference(w) % 0xffff
  {
    forall x: u16 ensures OnesSum(w + [x]) == OnesAdd(OnesSum(w), x) {
      assert (w + [x])[..|w|] == w;
    }
  }

  lemma {:induction false} SumUpdate(w: seq<u16>, k: nat, x: u16)
    requires k < |w|
    ensures Sum(w[k := x]) == Sum(w) - w[k] + x
  {
    var n := |w| - 1;
    if k < n {
      assert w[k := x][..n] == w[..n][k := x];
      SumUpdate(w[..n], k, x);
    } else {
      assert w[k := x][..n] == w[..n];
    }
  }

  predicate AllZero(w: seq<u16>) { forall i :: 0 <= i < |w| ==> w[i] == 0 }

  lemma {:induction false} SumZero(w: seq<u16>)
    ensures Sum(w) == 0 <==> AllZero(w)
  {
    if w != [] {
      SumZero(w[..|w| - 1]);
    }
  }

  lemma {:induction false} SumBound(w: seq<u16>)
    ensures Sum(w) <= 0xffff * |w|
  {
    if w != [] {
      SumBound(w[..|w| - 1]);
    }
  }

  lemma ModWhole(a: int, k: int)
    ensures (a + 0x1_0000_0000 * k) % 0x1_0000_0000 == a % 0x1_0000_0000
  {
  }

  /** Wrapping at every addition is wrapping once at the end. */
  lemma WrapAdd(s: nat, x: nat)
    ensures (s % 0x1_0000_0000 + x) % 0x1_0000_0000 == (s + x) % 0x1_0000_0000
  {
    ModWhole(s % 0x1_0000_0000 + x, s / 0x1_0000_0000);
  }

  /** The accumulator is the sum, less what left it at the top. */
  lemma {:induction false} AccumulateIs(partial: u32, w: seq<u16>)
    ensures Accumulate(partial, w) == (partial + Sum(w)) % 0x1_0000_0000
  {
    if w != [] {
      var n := |w| - 1;
      AccumulateIs(partial, w[..n]);
      WrapAdd(partial + Sum(w[..n]), w[n]);
    }
  }

  lemma {:induction false} AddedCount(d: seq<byte>, big: bool)
    ensures |Added(d, big)| == (|d| + 1) / 2
    decreases |d|
  {
    if |d| > 1 {
      AddedCount(d[2..], big);
    }
  }

  /** By how much a big-endian machine gets an odd byte wrong. */
  function OddLoss(d: seq<byte>, big: bool): nat { if big && |d| % 2 == 1 then 255 * d[|d| - 1] as int else 0 }

  lemma {:induction false} AddedSum(d: seq<byte>, big: bool)
    ensures Sum(WordsOf(d, big)) == Sum(Added(d, big)) + OddLoss(d, big)
    decreases |d|
  {
    if |d| == 1 {
      SumOne(Word(d[0], 0, big));
      SumOne(d[0] as int);
    } else if |d| > 1 {
      AddedSum(d[2..], big);
      SumCons(Word(d[0], d[1], big), WordsOf(d[2..], big));
      SumCons(Word(d[0], d[1], big), Added(d[2..], big));
    }
  }

  lemma SumOne(x: u16)
    ensures Sum([x]) == x
  {
    SumCons(x, []);
    assert [x] + [] == [x];
  }

  lemma {:induction false} SumCons(x: u16, w: seq<u16>)
    ensures Sum([x] + w) == x + Sum(w)
  {
    var v := [x] + w;
    if w == [] {
      assert v[..0] == [];
    } else {
      assert v[..|v| - 1] == [x] + w[..|w| - 1];
      SumCons(x, w[..|w| - 1]);
    }
  }

  // ----- the checksum

  lemma FoldedMod(p: u32)
    ensures Folded(p) % 0xffff == p % 0xffff
    ensures Folded(p) <= 0x1_fffe
    ensures Folded(p) == 0 <==> p == 0
  {
    assert p == 0xffff * (p / 0x1_0000) + Folded(p);
    ModAdd(Folded(p), p / 0x1_0000);
  }

  lemma ModAdd(a: int, k: int)
    ensures (a + 0xffff * k) % 0xffff == a % 0xffff
  {
  }

  /** Cutting a number of at most 17 bits to 16 takes one away modulo 65535 if anything is cut off. */
  lemma CutOff(f: nat)
    requires f <= 0x1_fffe
    ensures (f % 0x1_0000 + f / 0x1_0000) % 0xffff == f % 0xffff
  {
    assert f == f % 0x1_0000 + f / 0x1_0000 + 0xffff * (f / 0x1_0000);
    ModAdd(f % 0x1_0000 + f / 0x1_0000, f / 0x1_0000);
  }

  /** The carries that are lost: those out of the 32-bit accumulator and that of its single fold. */
  function Lost(w: seq<u16>): nat { Sum(w) / 0x1_0000_0000 + Folded(Accumulate(0, w)) / 0x1_0000 }

  /** What the fold leaves, with the lost carries, is the sum. */
  lemma FoldLoses(w: seq<u16>)
    ensures (Folded(Accumulate(0, w)) % 0x1_0000 + Lost(w)) % 0xffff == Sum(w) % 0xffff
  {
    AccumulateIs(0, w);
    FoldWraps(Accumulate(0, w), Sum(w) / 0x1_0000_0000);
    assert Sum(w) == Accumulate(0, w) + 0x1_0000_0000 * (Sum(w) / 0x1_0000_0000);
  }

  /** Modulo 65535 each wrap of the accumulator is worth one. */
  lemma WrapsCount(p: nat, k: nat)
    ensures (p + 0x1_0000_0000 * k) % 0xffff == (p + k) % 0xffff
  {
    var m := 0x1_0001 * k;
    assert p + 0x1_0000_0000 * k == (p + k) + 0xffff * m;
    ModAdd(p + k, m);
  }

  lemma FoldWraps(p: u32, k: nat)
    ensures (Folded(p) % 0x1_0000 + (k + Folded(p) / 0x1_0000)) % 0xffff == (p + 0x1_0000_0000 * k) % 0xffff
  {
    var f := Folded(p);
    FoldedMod(p);
    CutOff(f);
    ModShift(f % 0x1_0000 + f / 0x1_0000, p, k);
    WrapsCount(p, k);
  }

  /** The folded sum stands for `s`, the two representations of zero apart. */
  predicate StandsFor(w: seq<u16>, s: nat) { Folded(Accumulate(0, w)) % 0x1_0000 == 0 <==> s == 0 }

  /**
   Summing the words `w` gives the checksum of the words `v`, whose sum is greater by `more`, if and only if
   what is lost altogether is a multiple of 65535 (and zero is not mistaken for 65535).
   */
  lemma FoldIff(w: seq<u16>, v: seq<u16>, more: nat)
    requires Sum(v) == Sum(w) + more
    ensures Finish(Accumulate(0, w)) == Reference(v) <==> (Lost(w) + more) % 0xffff == 0 && StandsFor(w, Sum(v))
  {
    var x: u16 := Folded(Accumulate(0, w)) % 0x1_0000;
    assert (x + Lost(w)) % 0xffff == Sum(w) % 0xffff by {
      FoldLoses(w);
    }
    LossIff(x, v, Lost(w), Sum(w), more);
    Complements(w, v, x);
  }

  lemma Complements(w: seq<u16>, v: seq<u16>, x: u16)
    requires x == Folded(Accumulate(0, w)) % 0x1_0000
    ensures Finish(Accumulate(0, w)) == Reference(v) <==> x == OnesSum(v)
    ensures StandsFor(w, Sum(v)) <==> (x == 0 <==> Sum(v) == 0)
  {
  }

  lemma LossIff(x: u16, v: seq<u16>, lost: nat, s: nat, more: nat)
    requires (x + lost) % 0xffff == s % 0xffff && Sum(v) == s + more
    ensures x == OnesSum(v) <==> (lost + more) % 0xffff == 0 && (x == 0 <==> Sum(v) == 0)
  {
    OnesSumIs(v, x);
    ClassIff(x, lost, s, more);
  }

  lemma ClassIff(x: nat, lost: nat, s: nat, more: nat)
    requires (x + lost) % 0xffff == s % 0xffff
    ensures x % 0xffff == (s + more) % 0xffff <==> (lost + more) % 0xffff == 0
  {
    ModShift(x + lost, s, more);
    ModShift(lost + more, 0, x);
  }

  /** The checksum of any packet is right if and only if what its sum loses is a multiple of 65535. */
  lemma CsumExactIff(d: seq<byte>, big: bool)
    ensures Finish(Accumulate(0, Added(d, big))) == Reference(WordsOf(d, big))
       <==> (Lost(Added(d, big)) + OddLoss(d, big)) % 0xffff == 0 && StandsFor(Added(d, big), Sum(WordsOf(d, big)))
  {
    AddedSum(d, big);
    FoldIff(Added(d, big), WordsOf(d, big), OddLoss(d, big));
  }

  /** While the accumulator does not wrap, only a carry of the single fold is lost. */
  lemma SingleFoldIff(w: seq<u16>)
    requires Sum(w) < 0x1_0000_0000
    ensures Finish(Accumulate(0, w)) == Reference(w) <==> Folded(Accumulate(0, w)) <= 0xffff
  {
    FoldIff(w, w, 0);
    FoldSmall(w);
  }

  lemma FoldSmall(w: seq<u16>)
    requires Sum(w) < 0x1_0000_0000
    ensures Lost(w) == if Folded(Accumulate(0, w)) <= 0xffff then 0 else 1
    ensures Lost(w) == 0 ==> StandsFor(w, Sum(w))
  {
    AccumulateIs(0, w);
    SmallSum(Sum(w));
    FoldedMod(Sum(w));
    Carry(Folded(Sum(w)));
  }

  lemma SmallSum(s: nat)
    requires s < 0x1_0000_0000
    ensures s / 0x1_0000_0000 == 0 && s % 0x1_0000_0000 == s
  {
  }

  lemma Carry(f: nat)
    requires f <= 0x1_fffe
    ensures f / 0x1_0000 == if f <= 0xffff then 0 else 1
    ensures f <= 0xffff ==> f % 0x1_0000 == f
  {
  }

  /** Right for a packet of up to 131072 bytes, that is: no carry, and no odd byte on a big-endian machine but zero. */
  predicate CsumRight(d: seq<byte>, big: bool) {
    Folded(Accumulate(0, Added(d, big))) <= 0xffff && OddLoss(d, big) == 0
  }

  lemma CsumShortIff(d: seq<byte>, big: bool)
    requires |d| <= 0x2_0000
    ensures Finish(Accumulate(0, Added(d, big))) == Reference(WordsOf(d, big)) <==> CsumRight(d, big)
  {
    ShortSum(d, big);
    FoldSmall(Added(d, big));
    AddedSum(d, big);
    CsumExactIff(d, big);
    SmallClass(Lost(Added(d, big)) + OddLoss(d, big));
  }

  lemma ShortSum(d: seq<byte>, big: bool)
    requires |d| <= 0x2_0000
    ensures Sum(Added(d, big)) < 0x1_0000_0000
  {
    AddedCount(d, big);
    SumBound(Added(d, big));
  }

  lemma SmallClass(x: nat)
    requires x < 0xffff
    ensures x % 0xffff == 0 <==> x == 0
  {
  }

  const TOO_MUCH: seq<byte> := [255, 255, 1, 0, 255, 255]

  lemma TooMuchAdds()
    ensures Sum(Added(TOO_MUCH, false)) == 0x1_ffff
  {
    var d := TOO_MUCH;
    assert d[2..] == [1, 0, 255, 255] && d[2..][2..] == [255, 255] && d[2..][2..][2..] == [];
    assert Added([255, 255], false) == [Word(255, 255, false)] + [];
    assert Added(d[2..], false) == [Word(1, 0, false)] + Added([255, 255], false);
    SumOne(0xffff);
    SumCons(1, Added([255, 255], false));
    SumCons(0xffff, Added(d[2..], false));
  }

  /** A packet that the single fold gets wrong: 65535, 1 and 65535 add up to 0x1ffff. */
  lemma CsumCanBeWrong(d: seq<byte>)
    requires d == TOO_MUCH
    ensures Finish(Accumulate(0, Added(d, false))) != Reference(WordsOf(d, false))
  {
    TooMuchAdds();
    FoldCarries(d);
    CsumShortIff(d, false);
  }

  lemma FoldCarries(d: seq<byte>)
    requires Sum(Added(d, false)) == 0x1_ffff
    ensures Folded(Accumulate(0, Added(d, false))) == 0x1_0000
  {
    AccumulateIs(0, Added(d, false));
  }

  /** One that a big-endian machine gets wrong: a single byte. */
  lemma OddByteWrong(d: seq<byte>)
    requires d == [1]
    ensures Finish(Accumulate(0, Added(d, true))) != Reference(WordsOf(d, true))
  {
    CsumShortIff(d, true);
    assert !CsumRight(d, true) by { assert OddLoss(d, true) == 255; }
  }

  // ----- incremental update

  const LOST_CARRY := 0x1_ffff

  lemma RecalcArith(sum: nat)
    requires sum <= 3 * 0xffff
    ensures var x := (sum + sum / 0x1_0000) % 0x1_0000;
            && (sum != LOST_CARRY ==> x % 0xffff == sum % 0xffff && (x == 0 <==> sum == 0))
            && (sum == LOST_CARRY ==> x == 0)
  {
    assert sum / 0x1_0000 <= 2;
  }

  /** Adding the same to two numbers keeps them in step modulo 65535. */
  lemma ModShift(a: int, b: int, c: int)
    ensures (a + c) % 0xffff == (b + c) % 0xffff <==> a % 0xffff == b % 0xffff
  {
    var k, l := a / 0xffff - b / 0xffff, (a + c) / 0xffff - (b + c) / 0xffff;
    if a % 0xffff == b % 0xffff {
      assert a + c == (b + c) + 0xffff * k;
      ModAdd(b + c, k);
    } else if (a + c) % 0xffff == (b + c) % 0xffff {
      assert a == b + 0xffff * l;
      ModAdd(b, l);
    }
  }

  /** Modulo 65535, complementing keeps equality and inequality. */
  lemma ModComplement(a: int, b: int)
    ensures (0xffff - a) % 0xffff == (0xffff - b) % 0xffff <==> a % 0xffff == b % 0xffff
  {
    ModShift(a, b, -a - b);
    ModAdd(-a, 1);
    ModAdd(-b, 1);
  }

  /** The checksum field is right, up to the two zeros of one's-complement arithmetic. */
  predicate Congruent(csum: u16, w: seq<u16>) { csum % 0xffff == Reference(w) % 0xffff }

  lemma CongruentIs(csum: u16, w: seq<u16>)
    ensures Congruent(csum, w) <==> (0xffff - csum) % 0xffff == Sum(w) % 0xffff
  {
    OnesSumIsSum(w);
    ModComplement(0xffff - csum, OnesSum(w));
  }

  /** The sum of three terms, where its carry is kept, is the sum over the changed packet. */
  lemma ThreeTermsIs(csum: u16, w: seq<u16>, k: nat, x: u16)
    requires k < |w| && Congruent(csum, w)
    ensures ThreeTerms(csum, w[k], x) % 0xffff == Sum(w[k := x]) % 0xffff
  {
    CongruentIs(csum, w);
    SumUpdate(w, k, x);
    ModShift(0xffff - csum, Sum(w), 0xffff - w[k] + x);
    ModAdd(Sum(w[k := x]), 1);
  }

  /**
   Changing one 16-bit field: the updated checksum is that of the changed packet, modulo 65535, if and
   only if the sum of the three terms is not 0x1ffff.
   */
  lemma Recalc16Iff(csum: u16, w: seq<u16>, k: nat, x: u16)
    requires k < |w| && Congruent(csum, w)
    ensures Congruent(Recalc16(csum, w[k], x), w[k := x]) <==> ThreeTerms(csum, w[k], x) != LOST_CARRY
  {
    var sum := ThreeTerms(csum, w[k], x);
    RecalcArith(sum);
    ThreeTermsIs(csum, w, k, x);
    CongruentIs(Recalc16(csum, w[k], x), w[k := x]);
  }

  /** Bit for bit, a changed packet of nothing but zeros is the other exception. */
  lemma Recalc16ExactIff(w: seq<u16>, k: nat, x: u16)
    requires k < |w|
    ensures Recalc16(Reference(w), w[k], x) == Reference(w[k := x])
       <==> ThreeTerms(Reference(w), w[k], x) != LOST_CARRY && !AllZero(w[k := x])
  {
    var sum, w' := ThreeTerms(Reference(w), w[k], x), w[k := x];
    RecalcArith(sum);
    Recalc16Iff(Reference(w), w, k, x);
    OnesSumIsSum(w);
    SumZero(w);
    SumZero(w');
    OnesSumIs(w', (sum + sum / 0x1_0000) % 0x1_0000);
    CongruentIs(Recalc16(Reference(w), w[k], x), w');
    if w[k] == 0xffff {
      assert Sum(w) != 0;
    }
    assert sum > 0;
  }

  /** Wrong by a carry: what an update leaves behind is one too little. */
  lemma LostCarryIs(csum: u16, w: seq<u16>, k: nat, x: u16, delta: int)
    requires k < |w| && (0xffff - csum + delta) % 0xffff == Sum(w) % 0xffff
    ensures var lost := if ThreeTerms(csum, w[k], x) == LOST_CARRY then 1 else 0;
            (0xffff - Recalc16(csum, w[k], x) + delta + lost) % 0xffff == Sum(w[k := x]) % 0xffff
  {
    var sum := ThreeTerms(csum, w[k], x);
    RecalcArith(sum);
    SumUpdate(w, k, x);
    ModShift(0xffff - csum + delta, Sum(w), 0xffff - w[k] + x);
    ModAdd(Sum(w[k := x]), 1);
    if sum == LOST_CARRY {
      ModAdd(delta + 1, 2);
      assert sum + delta == (delta + 1) + 0xffff * 2;
    } else {
      ModShift((sum + sum / 0x1_0000) % 0x1_0000, sum, delta);
    }
  }

  /** A 32-bit field, its low half first: right if and only if neither of the two updates loses a carry. */
  lemma Recalc32Iff(csum: u16, w: seq<u16>, k: nat, x: u32)
    requires k + 1 < |w| && Congruent(csum, w)
    ensures Congruent(Recalc32(csum, Join(w[k], w[k + 1]), x), w[k := x % 0x1_0000][k + 1 := x / 0x1_0000])
       <==> && ThreeTerms(csum, w[k], x % 0x1_0000) != LOST_CARRY
            && ThreeTerms(Recalc16(csum, w[k], x % 0x1_0000), w[k + 1], x / 0x1_0000) != LOST_CARRY
  {
    var lo: u16, hi: u16 := x % 0x1_0000, x / 0x1_0000;
    assert Join(w[k], w[k + 1]) % 0x1_0000 == w[k] && Join(w[k], w[k + 1]) / 0x1_0000 == w[k + 1];
    var mid, w1 := Recalc16(csum, w[k], lo), w[k := lo];
    var w2 := w1[k + 1 := hi];
    var lost1 := if ThreeTerms(csum, w[k], lo) == LOST_CARRY then 1 else 0;
    var lost2 := if ThreeTerms(mid, w[k + 1], hi) == LOST_CARRY then 1 else 0;
    CongruentIs(csum, w);
    LostCarryIs(csum, w, k, lo, 0);
    LostCarryIs(mid, w1, k + 1, hi, lost1);
    var r := Recalc16(mid, w[k + 1], hi);
    CongruentIs(r, w2);
    Differ(0xffff - r, lost1 + lost2);
  }

  lemma Differ(a: int, n: nat)
    requires n < 0xffff
    ensures a % 0xffff == (a + n) % 0xffff <==> n == 0
  {
    ModShift(0, n, a);
  }

  // ----- the code

  /** With the words from byte `p` on still to be added, the accumulator will come out as `goal`. */
  ghost predicate Pending(d: seq<byte>, big: bool, p: nat, partial: u32, goal: u32) {
    p <= |d| && forall w {:trigger Sum(w)} :: w == Added(d[p..], big) ==> (partial + Sum(w)) % 0x1_0000_0000 == goal
  }

  lemma WrapShift(partial: u32, x: u16, rest: nat)
    ensures (Add16(partial, x) + rest) % 0x1_0000_0000 == (partial + (x + rest)) % 0x1_0000_0000
  {
    WrapAdd(partial + x, rest);
  }

  lemma PendingStart(d: seq<byte>, big: bool, start: u32)
    ensures Pending(d, big, 0, start, Accumulate(start, Added(d, big)))
  {
    AccumulateIs(start, Added(d, big));
    assert d[0..] == d;
  }

  lemma PendingStep(d: seq<byte>, big: bool, p: nat, partial: u32, x: u16, rest: seq<u16>, goal: u32)
    requires Pending(d, big, p, partial, goal) && Added(d[p..], big) == [x] + rest
    ensures (Add16(partial, x) + Sum(rest)) % 0x1_0000_0000 == goal
  {
    assert (partial + Sum([x] + rest)) % 0x1_0000_0000 == goal;
    SumCons(x, rest);
    WrapShift(partial, x, Sum(rest));
  }

  lemma PendingWord(d: seq<byte>, big: bool, p: nat, partial: u32, goal: u32)
    requires Pending(d, big, p, partial, goal) && p + 1 < |d|
    ensures Pending(d, big, p + 2, Add16(partial, Word(d[p], d[p + 1], big)), goal)
  {
    assert d[p..][2..] == d[p + 2..];
    PendingStep(d, big, p, partial, Word(d[p], d[p + 1], big), Added(d[p + 2..], big), goal);
  }

  lemma PendingEnd(d: seq<byte>, big: bool, p: nat, partial: u32, goal: u32)
    requires Pending(d, big, p, partial, goal)
    ensures p == |d| ==> partial == goal
    ensures p + 1 == |d| ==> Add16(partial, d[p] as int) == goal
  {
    if p == |d| {
      assert (partial + Sum([])) % 0x1_0000_0000 == goal;
    } else if p + 1 == |d| {
      PendingStep(d, big, p, partial, d[p] as int, [], goal);
    }
  }

  /** `csum_continue`; `big` is the byte order of the machine. */
  method Continue(start: u32, d: seq<byte>, big: bool) returns (partial: u32)
    ensures partial == Accumulate(start, Added(d, big))
  {
    partial := start;
    var p, n := 0, |d|;
    ghost var goal := Accumulate(start, Added(d, big));
    PendingStart(d, big, start);
    while n > 1
      invariant n + p == |d| && Pending(d, big, p, partial, goal)
    {
      PendingWord(d, big, p, partial, goal);
      partial := Add16(partial, Word(d[p], d[p + 1], big));
      p, n := p + 2, n - 2;
    }
    PendingEnd(d, big, p, partial, goal);
    if n > 0 {
      partial := Add16(partial, d[p] as int);
    }
  }

  /** `csum`: exactly when it is right, for packets of up to 131072 bytes and for any. */
  method Csum(d: seq<byte>, big: bool) returns (r: u16)
    ensures r == Finish(Accumulate(0, Added(d, big)))
    ensures |d| <= 0x2_0000 ==> (r == Reference(WordsOf(d, big)) <==> CsumRight(d, big))
    ensures r == Reference(WordsOf(d, big))
       <==> (Lost(Added(d, big)) + OddLoss(d, big)) % 0xffff == 0 && StandsFor(Added(d, big), Sum(WordsOf(d, big)))
  {
    CsumExactIff(d, big);
    if |d| <= 0x2_0000 {
      CsumShortIff(d, big);
    }
    var partial := Continue(0, d, big);
    r := Finish(partial);
  }
}
