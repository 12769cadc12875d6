/**
 `crc32.c`: a table of 256 remainders lets a message be divided by a polynomial a byte at a time. The
 result is the remainder of the message, followed by 32 zero bits, under polynomial division.
 */
module Crc32 {
  import opened Bytes
  import opened Words

  // ----- division, bit by bit

  /** Multiply the register by x and reduce it by x^32 + `poly`. */
  function Shift(poly: Word, reg: Word): Word {
    if reg[31] then Xor(Left(reg, 1), poly) else Left(reg, 1)
  }

  /** Bring the bits down into the register one after the other. */
  function Divide(poly: Word, reg: Word, bits: seq<bool>): Word {
    if bits == [] then reg
    else Xor(Shift(poly, Divide(poly, reg, bits[..|bits| - 1])), FromBits([bits[|bits| - 1]]))
  }

  function MessageBits(data: seq<byte>): seq<bool> {
    if data == [] then [] else MessageBits(data[..|data| - 1]) + BitsOf(data[|data| - 1], 8)
  }

  function Zeros(n: nat): seq<bool> { seq(n, _ => false) }

  /** The message times x^32. */
  function Dividend(data: seq<byte>): seq<bool> { MessageBits(data) + Zeros(32) }

  function Remainder(poly: Word, data: seq<byte>): Word { Divide(poly, ZERO, Dividend(data)) }

  // ----- ... is division of polynomials

  /** The coefficient of x^i in a bit string that lists the highest power first. */
  predicate Coefficient(bits: seq<bool>, i: int) { 0 <= i < |bits| && bits[|bits| - 1 - i] }

  predicate Divisor(poly: Word, i: int) { i == 32 || (0 <= i < 32 && poly[i]) }

  /** The coefficient of x^i in the product of `q` and x^32 + `poly` over the integers modulo 2. */
  predicate Product(q: seq<bool>, poly: Word, i: int) {
    q != [] && (Product(q[..|q| - 1], poly, i - 1) != (q[|q| - 1] && Divisor(poly, i)))
  }

  predicate InWord(w: Word, i: int) { 0 <= i < 32 && w[i] }

  /** `bits` is `q` times the divisor plus `r`, coefficient by coefficient. */
  ghost predicate QuotientAndRemainder(poly: Word, bits: seq<bool>, q: seq<bool>, r: Word) {
    forall i: int :: Coefficient(bits, i) == (Product(q, poly, i) != InWord(r, i))
  }

  lemma CoefficientSnoc(bits: seq<bool>, b: bool, i: int)
    ensures Coefficient(bits + [b], i) == if i == 0 then b else Coefficient(bits, i - 1)
  {
  }

  lemma ProductSnoc(q: seq<bool>, b: bool, poly: Word, i: int)
    ensures Product(q + [b], poly, i) == (Product(q, poly, i - 1) != (b && Divisor(poly, i)))
  {
    assert (q + [b])[..|q|] == q;
  }

  /** One step of long division, coefficient by coefficient. */
  lemma DivideStep(poly: Word, front: seq<bool>, b: bool, q: seq<bool>, r: Word, i: int)
    requires Coefficient(front, i - 1) == (Product(q, poly, i - 1) != InWord(r, i - 1))
    ensures Coefficient(front + [b], i)
         == (Product(q + [r[31]], poly, i) != InWord(Xor(Shift(poly, r), FromBits([b])), i))
  {
    CoefficientSnoc(front, b, i);
    ProductSnoc(q, r[31], poly, i);
    NoNegative(q, poly, -1);
  }

  /** The register is the remainder: there is a quotient that makes up for the rest. */
  lemma {:induction false} DivideIsDivision(poly: Word, bits: seq<bool>) returns (q: seq<bool>)
    ensures QuotientAndRemainder(poly, bits, q, Divide(poly, ZERO, bits))
  {
    if bits == [] {
      q := [];
    } else {
      var front, b := bits[..|bits| - 1], bits[|bits| - 1];
      var q' := DivideIsDivision(poly, front);
      var r := Divide(poly, ZERO, front);
      q := q' + [r[31]];
      assert bits == front + [b];
      forall i: int ensures Coefficient(bits, i) == (Product(q, poly, i) != InWord(Divide(poly, ZERO, bits), i)) {
        assert Coefficient(front, i - 1) == (Product(q', poly, i - 1) != InWord(r, i - 1));
        DivideStep(poly, front, b, q', r, i);
      }
    }
  }

  lemma {:induction false} NoNegative(q: seq<bool>, poly: Word, i: int)
    requires i < 0
    ensures !Product(q, poly, i)
  {
    if q != [] {
      NoNegative(q[..|q| - 1], poly, i - 1);
    }
  }

  // ----- ... and division has one remainder

  lemma {:induction false} ZeroProduct(n: nat, poly: Word, i: int)
    ensures !Product(Zeros(n), poly, i)
  {
    if n > 0 {
      assert Zeros(n)[..n - 1] == Zeros(n - 1);
      ZeroProduct(n - 1, poly, i - 1);
    }
  }

  lemma {:induction false} PaddedProduct(n: nat, q: seq<bool>, poly: Word, i: int)
    ensures Product(Zeros(n) + q, poly, i) == Product(q, poly, i)
    decreases |q|
  {
    if q == [] {
      assert Zeros(n) + q == Zeros(n);
      ZeroProduct(n, poly, i);
    } else {
      assert (Zeros(n) + q)[..n + |q| - 1] == Zeros(n) + q[..|q| - 1];
      PaddedProduct(n, q[..|q| - 1], poly, i - 1);
    }
  }

  lemma {:induction false} ProductLinear(a: seq<bool>, b: seq<bool>, poly: Word, i: int)
    requires |a| == |b|
    ensures Product(XorBits(a, b), poly, i) == (Product(a, poly, i) != Product(b, poly, i))
  {
    if a != [] {
      var n := |a| - 1;
      assert XorBits(a, b)[..n] == XorBits(a[..n], b[..n]);
      ProductLinear(a[..n], b[..n], poly, i - 1);
    }
  }

  /** The first one bit of the factor leads the product. */
  lemma {:induction false} LeadingProduct(z: seq<bool>, poly: Word, k: nat)
    requires k < |z| && z[..k] == Zeros(k)
    ensures Product(z, poly, 31 + |z| - k) == z[k]
  {
    var n := |z| - 1;
    if k == n {
      ZeroProduct(n, poly, 31);
    } else {
      assert z[..n][..k] == z[..k];
      LeadingProduct(z[..n], poly, k);
    }
  }

  /** A multiple of the divisor of degree below 32 is zero. */
  lemma {:induction false} SmallMultiple(z: seq<bool>, poly: Word, k: nat)
    requires k <= |z| && z[..k] == Zeros(k) && forall i :: i >= 32 ==> !Product(z, poly, i)
    ensures z == Zeros(|z|)
    decreases |z| - k
  {
    if k < |z| {
      LeadingProduct(z, poly, k);
      assert z[..k + 1] == Zeros(k + 1);
      SmallMultiple(z, poly, k + 1);
    }
  }

  /** However the quotient is chosen, the remainder is the same. */
  lemma RemainderUnique(poly: Word, bits: seq<bool>, q: seq<bool>, r: Word, q': seq<bool>, r': Word)
    requires QuotientAndRemainder(poly, bits, q, r) && QuotientAndRemainder(poly, bits, q', r')
    ensures r == r'
  {
    var a, b := Zeros(|q'|) + q, Zeros(|q|) + q';
    var z := XorBits(a, b);
    forall i: int ensures Product(z, poly, i) == (InWord(r, i) != InWord(r', i)) {
      PaddedProduct(|q'|, q, poly, i);
      PaddedProduct(|q|, q', poly, i);
      ProductLinear(a, b, poly, i);
      assert Coefficient(bits, i) == (Product(q, poly, i) != InWord(r, i));
    }
    SmallMultiple(z, poly, 0);
    forall i | 0 <= i < 32 ensures r[i] == r'[i] {
      ZeroProduct(|z|, poly, i);
      assert InWord(r, i) == InWord(r', i);
    }
  }

  // ----- the shift is linear

  function Shifts(poly: Word, reg: Word, n: nat): Word {
    if n == 0 then reg else Shift(poly, Shifts(poly, reg, n - 1))
  }

  lemma ShiftLinear(poly: Word, a: Word, b: Word)
    ensures Shift(poly, Xor(a, b)) == Xor(Shift(poly, a), Shift(poly, b))
  {
  }

  lemma {:induction false} ShiftsLinear(poly: Word, a: Word, b: Word, n: nat)
    ensures Shifts(poly, Xor(a, b), n) == Xor(Shifts(poly, a, n), Shifts(poly, b, n))
  {
    if n > 0 {
      ShiftsLinear(poly, a, b, n - 1);
      ShiftLinear(poly, Shifts(poly, a, n - 1), Shifts(poly, b, n - 1));
    }
  }

  lemma {:induction false} ShiftsAdd(poly: Word, reg: Word, m: nat, n: nat)
    ensures Shifts(poly, Shifts(poly, reg, m), n) == Shifts(poly, reg, m + n)
  {
    if n > 0 {
      ShiftsAdd(poly, reg, m, n - 1);
    }
  }

  /** As long as nothing reaches the top, shifting is just that. */
  lemma {:induction false} ShiftsPlain(poly: Word, w: Word, n: nat)
    requires n <= 32 && forall i :: 32 - n <= i < 32 ==> !w[i]
    ensures Shifts(poly, w, n) == Left(w, n)
  {
    if n > 0 {
      ShiftsPlain(poly, w, n - 1);
      assert Left(Left(w, n - 1), 1) == Left(w, n);
    }
  }

  lemma {:induction false} DivideAppend(poly: Word, reg: Word, a: seq<bool>, b: seq<bool>)
    ensures Divide(poly, reg, a + b) == Divide(poly, Divide(poly, reg, a), b)
    decreases |b|
  {
    if b == [] {
      assert a + b == a;
    } else {
      assert (a + b)[..|a + b| - 1] == a + b[..|b| - 1];
      DivideAppend(poly, reg, a, b[..|b| - 1]);
    }
  }

  lemma {:induction false} DivideZeros(poly: Word, reg: Word, n: nat)
    ensures Divide(poly, reg, Zeros(n)) == Shifts(poly, reg, n)
  {
    if n > 0 {
      assert Zeros(n)[..n - 1] == Zeros(n - 1);
      DivideZeros(poly, reg, n - 1);
      var r := Shifts(poly, reg, n);
      assert Xor(r, FromBits([false])) == r;
    }
  }

  lemma ShiftIn(s: Word, front: seq<bool>, x: bool)
    requires |front| < 32
    ensures Xor(Xor(s, Left(FromBits(front), 1)), FromBits([x])) == Xor(s, FromBits(front + [x]))
  {
  }

  lemma ShiftShort(poly: Word, b: seq<bool>)
    requires |b| < 32
    ensures Shift(poly, FromBits(b)) == Left(FromBits(b), 1)
  {
    assert !FromBits(b)[31];
  }

  /** Up to 32 bits brought down one by one might as well be added at the end. */
  lemma {:induction false} DivideShort(poly: Word, reg: Word, b: seq<bool>)
    requires |b| <= 32
    ensures Divide(poly, reg, b) == Xor(Shifts(poly, reg, |b|), FromBits(b))
  {
    if b == [] {
      assert Xor(reg, FromBits(b)) == reg;
    } else {
      var n := |b| - 1;
      DivideShort(poly, reg, b[..n]);
      DivideShortStep(poly, Divide(poly, reg, b[..n]), Shifts(poly, reg, n), b[..n], b[n]);
      assert b == b[..n] + [b[n]];
    }
  }

  lemma DivideShortStep(poly: Word, d: Word, r: Word, front: seq<bool>, x: bool)
    requires |front| < 32 && d == Xor(r, FromBits(front))
    ensures Xor(Shift(poly, d), FromBits([x])) == Xor(Shift(poly, r), FromBits(front + [x]))
  {
    ShiftLinear(poly, r, FromBits(front));
    ShiftShort(poly, front);
    ShiftIn(Shift(poly, r), front, x);
  }

  // ----- a byte at a time

  function AtTop(b: seq<bool>): Word { Left(FromBits(b), 24) }

  /** One more byte of message. */
  lemma RemainderByte(poly: Word, data: seq<byte>, d: byte)
    ensures Remainder(poly, data + [d]) == Shifts(poly, Xor(Remainder(poly, data), AtTop(BitsOf(d, 8))), 8)
  {
    var bits, b := MessageBits(data), BitsOf(d, 8);
    var v, w := Divide(poly, ZERO, bits), FromBits(b);
    assert (data + [d])[..|data|] == data;
    DivideAppend(poly, ZERO, bits, Zeros(32));
    DivideAppend(poly, ZERO, bits + b, Zeros(32));
    DivideAppend(poly, ZERO, bits, b);
    DivideZeros(poly, v, 32);
    DivideShort(poly, v, b);
    DivideZeros(poly, Xor(Shifts(poly, v, 8), w), 32);
    ShiftsLinear(poly, Shifts(poly, v, 8), w, 32);
    ShiftsAdd(poly, v, 8, 32);
    ShiftsAdd(poly, v, 32, 8);
    ShiftsPlain(poly, w, 24);
    ShiftsAdd(poly, w, 24, 8);
    ShiftsLinear(poly, Shifts(poly, v, 32), AtTop(b), 8);
  }

  function TopByte(w: Word): seq<bool> { seq(8, i requires 0 <= i < 8 => w[31 - i]) }

  /** What goes over the top is looked up, the rest is shifted. */
  lemma TableStep(poly: Word, r: Word, b: seq<bool>)
    requires |b| == 8
    ensures Xor(Left(r, 8), Shifts(poly, AtTop(XorBits(TopByte(r), b)), 8)) == Shifts(poly, Xor(r, AtTop(b)), 8)
  {
    var low: Word := seq(32, i requires 0 <= i < 32 => i < 24 && r[i]);
    var top := AtTop(XorBits(TopByte(r), b));
    assert Xor(r, AtTop(b)) == Xor(low, top);
    ShiftsLinear(poly, low, top, 8);
    ShiftsPlain(poly, low, 8);
    assert Left(low, 8) == Left(r, 8);
  }

  // ----- the code

  const TABLE_BITS := 8
  const TABLE_SIZE := 256

  /** The remainder of byte `i`: eight shifts from the top. (The bound variable keeps it folded.) */
  ghost predicate IsEntry(poly: Word, i: nat, w: Word) {
    forall n: nat {:trigger Shifts(poly, AtTop(BitsOf(i, n)), n)} ::
      n == TABLE_BITS ==> w == Shifts(poly, AtTop(BitsOf(i, n)), n)
  }

  lemma EntryOf(poly: Word, b: seq<bool>, w: Word)
    requires |b| == TABLE_BITS && IsEntry(poly, Number(b), w)
    ensures w == Shifts(poly, AtTop(b), TABLE_BITS)
  {
    BitsOfNumber(b);
    assert w == Shifts(poly, AtTop(BitsOf(Number(b), |b|)), |b|);
  }

  /** The inner loop of `crc32_init`. */
  method TableEntry(polynomial: Word, i: nat) returns (reg: Word)
    ensures IsEntry(polynomial, i, reg)
  {
    var start := AtTop(BitsOf(i, TABLE_BITS));
    reg := start;
    for j := 0 to TABLE_BITS
      invariant reg == Shifts(polynomial, start, j)
    {
      var topBit := reg[31];
      reg := Left(reg, 1);
      if topBit {
        reg := Xor(reg, polynomial);
      }
    }
  }

  /** What the table says of the byte that leaves the register, folded in: the remainder of one byte more. */
  lemma ByteStep(poly: Word, front: seq<byte>, b: byte, top: seq<bool>, entry: Word)
    requires top == XorBits(TopByte(Remainder(poly, front)), BitsOf(b, 8)) && IsEntry(poly, Number(top), entry)
    ensures Xor(Left(Remainder(poly, front), 8), entry) == Remainder(poly, front + [b])
  {
    EntryOf(poly, top, entry);
    RemainderByte(poly, front, b);
    TableStep(poly, Remainder(poly, front), BitsOf(b, 8));
  }

  /** `struct crc32` */
  class Crc {
    const table: array<Word>
    ghost const poly: Word

    ghost predicate Valid()
      reads this, table
    {
      table.Length == TABLE_SIZE && Filled(TABLE_SIZE)
    }

    ghost predicate Filled(n: nat)
      reads this, table
    {
      n <= table.Length && forall i :: 0 <= i < n ==> IsEntry(poly, i, table[i])
    }

    /** `crc32_init` */
    constructor (polynomial: Word)
      ensures Valid() && fresh(table) && poly == polynomial
    {
      table := new Word[TABLE_SIZE](_ => ZERO);
      poly := polynomial;
      new;
      for i := 0 to TABLE_SIZE
        invariant Filled(i)
      {
        var reg := TableEntry(polynomial, i);
        table[i] := reg;
      }
    }

    /** The body of the loop of `crc32_calculate`. */
    method Feed(reg: Word, b: byte, ghost front: seq<byte>) returns (result: Word)
      requires Valid() && reg == Remainder(poly, front)
      ensures result == Remainder(poly, front + [b])
    {
      var top := XorBits(TopByte(reg), BitsOf(b, 8));
      BitsOfNumber(top);
      Pow2Of8();
      ByteStep(poly, front, b, top, table[Number(top)]);
      result := Xor(Left(reg, 8), table[Number(top)]);
    }

    /** `crc32_calculate` */
    method Calculate(data: seq<byte>) returns (result: Word)
      requires Valid()
      ensures result == Remainder(poly, data)
    {
      result := ZERO;
      EmptyRemainder(poly);
      assert data[..0] == [];
      for i := 0 to |data|
        invariant result == Remainder(poly, data[..i])
      {
        result := Feed(result, data[i], data[..i]);
        assert data[..i + 1] == data[..i] + [data[i]];
      }
      assert data[..|data|] == data;
    }
  }

  lemma {:induction false} NothingLeft(poly: Word, n: nat)
    ensures Divide(poly, ZERO, Zeros(n)) == ZERO
  {
    if n > 0 {
      assert Zeros(n)[..n - 1] == Zeros(n - 1);
      NothingLeft(poly, n - 1);
    }
  }

  lemma EmptyRemainder(poly: Word)
    ensures Remainder(poly, []) == ZERO
  {
    assert Dividend([]) == Zeros(32);
    NothingLeft(poly, 32);
  }

  lemma Pow2Of8()
    ensures Pow2(8) == TABLE_SIZE
  {
    assert Pow2(4) == 16;
  }

  /**
   For every polynomial and every message: the value computed is the one remainder that division of
   the message, times x^32, by x^32 + `poly` leaves.
   */
  lemma RemainderIsDivision(poly: Word, data: seq<byte>, r: Word)
    ensures r == Remainder(poly, data) <==> exists q :: QuotientAndRemainder(poly, Dividend(data), q, r)
  {
    var q := DivideIsDivision(poly, Dividend(data));
    if q' :| QuotientAndRemainder(poly, Dividend(data), q', r) {
      RemainderUnique(poly, Dividend(data), q, Remainder(poly, data), q', r);
    }
  }

  // ----- the message as numbers

  /** Bit `k` of a number: whether it is odd once halved k times. */
  predicate Bit(x: nat, k: nat) { if k == 0 then x % 2 == 1 else Bit(x / 2, k - 1) }

  lemma {:induction false} BitsAre(x: nat, n: nat, k: nat)
    requires k < n
    ensures BitsOf(x, n)[n - 1 - k] == Bit(x, k)
    decreases n
  {
    if k > 0 {
      BitsAre(x / 2, n - 1, k - 1);
    }
  }

  lemma CoefficientOfBoth(a: seq<bool>, b: seq<bool>, j: nat)
    ensures Coefficient(a + b, j) == if j < |b| then b[|b| - 1 - j] else Coefficient(a, j - |b|)
  {
  }

  lemma {:induction false} MessageBitAt(data: seq<byte>, k: nat, j: nat)
    requires j < 8
    ensures Coefficient(MessageBits(data), 8 * k + j) <==> k < |data| && Bit(data[|data| - 1 - k], j)
    decreases |data|
  {
    if data != [] {
      var front, b := data[..|data| - 1], data[|data| - 1];
      CoefficientOfBoth(MessageBits(front), BitsOf(b, 8), 8 * k + j);
      if k == 0 {
        BitsAre(b, 8, j);
      } else {
        MessageBitAt(front, k - 1, j);
      }
    }
  }

  /**
   What is divided, as a polynomial: bit `j` of the byte that `k` others follow is the coefficient of
   x^(32 + 8k + j), and there are no others.
   */
  lemma DividendAt(data: seq<byte>, k: nat, j: nat)
    requires j < 8
    ensures Coefficient(Dividend(data), 32 + 8 * k + j) <==> k < |data| && Bit(data[|data| - 1 - k], j)
    ensures forall i :: 0 <= i < 32 ==> !Coefficient(Dividend(data), i)
  {
    CoefficientOfBoth(MessageBits(data), Zeros(32), 32 + 8 * k + j);
    MessageBitAt(data, k, j);
  }
}
