/**
 Words as numbers and as rows of bits: the bitwise operators and the shifts of a 32-bit unsigned
 integer, and where each bit of their results comes from.
 */
module Bits {

  const WIDTH: nat := 32
  const SIZE: nat := 0x1_0000_0000

  /** Bit i of x, the least significant being bit 0. */
  predicate Bit(x: nat, i: nat) {
    if i == 0 then x % 2 == 1 else Bit(x / 2, i - 1)
  }

  function PowerOfTwo(k: nat): (p: nat)
    ensures p > 0
  {
    if k == 0 then 1 else 2 * PowerOfTwo(k - 1)
  }

  lemma WordSize()
    ensures PowerOfTwo(WIDTH) == SIZE
  {
    assert PowerOfTwo(8) == 0x100;
    assert PowerOfTwo(16) == 0x1_0000;
    assert PowerOfTwo(24) == 0x100_0000;
  }

  /** The operator on the k low-order bits. */
  function Bitwise(operator: (bool, bool) -> bool, x: nat, y: nat, k: nat): (r: nat)
    ensures r < PowerOfTwo(k)
    decreases k
  {
    if k == 0 then 0
    else 2 * Bitwise(operator, x / 2, y / 2, k - 1) + if operator(x % 2 == 1, y % 2 == 1) then 1 else 0
  }

  function And(x: nat, y: nat): (r: nat)
    ensures r < SIZE
  {
    WordSize();
    Bitwise((a, b) => a && b, x, y, WIDTH)
  }

  function Or(x: nat, y: nat): (r: nat)
    ensures r < SIZE
  {
    WordSize();
    Bitwise((a, b) => a || b, x, y, WIDTH)
  }

  function Xor(x: nat, y: nat): (r: nat)
    ensures r < SIZE
  {
    WordSize();
    Bitwise((a, b) => a != b, x, y, WIDTH)
  }

  function Not(x: nat): (r: nat)
    ensures r < SIZE
  {
    WordSize();
    Bitwise((a, b) => !a, x, 0, WIDTH)
  }

  /** n places to the right, one at a time. */
  function ShiftRight(x: nat, n: nat): nat {
    if n == 0 then x else ShiftRight(x / 2, n - 1)
  }

  /** n places to the left, one at a time; what leaves the word at its upper end is lost. */
  function ShiftLeft(x: nat, n: nat): nat {
    if n == 0 then x else 2 * ShiftLeft(x, n - 1) % SIZE
  }

  function RotateRight(x: nat, n: nat): nat
    requires n <= WIDTH
  {
    Or(ShiftRight(x, n), ShiftLeft(x, WIDTH - n))
  }

  lemma {:induction false} BitwiseBit(operator: (bool, bool) -> bool, x: nat, y: nat, k: nat, i: nat)
    requires i < k
    ensures Bit(Bitwise(operator, x, y, k), i) == operator(Bit(x, i), Bit(y, i))
  {
    if i > 0 {
      BitwiseBit(operator, x / 2, y / 2, k - 1, i - 1);
    }
  }

  lemma AndBit(x: nat, y: nat, i: nat)
    requires i < WIDTH
    ensures Bit(And(x, y), i) == (Bit(x, i) && Bit(y, i))
  {
    BitwiseBit((a, b) => a && b, x, y, WIDTH, i);
  }

  lemma OrBit(x: nat, y: nat, i: nat)
    requires i < WIDTH
    ensures Bit(Or(x, y), i) == (Bit(x, i) || Bit(y, i))
  {
    BitwiseBit((a, b) => a || b, x, y, WIDTH, i);
  }

  lemma XorBit(x: nat, y: nat, i: nat)
    requires i < WIDTH
    ensures Bit(Xor(x, y), i) == (Bit(x, i) != Bit(y, i))
  {
    BitwiseBit((a, b) => a != b, x, y, WIDTH, i);
  }

  lemma NotBit(x: nat, i: nat)
    requires i < WIDTH
    ensures Bit(Not(x), i) == !Bit(x, i)
  {
    BitwiseBit((a, b) => !a, x, 0, WIDTH, i);
  }

  lemma {:induction false} ShiftRightBit(x: nat, n: nat, i: nat)
    ensures Bit(ShiftRight(x, n), i) == Bit(x, i + n)
  {
    if n > 0 {
      ShiftRightBit(x / 2, n - 1, i);
    }
  }

  /** Halving a remainder of twice p is the remainder of the half. */
  lemma HalfOfRemainder(x: nat, p: nat)
    requires p > 0
    ensures (x % (2 * p)) / 2 == (x / 2) % p && (x % (2 * p)) % 2 == x % 2
  {
    var q, r := (x / 2) / p, (x / 2) % p;
    assert x == (2 * p) * q + (2 * r + x % 2);
    Quotient(x, 2 * p, q, 2 * r + x % 2);
  }

  lemma Quotient(x: nat, p: nat, q: nat, r: nat)
    requires r < p && x == p * q + r
    ensures x % p == r
  {
    var d := x / p - q;
    assert x % p == r - p * d;
    assert d >= 1 ==> p * d >= p;
    assert d <= -1 ==> p * d + p <= 0;
  }

  lemma {:induction false} LowBits(x: nat, k: nat, i: nat)
    requires i < k
    ensures Bit(x % PowerOfTwo(k), i) == Bit(x, i)
  {
    HalfOfRemainder(x, PowerOfTwo(k - 1));
    if i > 0 {
      LowBits(x / 2, k - 1, i - 1);
    }
  }

  lemma {:induction false} ShiftLeftBit(x: nat, n: nat, i: nat)
    requires i < WIDTH
    ensures Bit(ShiftLeft(x, n), i) == (n <= i && Bit(x, i - n))
  {
    if n > 0 {
      var y := ShiftLeft(x, n - 1);
      WordSize();
      LowBits(2 * y, WIDTH, i);
      if i > 0 {
        assert (2 * y) / 2 == y;
        ShiftLeftBit(x, n - 1, i - 1);
      }
    }
  }

  /** A word has no bits from its width on. */
  lemma {:induction false} BeyondTheWord(x: nat, k: nat, i: nat)
    requires x < PowerOfTwo(k) && k <= i
    ensures !Bit(x, i)
  {
    if i > 0 {
      BeyondTheWord(x / 2, if k == 0 then 0 else k - 1, i - 1);
    }
  }

  lemma TwoShifts(x: nat, n: nat, i: nat)
    requires 0 < n < WIDTH && i < WIDTH
    ensures Bit(RotateRight(x, n), i) == (Bit(x, i + n) || (WIDTH <= i + n && Bit(x, i + n - WIDTH)))
  {
    OrBit(ShiftRight(x, n), ShiftLeft(x, WIDTH - n), i);
    ShiftRightBit(x, n, i);
    ShiftLeftBit(x, WIDTH - n, i);
  }

  /** A rotation takes bit i from n places up, counted around the word. */
  lemma RotateRightBit(x: nat, n: nat, i: nat)
    requires x < SIZE && 0 < n < WIDTH && i < WIDTH
    ensures Bit(RotateRight(x, n), i) == Bit(x, (i + n) % WIDTH)
  {
    TwoShifts(x, n, i);
    AroundTheWord(i + n);
    if i + n >= WIDTH {
      WordSize();
      BeyondTheWord(x, WIDTH, i + n);
    }
  }

  lemma AroundTheWord(j: nat)
    requires j < 2 * WIDTH
    ensures j % WIDTH == if j < WIDTH then j else j - WIDTH
  {
  }
}
