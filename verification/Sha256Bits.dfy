/**
 What the functions on words compute, bit by bit, stated without the expressions that define
 them (section 4.1.2 of FIPS 180-4).
 */
module Sha256Bits {
  import opened Bits
  import opened Sha256Spec

  predicate BitOf(w: Word, i: nat) { Bit(w as nat, i) }

  /** An odd number of the three holds. */
  predicate Odd(a: bool, b: bool, c: bool) { (a != b) != c }

  /** At least two of the three hold. */
  predicate Most(a: bool, b: bool, c: bool) { (a && b) || (a && c) || (b && c) }

  lemma ParityOfXor(x: nat, y: nat, z: nat, i: nat)
    requires i < 32
    ensures Bit(Xor(Xor(x, y), z), i) == Odd(Bit(x, i), Bit(y, i), Bit(z, i))
  {
    XorBit(x, y, i);
    XorBit(Xor(x, y), z, i);
  }

  lemma ShiftedBit(w: Word, n: nat, i: nat)
    ensures Bit(ShiftRight(w as nat, n), i) == (i + n < 32 && BitOf(w, i + n))
  {
    ShiftRightBit(w as nat, n, i);
    if i + n >= 32 {
      WordSize();
      BeyondTheWord(w as nat, WIDTH, i + n);
    }
  }

  lemma Rotations(w: Word, l: nat, m: nat, n: nat, i: nat)
    requires 0 < l < 32 && 0 < m < 32 && 0 < n < 32 && i < 32
    ensures Bit(Xor(Xor(RotR(w, l), RotR(w, m)), RotR(w, n)), i)
         == Odd(BitOf(w, (i + l) % 32), BitOf(w, (i + m) % 32), BitOf(w, (i + n) % 32))
  {
    RotateRightBit(w as nat, l, i);
    RotateRightBit(w as nat, m, i);
    RotateRightBit(w as nat, n, i);
    ParityOfXor(RotR(w, l), RotR(w, m), RotR(w, n), i);
  }

  lemma RotationsAndShift(w: Word, l: nat, m: nat, n: nat, i: nat)
    requires 0 < l < 32 && 0 < m < 32 && i < 32
    ensures Bit(Xor(Xor(RotR(w, l), RotR(w, m)), ShiftRight(w as nat, n)), i)
         == Odd(BitOf(w, (i + l) % 32), BitOf(w, (i + m) % 32), i + n < 32 && BitOf(w, i + n))
  {
    RotateRightBit(w as nat, l, i);
    RotateRightBit(w as nat, m, i);
    ShiftedBit(w, n, i);
    ParityOfXor(RotR(w, l), RotR(w, m), ShiftRight(w as nat, n), i);
  }

  /** Bit i of the result is the parity of bits i + 2, i + 13 and i + 22, counted around the word. */
  lemma BigSigma0IsParity(w: Word, i: nat)
    requires i < 32
    ensures BitOf(FIPS180.bigSigma0(w), i)
         == Odd(BitOf(w, (i + 2) % 32), BitOf(w, (i + 13) % 32), BitOf(w, (i + 22) % 32))
  {
    Rotations(w, 2, 13, 22, i);
  }

  lemma BigSigma1IsParity(w: Word, i: nat)
    requires i < 32
    ensures BitOf(FIPS180.bigSigma1(w), i)
         == Odd(BitOf(w, (i + 6) % 32), BitOf(w, (i + 11) % 32), BitOf(w, (i + 25) % 32))
  {
    Rotations(w, 6, 11, 25, i);
  }

  /** Here the third bit comes from a shift, and is 0 when it would lie beyond the word. */
  lemma Sigma0IsParity(w: Word, i: nat)
    requires i < 32
    ensures BitOf(FIPS180.sigma0(w), i)
         == Odd(BitOf(w, (i + 7) % 32), BitOf(w, (i + 18) % 32), i + 3 < 32 && BitOf(w, i + 3))
  {
    RotationsAndShift(w, 7, 18, 3, i);
  }

  lemma Sigma1IsParity(w: Word, i: nat)
    requires i < 32
    ensures BitOf(FIPS180.sigma1(w), i)
         == Odd(BitOf(w, (i + 17) % 32), BitOf(w, (i + 19) % 32), i + 10 < 32 && BitOf(w, i + 10))
  {
    RotationsAndShift(w, 17, 19, 10, i);
  }

  /** Where x has a 1 the bit of y is chosen, elsewhere that of z. */
  lemma ChChooses(x: Word, y: Word, z: Word, i: nat)
    requires i < 32
    ensures BitOf(FIPS180.ch(x, y, z), i) == if BitOf(x, i) then BitOf(y, i) else BitOf(z, i)
  {
    var u, v, w := x as nat, y as nat, z as nat;
    AndBit(u, v, i);
    NotBit(u, i);
    AndBit(Not(u), w, i);
    XorBit(And(u, v), And(Not(u), w), i);
  }

  /** A bit is set where at least two of the arguments have it. */
  lemma MajIsMajority(x: Word, y: Word, z: Word, i: nat)
    requires i < 32
    ensures BitOf(FIPS180.maj(x, y, z), i) == Most(BitOf(x, i), BitOf(y, i), BitOf(z, i))
  {
    var u, v, w := x as nat, y as nat, z as nat;
    AndBit(u, v, i);
    AndBit(u, w, i);
    AndBit(v, w, i);
    ParityOfXor(And(u, v), And(u, w), And(v, w), i);
  }
}
