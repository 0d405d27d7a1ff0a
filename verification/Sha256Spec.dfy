/**
 SHA-256 as FIPS 180-4 defines it: functions (section 4.1.2), constants (4.2.2), padding (5.1.1),
 initial value (5.3.3) and computation (6.2.2), followed by the lower-case hexadecimal output.
 */
module Sha256Spec {
  import opened Bits

  newtype Word = x: int | 0 <= x < 0x1_0000_0000
  newtype Byte = x: int | 0 <= x < 256
  type Block = b: seq<Byte> | |b| == 64 witness seq(64, _ => 0)
  datatype Hash = Hash(a: Word, b: Word, c: Word, d: Word, e: Word, f: Word, g: Word, h: Word)

  type Table = k: seq<Word> | |k| == 64 witness seq(64, _ => 0)

  const K: Table := K0 + K1 + K2 + K3

  const K0: seq<Word> := [
    0x428a2f98, 0x71374491, 0xb5c0fbcf, 0xe9b5dba5, 0x3956c25b, 0x59f111f1, 0x923f82a4, 0xab1c5ed5,
    0xd807aa98, 0x12835b01, 0x243185be, 0x550c7dc3, 0x72be5d74, 0x80deb1fe, 0x9bdc06a7, 0xc19bf174]
  const K1: seq<Word> := [
    0xe49b69c1, 0xefbe4786, 0x0fc19dc6, 0x240ca1cc, 0x2de92c6f, 0x4a7484aa, 0x5cb0a9dc, 0x76f988da,
    0x983e5152, 0xa831c66d, 0xb00327c8, 0xbf597fc7, 0xc6e00bf3, 0xd5a79147, 0x06ca6351, 0x14292967]
  const K2: seq<Word> := [
    0x27b70a85, 0x2e1b2138, 0x4d2c6dfc, 0x53380d13, 0x650a7354, 0x766a0abb, 0x81c2c92e, 0x92722c85,
    0xa2bfe8a1, 0xa81a664b, 0xc24b8b70, 0xc76c51a3, 0xd192e819, 0xd6990624, 0xf40e3585, 0x106aa070]
  const K3: seq<Word> := [
    0x19a4c116, 0x1e376c08, 0x2748774c, 0x34b0bcb5, 0x391c0cb3, 0x4ed8aa4a, 0x5b9cca4f, 0x682e6ff3,
    0x748f82ee, 0x78a5636f, 0x84c87814, 0x8cc70208, 0x90befffa, 0xa4506ceb, 0xbef9a3f7, 0xc67178f2]

  const IV: Hash := Hash(
    0x6a09e667, 0xbb67ae85, 0x3c6ef372, 0xa54ff53a, 0x510e527f, 0x9b05688c, 0x1f83d9ab, 0x5be0cd19)

  /** Addition modulo 2^32, where a 32-bit sum wraps around. */
  function Add(x: Word, y: Word): Word { ((x as int + y as int) % 0x1_0000_0000) as Word }

  function Ch(x: Word, y: Word, z: Word): Word {
    Xor(And(x as nat, y as nat), And(Not(x as nat), z as nat)) as Word
  }

  function Maj(x: Word, y: Word, z: Word): Word {
    Xor(Xor(And(x as nat, y as nat), And(x as nat, z as nat)), And(y as nat, z as nat)) as Word
  }

  function RotR(w: Word, n: nat): nat
    requires n <= WIDTH
  {
    RotateRight(w as nat, n)
  }

  function BigSigma0(w: Word): Word { Xor(Xor(RotR(w, 2), RotR(w, 13)), RotR(w, 22)) as Word }

  function BigSigma1(w: Word): Word { Xor(Xor(RotR(w, 6), RotR(w, 11)), RotR(w, 25)) as Word }

  function Sigma0(w: Word): Word { Xor(Xor(RotR(w, 7), RotR(w, 18)), ShiftRight(w as nat, 3)) as Word }

  function Sigma1(w: Word): Word { Xor(Xor(RotR(w, 17), RotR(w, 19)), ShiftRight(w as nat, 10)) as Word }

  /** Four bytes as a word, the first most significant: the four shifted bytes do not overlap. */
  function BigEndianWord(b0: Byte, b1: Byte, b2: Byte, b3: Byte): Word {
    (b0 as int * 0x100_0000 + b1 as int * 0x1_0000 + b2 as int * 0x100 + b3 as int) as Word
  }

  function AddHash(x: Hash, y: Hash): Hash {
    Hash(Add(x.a, y.a), Add(x.b, y.b), Add(x.c, y.c), Add(x.d, y.d),
         Add(x.e, y.e), Add(x.f, y.f), Add(x.g, y.g), Add(x.h, y.h))
  }

  /* ---------- Padding ---------- */

  const TWO_TO_THE_64: nat := 0x1_0000_0000_0000_0000
  const TWO_TO_THE_61: nat := 0x2000_0000_0000_0000

  function Zeros(k: nat): seq<Byte> { seq(k, _ => 0) }

  /** The number of zero bytes after the 0x80, for a message of n bytes. */
  function ZeroBytes(n: nat): nat { if n % 64 <= 55 then 55 - n % 64 else 119 - n % 64 }

  /** The padding fills the last block exactly and is the shortest that does. */
  lemma PaddingIsMinimal(n: nat, k: nat)
    ensures (n + 1 + k) % 64 == 56 ==> ZeroBytes(n) <= k
    ensures (n + 1 + ZeroBytes(n)) % 64 == 56
  {
    var q, r := n / 64, n % 64;
    assert n + 1 + ZeroBytes(n) == 64 * (if r <= 55 then q else q + 1) + 56;
    if (n + 1 + k) % 64 == 56 {
      var m := (n + 1 + k) / 64;
      assert 64 * m + 56 == 64 * q + r + 1 + k;
    }
  }

  /** The k low-order bytes of n, the most significant first. */
  function ToBytes(n: nat, k: nat): (bs: seq<Byte>)
    ensures |bs| == k
  {
    if k == 0 then [] else ToBytes(n / 256, k - 1) + [(n % 256) as Byte]
  }

  /** The length in bits is a 64-bit counter, as in the source. */
  function BitLength(n: nat): nat { (8 * n) % TWO_TO_THE_64 }

  function Pad(m: seq<Byte>): seq<Byte> {
    m + [0x80] + Zeros(ZeroBytes(|m|)) + ToBytes(BitLength(|m|), 8)
  }

  /* ---------- Blocks and output ---------- */

  function BlockAt(p: seq<Byte>, i: nat): Block
    requires 64 * i + 64 <= |p|
  {
    p[64 * i..64 * i + 64]
  }

  function Blocks(p: seq<Byte>): (bs: seq<Block>)
    ensures |bs| == |p| / 64
    ensures forall i :: 0 <= i < |bs| ==> bs[i] == BlockAt(p, i)
  {
    seq(|p| / 64, i requires 0 <= i < |p| / 64 => BlockAt(p, i))
  }

  function HexDigit(d: nat): char
    requires d < 16
  {
    "0123456789abcdef"[d]
  }

  /** What an output stream in hexadecimal mode writes for a number. */
  function HexNumber(n: nat): (s: string)
    ensures s != []
  {
    if n < 16 then [HexDigit(n)] else HexNumber(n / 16) + [HexDigit(n % 16)]
  }

  /** setw(8) with fill character 0. */
  function Fill8(s: string): string {
    if |s| < 8 then seq(8 - |s|, _ => '0') + s else s
  }

  function HexWord(w: Word): string { Fill8(HexNumber(w as int)) }

  function Words(h: Hash): seq<Word> { [h.a, h.b, h.c, h.d, h.e, h.f, h.g, h.h] }

  function HexWords(ws: seq<Word>): string {
    if ws == [] then "" else HexWords(ws[..|ws| - 1]) + HexWord(ws[|ws| - 1])
  }

  /**
   The compression function for given functions, constants and initial value. Its loops and
   the results about them do not depend on which functions on words these are.
   */
  datatype Sha2 = Sha2(
    sigma0: Word -> Word,
    sigma1: Word -> Word,
    bigSigma0: Word -> Word,
    bigSigma1: Word -> Word,
    ch: (Word, Word, Word) -> Word,
    maj: (Word, Word, Word) -> Word,
    k: Table,
    iv: Hash)
  {
    /** Word t of the message schedule, from the words before it. */
    function NextWord(block: Block, w: seq<Word>): Word {
      var t := |w|;
      if t < 16 then BigEndianWord(block[4 * t], block[4 * t + 1], block[4 * t + 2], block[4 * t + 3])
      else Add(Add(Add(sigma1(w[t - 2]), w[t - 7]), sigma0(w[t - 15])), w[t - 16])
    }

    /** The first n words of the message schedule of a block. */
    function Schedule(block: Block, n: nat): (w: seq<Word>)
      ensures |w| == n
      decreases n
    {
      if n == 0 then [] else
        var w := Schedule(block, n - 1);
        w + [NextWord(block, w)]
    }

    function T1(e: Word, f: Word, g: Word, h: Word, kt: Word, wt: Word): Word {
      Add(Add(Add(Add(h, bigSigma1(e)), ch(e, f, g)), kt), wt)
    }

    function T2(a: Word, b: Word, c: Word): Word { Add(bigSigma0(a), maj(a, b, c)) }

    function Round(s: Hash, kt: Word, wt: Word): Hash {
      var t1 := T1(s.e, s.f, s.g, s.h, kt, wt);
      Hash(Add(t1, T2(s.a, s.b, s.c)), s.a, s.b, s.c, Add(s.d, t1), s.e, s.f, s.g)
    }

    function Rounds(s: Hash, w: seq<Word>, t: nat): Hash
      requires t <= |k| && t <= |w|
      decreases t
    {
      if t == 0 then s else Round(Rounds(s, w, t - 1), k[t - 1], w[t - 1])
    }

    function Compress(h: Hash, block: Block): Hash {
      AddHash(h, Rounds(h, Schedule(block, |k|), |k|))
    }

    function Hasher(): HashFunction { HashFunction((h: Hash, b: Block) => Compress(h, b), iv) }
  }

  /** The Merkle-Damgard construction over any compression function. */
  datatype HashFunction = HashFunction(compress: (Hash, Block) -> Hash, iv: Hash) {
    function Chain(bs: seq<Block>): Hash
      decreases |bs|
    {
      if bs == [] then iv else compress(Chain(bs[..|bs| - 1]), bs[|bs| - 1])
    }

    function Digest(m: seq<Byte>): Hash { Chain(Blocks(Pad(m))) }

    function Hash256(m: seq<Byte>): string { HexWords(Words(Digest(m))) }
  }

  const FIPS180: Sha2 := Sha2(Sigma0, Sigma1, BigSigma0, BigSigma1, Ch, Maj, K, IV)
}
