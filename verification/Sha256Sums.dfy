/**
 What hashing a message computes, stated on numbers: sums modulo 2^32 without Add, the values of
 byte rows without ToBytes, and each loop as the sequence of states it passes through.
 */
module Sha256Sums {
  import opened Sha256Spec
  import opened Sha256Rounds
  import opened Sha256Collision
  import opened Sha256

  const M: int := 0x1_0000_0000

  lemma SumOfFive(a: Word, b: Word, c: Word, d: Word, e: Word)
    ensures Add(Add(Add(Add(a, b), c), d), e) as int == (a as int + b as int + c as int + d as int + e as int) % M
  {
    SumOfFour(a, b, c, d);
    RemainderFirst(a as int + b as int + c as int + d as int, e as int);
  }

  lemma SumOfFour(a: Word, b: Word, c: Word, d: Word)
    ensures Add(Add(Add(a, b), c), d) as int == (a as int + b as int + c as int + d as int) % M
  {
    RemainderFirst(a as int + b as int, c as int);
    RemainderFirst(a as int + b as int + c as int, d as int);
  }

  lemma AddReduced(a: nat, b: nat, x: Word, y: Word)
    requires x as int == a % M && y as int == b % M
    ensures Add(x, y) as int == (a + b) % M
  {
    RemainderFirst(a, y as int);
    RemainderFirst(b, a);
  }

  /** Temporary word 1 of a round, before reduction. */
  function Mixed(sha: Sha2, s: Hash, k: Word, w: Word): nat {
    s.h as int + sha.bigSigma1(s.e) as int + sha.ch(s.e, s.f, s.g) as int + k as int + w as int
  }

  /** Temporary word 2 of a round, before reduction. */
  function Chosen(sha: Sha2, s: Hash): nat {
    sha.bigSigma0(s.a) as int + sha.maj(s.a, s.b, s.c) as int
  }

  /** One round: six words move along, and two are sums. */
  ghost predicate IsRound(sha: Sha2, s: Hash, k: Word, w: Word, s': Hash) {
    && s'.b == s.a && s'.c == s.b && s'.d == s.c && s'.f == s.e && s'.g == s.f && s'.h == s.g
    && s'.e as int == (s.d as int + Mixed(sha, s, k, w)) % M
    && s'.a as int == (Mixed(sha, s, k, w) + Chosen(sha, s)) % M
  }

  lemma RoundIsRound(sha: Sha2, s: Hash, k: Word, w: Word)
    ensures IsRound(sha, s, k, w, sha.Round(s, k, w))
  {
    SumOfFive(s.h, sha.bigSigma1(s.e), sha.ch(s.e, s.f, s.g), k, w);
    AddReduced(s.d as int, Mixed(sha, s, k, w), s.d, sha.T1(s.e, s.f, s.g, s.h, k, w));
    AddReduced(Mixed(sha, s, k, w), Chosen(sha, s), sha.T1(s.e, s.f, s.g, s.h, k, w), sha.T2(s.a, s.b, s.c));
  }

  function Recurrence(sha: Sha2, w: seq<Word>, t: nat): int
    requires 16 <= t < |w|
  {
    sha.sigma1(w[t - 2]) as int + w[t - 7] as int + sha.sigma0(w[t - 15]) as int + w[t - 16] as int
  }

  /** The sixteen words of a block, most significant byte first, and 48 words by the recurrence. */
  ghost predicate IsSchedule(sha: Sha2, block: Block, w: seq<Word>) {
    && |w| == 64
    && (forall t :: 0 <= t < 16 ==> w[t] as int == FromBytes(block[4 * t..4 * t + 4]))
    && (forall t :: 16 <= t < 64 ==> w[t] as int == Recurrence(sha, w, t) % M)
  }

  lemma WordValue(bs: seq<Byte>)
    requires |bs| == 4
    ensures BigEndianWord(bs[0], bs[1], bs[2], bs[3]) as int == FromBytes(bs)
  {
    assert bs == [bs[0], bs[1], bs[2], bs[3]];
    assert bs[..3][..2] == bs[..2] && bs[..2][..1] == bs[..1] && bs[..1][..0] == [];
    assert FromBytes(bs[..1]) == bs[0] as int;
    assert FromBytes(bs[..2]) == bs[0] as int * 256 + bs[1] as int;
    assert FromBytes(bs[..3]) == (bs[0] as int * 256 + bs[1] as int) * 256 + bs[2] as int;
  }

  lemma WordOfBytes(sha: Sha2, block: Block, n: nat, t: nat)
    requires t < 16 <= n
    ensures sha.Schedule(block, n)[t] as int == FromBytes(block[4 * t..4 * t + 4])
  {
    WordOfBlock(sha, block, n, t);
    WordValue(block[4 * t..4 * t + 4]);
  }

  lemma WordOfRecurrence(sha: Sha2, block: Block, n: nat, t: nat)
    requires 16 <= t < n
    ensures sha.Schedule(block, n)[t] as int == Recurrence(sha, sha.Schedule(block, n), t) % M
  {
    var w := sha.Schedule(block, n);
    ScheduleRecurrence(sha, block, n, t);
    SumOfFour(sha.sigma1(w[t - 2]), w[t - 7], sha.sigma0(w[t - 15]), w[t - 16]);
  }

  lemma ScheduleIsSchedule(sha: Sha2, block: Block, n: nat)
    requires n == 64
    ensures IsSchedule(sha, block, sha.Schedule(block, n))
  {
    var w := sha.Schedule(block, n);
    forall t | 0 <= t < 16 ensures w[t] as int == FromBytes(block[4 * t..4 * t + 4]) {
      WordOfBytes(sha, block, n, t);
    }
    forall t | 16 <= t < 64 ensures w[t] as int == Recurrence(sha, w, t) % M {
      WordOfRecurrence(sha, block, n, t);
    }
  }

  /** The states before each of the 64 rounds, and after the last. */
  ghost predicate AreRounds(sha: Sha2, w: seq<Word>, s: seq<Hash>)
    requires |w| == 64
  {
    |s| == 65 && forall t :: 0 <= t < 64 ==> IsRound(sha, s[t], sha.k[t], w[t], s[t + 1])
  }

  ghost predicate IsSum(x: Hash, y: Hash, z: Hash) {
    && z.a as int == (x.a as int + y.a as int) % M
    && z.b as int == (x.b as int + y.b as int) % M
    && z.c as int == (x.c as int + y.c as int) % M
    && z.d as int == (x.d as int + y.d as int) % M
    && z.e as int == (x.e as int + y.e as int) % M
    && z.f as int == (x.f as int + y.f as int) % M
    && z.g as int == (x.g as int + y.g as int) % M
    && z.h as int == (x.h as int + y.h as int) % M
  }

  lemma {:induction false} RoundStates(sha: Sha2, h: Hash, w: seq<Word>, n: nat) returns (s: seq<Hash>)
    requires n <= |sha.k| && n <= |w|
    ensures |s| == n + 1 && s[0] == h && s[n] == sha.Rounds(h, w, n)
    ensures forall t :: 0 <= t < n ==> IsRound(sha, s[t], sha.k[t], w[t], s[t + 1])
  {
    if n == 0 {
      s := [h];
    } else {
      var before := RoundStates(sha, h, w, n - 1);
      RoundIsRound(sha, before[n - 1], sha.k[n - 1], w[n - 1]);
      s := before + [sha.Rounds(h, w, n)];
    }
  }

  lemma StatesOf(sha: Sha2, h: Hash, block: Block, n: nat) returns (w: seq<Word>, s: seq<Hash>)
    requires n == |sha.k|
    ensures IsSchedule(sha, block, w) && AreRounds(sha, w, s)
    ensures s[0] == h && s[n] == sha.Rounds(h, sha.Schedule(block, n), n)
  {
    w := sha.Schedule(block, n);
    ScheduleIsSchedule(sha, block, n);
    s := RoundStates(sha, h, w, n);
  }

  lemma SumOfHashes(x: Hash, y: Hash)
    ensures IsSum(x, y, AddHash(x, y))
  {
  }

  /** Compression: a schedule and 64 rounds from h, whose result is added to h. */
  lemma CompressionStates(sha: Sha2, h: Hash, block: Block) returns (w: seq<Word>, s: seq<Hash>)
    ensures IsSchedule(sha, block, w) && AreRounds(sha, w, s)
    ensures s[0] == h && IsSum(h, s[64], sha.Compress(h, block))
  {
    w, s := StatesOf(sha, h, block, |sha.k|);
    assert sha.Compress(h, block) == AddHash(h, s[64]);
    SumOfHashes(h, s[64]);
  }

  /** The hash of a chain: from the initial value, one compression a block, first block first. */
  lemma {:induction false} ChainStates(f: HashFunction, bs: seq<Block>) returns (s: seq<Hash>)
    ensures |s| == |bs| + 1 && s[0] == f.iv && s[|bs|] == f.Chain(bs)
    ensures forall i :: 0 <= i < |bs| ==> s[i + 1] == f.compress(s[i], bs[i])
    decreases |bs|
  {
    if bs == [] {
      s := [f.iv];
    } else {
      var before := ChainStates(f, bs[..|bs| - 1]);
      s := before + [f.Chain(bs)];
    }
  }

  /** The message, 0x80, zeros up to a whole block, and the length in bits modulo 2^64. */
  lemma PaddingLayout(m: seq<Byte>)
    ensures var p := Pad(m);
      && |p| % 64 == 0 && |m| + 9 <= |p| <= |m| + 72
      && p[..|m|] == m && p[|m|] == 0x80
      && (forall i :: |m| < i < |p| - 8 ==> p[i] == 0)
      && FromBytes(p[|p| - 8..]) == 8 * |m| % TWO_TO_THE_64
  {
    PadIsWholeBlocks(m);
    var tail := ToBytes(BitLength(|m|), 8);
    assert Pad(m)[|Pad(m)| - 8..] == tail;
    EightBytesHold64Bits();
    BytesRoundTrip(BitLength(|m|), 8);
  }

  lemma ByteOfBlocks(p: seq<Byte>, j: nat)
    requires |p| % 64 == 0 && j < |p|
    ensures Blocks(p)[j / 64][j % 64] == p[j]
  {
    assert BlockAt(p, j / 64)[j % 64] == p[64 * (j / 64) + j % 64];
  }

  /** The states of a hash computation: from the initial value, one compression a block. */
  ghost predicate AreStates(sha: Sha2, bs: seq<Block>, s: seq<Hash>) {
    |s| == |bs| + 1 && s[0] == sha.iv && forall i :: 0 <= i < |bs| ==> s[i + 1] == sha.Compress(s[i], bs[i])
  }

  /** A string of 64 digits, eight for the value of each word. */
  ghost predicate AreDigits(hex: string, ws: seq<Word>) {
    |ws| == 8 && |hex| == 64 && forall i :: 0 <= i < 8 ==> HexValue(hex[8 * i..8 * i + 8]) == ws[i] as int
  }

  /** Hashing a message: the states over its padded blocks, and the digits of the last one. */
  lemma HashStates(sha: Sha2, m: seq<Byte>) returns (s: seq<Hash>)
    ensures AreStates(sha, Blocks(Pad(m)), s)
    ensures var h := s[|s| - 1]; AreDigits(sha.Hasher().Hash256(m), [h.a, h.b, h.c, h.d, h.e, h.f, h.g, h.h])
  {
    s := ChainStates(sha.Hasher(), Blocks(Pad(m)));
    WordsAreDigits(s[|s| - 1]);
  }

  /** The eight words in order, each as eight digits with that value. */
  lemma WordsAreDigits(h: Hash)
    ensures AreDigits(HexWords(Words(h)), [h.a, h.b, h.c, h.d, h.e, h.f, h.g, h.h])
  {
    EightDigitsEach(Words(h), 0);
    forall i | 0 <= i < 8 ensures HexValue(HexWords(Words(h))[8 * i..8 * i + 8]) == Words(h)[i] as int {
      EightDigitsEach(Words(h), i);
      HexWordRoundTrip(Words(h)[i]);
    }
  }

  lemma {:induction false} EightDigitsEach(ws: seq<Word>, i: nat)
    requires i < |ws|
    ensures |HexWords(ws)| == 8 * |ws| && HexWords(ws)[8 * i..8 * i + 8] == HexWord(ws[i])
    decreases |ws|
  {
    var n := |ws| - 1;
    HexWordRoundTrip(ws[n]);
    assert HexWords(ws) == HexWords(ws[..n]) + HexWord(ws[n]);
    if n == 0 {
      assert ws[..n] == [];
    } else {
      EightDigitsEach(ws[..n], if i < n then i else 0);
    }
    AppendWord(HexWords(ws[..n]), HexWord(ws[n]), n, i);
  }

  lemma AppendWord(s: string, t: string, n: nat, i: nat)
    requires |s| == 8 * n && |t| == 8 && i <= n
    ensures |s + t| == 8 * (n + 1)
    ensures (s + t)[8 * i..8 * i + 8] == if i < n then s[8 * i..8 * i + 8] else t
  {
  }
}
