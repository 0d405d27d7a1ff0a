/**
 The 64 rounds are a bijection on the eight words, for any block, and any sixteen consecutive
 words of the message schedule determine the block.
 */
module Sha256Rounds {
  import opened Sha256Spec

  function Sub(x: Word, y: Word): Word { ((x as int - y as int) % 0x1_0000_0000) as Word }

  lemma AddSub(x: Word, y: Word)
    ensures Sub(Add(x, y), y) == x && Sub(Add(y, x), y) == x
    ensures Add(Sub(x, y), y) == x && Add(y, Sub(x, y)) == x
  {
  }

  function UnT1(sha: Sha2, t1: Word, e: Word, f: Word, g: Word, k: Word, w: Word): Word {
    Sub(Sub(Sub(Sub(t1, w), k), sha.ch(e, f, g)), sha.bigSigma1(e))
  }

  /** Undoes one round: seven words are still there, and the eighth is solved for. */
  function UnRound(sha: Sha2, s: Hash, k: Word, w: Word): Hash {
    var t1 := Sub(s.a, sha.T2(s.b, s.c, s.d));
    Hash(s.b, s.c, s.d, Sub(s.e, t1), s.f, s.g, s.h, UnT1(sha, t1, s.f, s.g, s.h, k, w))
  }

  /** Undoes t rounds, the last one first. */
  function UnRounds(sha: Sha2, s: Hash, w: seq<Word>, t: nat): Hash
    requires t <= |sha.k| && t <= |w|
    decreases t
  {
    if t == 0 then s else UnRounds(sha, UnRound(sha, s, sha.k[t - 1], w[t - 1]), w, t - 1)
  }

  lemma UnT1Inverts(sha: Sha2, e: Word, f: Word, g: Word, h: Word, k: Word, w: Word)
    ensures UnT1(sha, sha.T1(e, f, g, h, k, w), e, f, g, k, w) == h
    ensures sha.T1(e, f, g, UnT1(sha, h, e, f, g, k, w), k, w) == h
  {
    var x1 := Add(h, sha.bigSigma1(e));
    var x2 := Add(x1, sha.ch(e, f, g));
    AddSub(Add(x2, k), w);
    AddSub(x2, k);
    AddSub(x1, sha.ch(e, f, g));
    AddSub(h, sha.bigSigma1(e));
    var y1 := Sub(h, w);
    var y2 := Sub(y1, k);
    AddSub(h, w);
    AddSub(y1, k);
    AddSub(y2, sha.ch(e, f, g));
    AddSub(Sub(y2, sha.ch(e, f, g)), sha.bigSigma1(e));
  }

  lemma RoundInverse(sha: Sha2, s: Hash, k: Word, w: Word)
    ensures UnRound(sha, sha.Round(s, k, w), k, w) == s
    ensures sha.Round(UnRound(sha, s, k, w), k, w) == s
  {
    var t1 := sha.T1(s.e, s.f, s.g, s.h, k, w);
    AddSub(t1, sha.T2(s.a, s.b, s.c));
    AddSub(s.d, t1);
    UnT1Inverts(sha, s.e, s.f, s.g, s.h, k, w);
    var u1 := Sub(s.a, sha.T2(s.b, s.c, s.d));
    AddSub(s.a, sha.T2(s.b, s.c, s.d));
    AddSub(s.e, u1);
    UnT1Inverts(sha, s.f, s.g, s.h, u1, k, w);
  }

  /** Undoing the rounds in reverse recovers the state they started from, and the other way round. */
  lemma {:induction false} UndoRounds(sha: Sha2, s: Hash, w: seq<Word>, t: nat)
    requires t <= |sha.k| && t <= |w|
    ensures UnRounds(sha, sha.Rounds(s, w, t), w, t) == s
    decreases t
  {
    if t == 0 {
    } else {
      RoundInverse(sha, sha.Rounds(s, w, t - 1), sha.k[t - 1], w[t - 1]);
      UndoRounds(sha, s, w, t - 1);
    }
  }

  lemma {:induction false} RedoRounds(sha: Sha2, s: Hash, w: seq<Word>, t: nat)
    requires t <= |sha.k| && t <= |w|
    ensures sha.Rounds(UnRounds(sha, s, w, t), w, t) == s
    decreases t
  {
    if t == 0 {
    } else {
      RoundInverse(sha, s, sha.k[t - 1], w[t - 1]);
      RedoRounds(sha, UnRound(sha, s, sha.k[t - 1], w[t - 1]), w, t - 1);
    }
  }

  /** With any schedule, the 64 rounds reach every state, and from exactly one state. */
  lemma RoundsAreBijective(sha: Sha2, w: seq<Word>, target: Hash)
    requires |w| == |sha.k|
    ensures sha.Rounds(UnRounds(sha, target, w, |w|), w, |w|) == target
    ensures forall s: Hash :: sha.Rounds(s, w, |w|) == target ==> s == UnRounds(sha, target, w, |w|)
  {
    RedoRounds(sha, target, w, |w|);
    forall s: Hash | sha.Rounds(s, w, |w|) == target ensures s == UnRounds(sha, target, w, |w|) {
      UndoRounds(sha, s, w, |w|);
    }
  }

  /* ---------- The message schedule ---------- */

  lemma {:induction false} SchedulePrefix(sha: Sha2, block: Block, m: nat, n: nat)
    requires m <= n
    ensures sha.Schedule(block, n)[..m] == sha.Schedule(block, m)
    decreases n
  {
    if m == n {
    } else {
      SchedulePrefix(sha, block, m, n - 1);
      assert sha.Schedule(block, n)[..m] == sha.Schedule(block, n - 1)[..m];
    }
  }

  /** The recurrence of the schedule, with the indices of the standard. */
  lemma ScheduleRecurrence(sha: Sha2, block: Block, n: nat, t: nat)
    requires 16 <= t < n
    ensures var w := sha.Schedule(block, n);
            w[t] == Add(Add(Add(sha.sigma1(w[t - 2]), w[t - 7]), sha.sigma0(w[t - 15])), w[t - 16])
  {
    SchedulePrefix(sha, block, t, n);
    SchedulePrefix(sha, block, t + 1, n);
    var w := sha.Schedule(block, n);
    assert w[..t + 1][t] == sha.NextWord(block, w[..t]);
  }

  /** The same recurrence solved for the oldest of its words. */
  lemma OldestWord(sha: Sha2, block: Block, n: nat, t: nat)
    requires t + 16 < n
    ensures var w := sha.Schedule(block, n);
            w[t] == Sub(w[t + 16], Add(Add(sha.sigma1(w[t + 14]), w[t + 9]), sha.sigma0(w[t + 1])))
  {
    ScheduleRecurrence(sha, block, n, t + 16);
    var w := sha.Schedule(block, n);
    AddSub(w[t], Add(Add(sha.sigma1(w[t + 14]), w[t + 9]), sha.sigma0(w[t + 1])));
  }

  ghost predicate AgreeFrom(x: seq<Word>, y: seq<Word>, t: nat, n: nat)
    requires |x| == |y|
  {
    t + n <= |x| && forall i :: t <= i < t + n ==> x[i] == y[i]
  }

  lemma {:induction false} AgreeBackwards(sha: Sha2, a: Block, b: Block, n: nat, t: nat)
    requires AgreeFrom(sha.Schedule(a, n), sha.Schedule(b, n), t, 16)
    ensures AgreeFrom(sha.Schedule(a, n), sha.Schedule(b, n), 0, t + 16)
    decreases t
  {
    if t == 0 {
    } else {
      OldestWord(sha, a, n, t - 1);
      OldestWord(sha, b, n, t - 1);
      var x, y := sha.Schedule(a, n), sha.Schedule(b, n);
      assert x[t - 1] == y[t - 1];
      assert AgreeFrom(x, y, t - 1, 16);
      AgreeBackwards(sha, a, b, n, t - 1);
      assert x[t + 15] == y[t + 15];
    }
  }

  lemma {:induction false} AgreeForwards(sha: Sha2, a: Block, b: Block, n: nat, t: nat)
    requires 16 <= t <= n && AgreeFrom(sha.Schedule(a, n), sha.Schedule(b, n), 0, t)
    ensures sha.Schedule(a, n) == sha.Schedule(b, n)
    decreases n - t
  {
    if t == n {
    } else {
      ScheduleRecurrence(sha, a, n, t);
      ScheduleRecurrence(sha, b, n, t);
      AgreeForwards(sha, a, b, n, t + 1);
    }
  }

  lemma LastDigit(n: int, d: int, m: int, e: int)
    requires n * 256 + d == m * 256 + e && 0 <= d < 256 && 0 <= e < 256
    ensures n == m && d == e
  {
  }

  lemma BytesOfWord(a: seq<Byte>, b: seq<Byte>)
    requires |a| == |b| == 4
    requires BigEndianWord(a[0], a[1], a[2], a[3]) == BigEndianWord(b[0], b[1], b[2], b[3])
    ensures a == b
  {
    var (a0, a1, a2, a3) := (a[0] as int, a[1] as int, a[2] as int, a[3] as int);
    var (b0, b1, b2, b3) := (b[0] as int, b[1] as int, b[2] as int, b[3] as int);
    LastDigit(a0 * 0x1_0000 + a1 * 0x100 + a2, a3, b0 * 0x1_0000 + b1 * 0x100 + b2, b3);
    LastDigit(a0 * 0x100 + a1, a2, b0 * 0x100 + b1, b2);
    LastDigit(a0, a1, b0, b1);
  }

  /** Word t < 16 of the schedule is made of bytes 4t to 4t + 3 of the block. */
  lemma WordOfBlock(sha: Sha2, a: Block, n: nat, t: nat)
    requires t < 16 && t < n
    ensures sha.Schedule(a, n)[t] == BigEndianWord(a[4 * t], a[4 * t + 1], a[4 * t + 2], a[4 * t + 3])
  {
    SchedulePrefix(sha, a, t + 1, n);
    assert sha.Schedule(a, n)[..t + 1][t] == sha.NextWord(a, sha.Schedule(a, t));
  }

  lemma SameWordSameBytes(sha: Sha2, a: Block, b: Block, n: nat, t: nat)
    requires t < 16 && t < n && sha.Schedule(a, n)[t] == sha.Schedule(b, n)[t]
    ensures a[4 * t..4 * t + 4] == b[4 * t..4 * t + 4]
  {
    WordOfBlock(sha, a, n, t);
    WordOfBlock(sha, b, n, t);
    BytesOfWord(a[4 * t..4 * t + 4], b[4 * t..4 * t + 4]);
  }

  lemma SameByte(sha: Sha2, a: Block, b: Block, n: nat, t: nat, r: nat)
    requires t < 16 && t < n && r < 4 && sha.Schedule(a, n)[t] == sha.Schedule(b, n)[t]
    ensures a[4 * t + r] == b[4 * t + r]
  {
    SameWordSameBytes(sha, a, b, n, t);
    assert a[4 * t..4 * t + 4][r] == a[4 * t + r] && b[4 * t..4 * t + 4][r] == b[4 * t + r];
  }

  /** Blocks with the same first sixteen words are the same block. */
  lemma FirstWordsDetermineBlock(sha: Sha2, a: Block, b: Block, n: nat)
    requires n >= 16 && AgreeFrom(sha.Schedule(a, n), sha.Schedule(b, n), 0, 16)
    ensures a == b
  {
    forall i | 0 <= i < 64 ensures a[i] == b[i] {
      SameByte(sha, a, b, n, i / 4, i % 4);
    }
  }

  /** Any sixteen consecutive schedule words determine the block and the whole schedule. */
  lemma SixteenWordsDetermineSchedule(sha: Sha2, a: Block, b: Block, n: nat, t: nat)
    requires AgreeFrom(sha.Schedule(a, n), sha.Schedule(b, n), t, 16)
    ensures a == b && sha.Schedule(a, n) == sha.Schedule(b, n)
  {
    AgreeBackwards(sha, a, b, n, t);
    AgreeForwards(sha, a, b, n, t + 16);
    FirstWordsDetermineBlock(sha, a, b, n);
  }
}
