/**
 Two different messages with the same SHA-256 string give two different inputs of the
 compression function with the same output, found on the two chains of blocks. It rests on
 reversible padding, injective hexadecimal output and a walk back along the chains.
 */
module Sha256Collision {
  import opened Sha256Spec
  import Code = Sha256

  /* ---------- Padding can be undone ---------- */

  function FromBytes(bs: seq<Byte>): nat {
    if bs == [] then 0 else FromBytes(bs[..|bs| - 1]) * 256 + bs[|bs| - 1] as int
  }

  function Power256(k: nat): nat { if k == 0 then 1 else 256 * Power256(k - 1) }

  lemma {:induction false} BytesRoundTrip(n: nat, k: nat)
    requires n < Power256(k)
    ensures FromBytes(ToBytes(n, k)) == n
  {
    if k == 0 {
    } else {
      BytesRoundTrip(n / 256, k - 1);
      assert ToBytes(n, k)[..k - 1] == ToBytes(n / 256, k - 1);
    }
  }

  /** Recovers a message from its padded form: the last eight bytes hold its length in bits. */
  function Unpad(p: seq<Byte>): seq<Byte>
    requires |p| >= 8
  {
    var n := FromBytes(p[|p| - 8..]) / 8;
    if n <= |p| then p[..n] else []
  }

  lemma EightBytesHold64Bits()
    ensures Power256(8) == TWO_TO_THE_64
  {
    assert Power256(4) == 0x1_0000_0000;
  }

  lemma LengthField(m: seq<Byte>)
    requires |m| < TWO_TO_THE_61
    ensures |Pad(m)| >= 8 && FromBytes(Pad(m)[|Pad(m)| - 8..]) == 8 * |m|
  {
    var tail := ToBytes(BitLength(|m|), 8);
    assert Pad(m)[|Pad(m)| - 8..] == tail;
    EightBytesHold64Bits();
    assert BitLength(|m|) == 8 * |m|;
    BytesRoundTrip(8 * |m|, 8);
  }

  lemma UnpadInverts(m: seq<Byte>)
    requires |m| < TWO_TO_THE_61
    ensures |Pad(m)| >= 8 && Unpad(Pad(m)) == m
  {
    LengthField(m);
    assert Pad(m)[..|m|] == m;
  }

  /* ---------- The hexadecimal output can be undone ---------- */

  function DigitValue(c: char): nat {
    if '0' <= c <= '9' then c as int - '0' as int
    else if 'a' <= c <= 'f' then c as int - 'a' as int + 10 else 0
  }

  function HexValue(s: string): nat {
    if s == "" then 0 else HexValue(s[..|s| - 1]) * 16 + DigitValue(s[|s| - 1])
  }

  function Power16(k: nat): nat { if k == 0 then 1 else 16 * Power16(k - 1) }

  lemma DigitRoundTrip(d: nat)
    requires d < 16
    ensures DigitValue(HexDigit(d)) == d
  {
  }

  lemma {:induction false} HexNumberRoundTrip(n: nat, k: nat)
    requires k >= 1 && n < Power16(k)
    ensures HexValue(HexNumber(n)) == n && |HexNumber(n)| <= k
    decreases k
  {
    if n < 16 {
      DigitRoundTrip(n);
      assert HexNumber(n)[..0] == "";
    } else {
      HexNumberRoundTrip(n / 16, k - 1);
      DigitRoundTrip(n % 16);
      assert HexNumber(n)[..|HexNumber(n)| - 1] == HexNumber(n / 16);
    }
  }

  lemma {:induction false} FillKeepsValue(zeros: string, s: string)
    requires forall i :: 0 <= i < |zeros| ==> zeros[i] == '0'
    ensures HexValue(zeros + s) == HexValue(s)
    decreases |zeros| + |s|
  {
    var all := zeros + s;
    if all == "" {
    } else if s != "" {
      assert all[..|all| - 1] == zeros + s[..|s| - 1];
      FillKeepsValue(zeros, s[..|s| - 1]);
    } else {
      assert all[..|all| - 1] == zeros[..|zeros| - 1] + "";
      FillKeepsValue(zeros[..|zeros| - 1], "");
    }
  }

  /** A word is written as exactly eight digits, from which it can be read back. */
  lemma HexWordRoundTrip(w: Word)
    ensures |HexWord(w)| == 8 && HexValue(HexWord(w)) == w as int
  {
    assert Power16(8) == 0x1_0000_0000 by {
      assert Power16(4) == 0x1_0000;
      assert Power16(6) == 0x100_0000;
    }
    var s := HexNumber(w as int);
    HexNumberRoundTrip(w as int, 8);
    if |s| < 8 {
      FillKeepsValue(seq(8 - |s|, _ => '0'), s);
    }
  }

  lemma {:induction false} HexWordsInjective(v: seq<Word>, w: seq<Word>)
    requires |v| == |w| && HexWords(v) == HexWords(w)
    ensures v == w
    decreases |v|
  {
    if v == [] {
    } else {
      var n := |v| - 1;
      HexWordRoundTrip(v[n]);
      HexWordRoundTrip(w[n]);
      var s, t := HexWords(v), HexWords(w);
      assert s[|s| - 8..] == HexWord(v[n]) && t[|t| - 8..] == HexWord(w[n]);
      assert s[..|s| - 8] == HexWords(v[..n]) && t[..|t| - 8] == HexWords(w[..n]);
      HexWordsInjective(v[..n], w[..n]);
      assert v == v[..n] + [v[n]] && w == w[..n] + [w[n]];
    }
  }

  /* ---------- From a collision of messages to a collision of the compression ---------- */

  /** The input of the compression function at block i of a chain. */
  function InputAt(f: HashFunction, bs: seq<Block>, i: nat): (Hash, Block)
    requires i < |bs|
  {
    (f.Chain(bs[..i]), bs[i])
  }

  /** Blocks i and j of two chains collide: different inputs of the compression, one output. */
  ghost predicate CollisionAt(f: HashFunction, bs: seq<Block>, i: nat, cs: seq<Block>, j: nat) {
    && i < |bs| && j < |cs|
    && var (h, b), (g, c) := InputAt(f, bs, i), InputAt(f, cs, j);
       (h, b) != (g, c) && f.compress(h, b) == f.compress(g, c)
  }

  /** Two chains of the same length that end equal but read different blocks collide somewhere. */
  lemma {:induction false} WalkBack(f: HashFunction, bs: seq<Block>, cs: seq<Block>) returns (i: nat)
    requires |bs| == |cs| && bs != cs && f.Chain(bs) == f.Chain(cs)
    ensures CollisionAt(f, bs, i, cs, i)
    decreases |bs|
  {
    var m := |bs| - 1;
    if InputAt(f, bs, m) != InputAt(f, cs, m) {
      i := m;
    } else {
      assert bs == bs[..m] + [bs[m]] && cs == cs[..m] + [cs[m]];
      i := WalkBack(f, bs[..m], cs[..m]);
      assert bs[..m][..i] == bs[..i] && cs[..m][..i] == cs[..i];
    }
  }

  /** The blocks of a padded message spell it out. */
  lemma BlocksInjective(p: seq<Byte>, q: seq<Byte>)
    requires |p| % 64 == 0 && |q| % 64 == 0 && Blocks(p) == Blocks(q)
    ensures p == q
  {
    assert |p| == 64 * |Blocks(p)| && |q| == 64 * |Blocks(q)|;
    forall i | 0 <= i < |p| ensures p[i] == q[i] {
      var n, r := i / 64, i % 64;
      assert i == 64 * n + r;
      assert BlockAt(p, n) == Blocks(p)[n] && BlockAt(q, n) == Blocks(q)[n];
      assert p[i] == BlockAt(p, n)[r] && q[i] == BlockAt(q, n)[r];
    }
  }

  /** The last block of a padded message ends in its length. */
  lemma LastBlockHoldsLength(m: seq<Byte>)
    requires |m| < TWO_TO_THE_61
    ensures var bs := Blocks(Pad(m)); bs != [] && FromBytes(bs[|bs| - 1][56..]) == 8 * |m|
  {
    LengthField(m);
    Code.PadIsWholeBlocks(m);
    var p, bs := Pad(m), Blocks(Pad(m));
    assert |p| == 64 * |bs|;
    assert bs[|bs| - 1] == BlockAt(p, |bs| - 1);
    assert bs[|bs| - 1][56..] == p[|p| - 8..];
  }

  lemma DifferentLengthsDifferentEnds(m: seq<Byte>, m': seq<Byte>)
    requires |m| < TWO_TO_THE_61 && |m'| < TWO_TO_THE_61 && |m| != |m'|
    ensures var bs, cs := Blocks(Pad(m)), Blocks(Pad(m'));
      bs != [] && cs != [] && bs[|bs| - 1] != cs[|cs| - 1]
  {
    LastBlockHoldsLength(m);
    LastBlockHoldsLength(m');
  }

  lemma SameLengthSameBlocks(m: seq<Byte>, m': seq<Byte>)
    requires |m| < TWO_TO_THE_61 && |m| == |m'| && m != m'
    ensures |Blocks(Pad(m))| == |Blocks(Pad(m'))| && Blocks(Pad(m)) != Blocks(Pad(m'))
  {
    Code.PadIsWholeBlocks(m);
    Code.PadIsWholeBlocks(m');
    UnpadInverts(m);
    UnpadInverts(m');
    if Blocks(Pad(m)) == Blocks(Pad(m')) {
      BlocksInjective(Pad(m), Pad(m'));
    }
  }

  lemma HexInjective(x: Hash, y: Hash)
    requires HexWords(Words(x)) == HexWords(Words(y))
    ensures x == y
  {
    HexWordsInjective(Words(x), Words(y));
    var v, w := Words(x), Words(y);
    assert v[0] == w[0] && v[1] == w[1] && v[2] == w[2] && v[3] == w[3];
    assert v[4] == w[4] && v[5] == w[5] && v[6] == w[6] && v[7] == w[7];
  }

  /** Chains that end equal with different last blocks collide there. */
  lemma CollideAtLast(f: HashFunction, bs: seq<Block>, cs: seq<Block>)
    requires bs != [] && cs != [] && bs[|bs| - 1] != cs[|cs| - 1] && f.Chain(bs) == f.Chain(cs)
    ensures CollisionAt(f, bs, |bs| - 1, cs, |cs| - 1)
  {
  }

  lemma ChainsCollide(f: HashFunction, m: seq<Byte>, m': seq<Byte>, bs: seq<Block>, cs: seq<Block>)
    returns (i: nat, j: nat)
    requires |m| < TWO_TO_THE_61 && |m'| < TWO_TO_THE_61 && m != m'
    requires bs == Blocks(Pad(m)) && cs == Blocks(Pad(m')) && f.Chain(bs) == f.Chain(cs)
    ensures CollisionAt(f, bs, i, cs, j)
  {
    if |m| != |m'| {
      DifferentLengthsDifferentEnds(m, m');
      i, j := |bs| - 1, |cs| - 1;
      CollideAtLast(f, bs, cs);
    } else {
      SameLengthSameBlocks(m, m');
      i := WalkBack(f, bs, cs);
      j := i;
    }
  }

  /** The reduction: equal digests of different messages yield colliding compression inputs. */
  lemma FindCollision(f: HashFunction, m: seq<Byte>, m': seq<Byte>) returns (i: nat, j: nat)
    requires |m| < TWO_TO_THE_61 && |m'| < TWO_TO_THE_61
    ensures m != m' && f.Hash256(m) == f.Hash256(m') ==> CollisionAt(f, Blocks(Pad(m)), i, Blocks(Pad(m')), j)
  {
    i, j := 0, 0;
    if m != m' && f.Hash256(m) == f.Hash256(m') {
      HexInjective(f.Digest(m), f.Digest(m'));
      i, j := ChainsCollide(f, m, m', Blocks(Pad(m)), Blocks(Pad(m')));
    }
  }
}
