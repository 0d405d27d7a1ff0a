/** The imperative SHA-256 of AuthService, proved to compute the FIPS 180-4 definition. */
module Sha256 {
  import opened Sha256Spec

  /** n >> (8 * i) for the 64-bit bit length. */
  function ShiftBytes(n: nat, i: nat): nat {
    if i == 0 then n else ShiftBytes(n, i - 1) / 256
  }

  /** The padding loop stops after the minimal number of zeros and not before. */
  lemma PaddingEnds(n: nat, zeros: nat)
    requires zeros <= ZeroBytes(n)
    ensures (n + 1 + zeros) % 64 == 56 <==> zeros == ZeroBytes(n)
  {
    PaddingIsMinimal(n, zeros);
  }

  method PadMessage(input: seq<Byte>) returns (msg: seq<Byte>)
    ensures msg == Pad(input)
  {
    msg := input;
    var bitLen := (|msg| * 8) % TWO_TO_THE_64;
    msg := msg + [0x80];
    ghost var zeros := 0;
    while |msg| % 64 != 56
      invariant 0 <= zeros <= ZeroBytes(|input|)
      invariant msg == input + [0x80] + Zeros(zeros) && |msg| == |input| + 1 + zeros
      decreases ZeroBytes(|input|) - zeros
    {
      PaddingEnds(|input|, zeros);
      msg := msg + [0];
      assert Zeros(zeros + 1) == Zeros(zeros) + [0];
      zeros := zeros + 1;
    }
    PaddingEnds(|input|, zeros);
    msg := AppendLength(msg, bitLen);
  }

  /** Appends the bit length, the most significant byte first. */
  method AppendLength(start: seq<Byte>, bitLen: nat) returns (msg: seq<Byte>)
    ensures msg == start + ToBytes(bitLen, 8)
  {
    msg := start;
    var i := 7;
    while i >= 0
      invariant -1 <= i <= 7
      invariant msg == start + ToBytes(ShiftBytes(bitLen, i + 1), 7 - i)
    {
      msg := msg + [(ShiftBytes(bitLen, i) % 256) as Byte];
      i := i - 1;
    }
  }

  /** Reads the block at offset as sixteen words. */
  method LoadBlock(ghost sha: Sha2, w: array<Word>, msg: seq<Byte>, offset: nat, ghost block: Block)
    requires w.Length == 64 && offset + 64 <= |msg| && block == msg[offset..offset + 64]
    modifies w
    ensures w[..16] == sha.Schedule(block, 16)
  {
    var i := 0;
    while i < 16
      invariant 0 <= i <= 16
      invariant w[..i] == sha.Schedule(block, i)
    {
      ghost var before := w[..i];
      var at := offset + i * 4;
      w[i] := BigEndianWord(msg[at], msg[at + 1], msg[at + 2], msg[at + 3]);
      assert w[i] == sha.NextWord(block, before);
      assert w[..i + 1] == before + [w[i]];
      i := i + 1;
    }
  }

  lemma ScheduleSum(x: Word, s0: Word, y: Word, s1: Word)
    ensures Add(Add(Add(x, s0), y), s1) == Add(Add(Add(s1, y), s0), x)
  {
    AddCommutes(Add(Add(x, s0), y), s1);
    AddCommutes(Add(x, s0), y);
    AddCommutes(x, s0);
    AddAssociates(y, s0, x);
    AddAssociates(s1, Add(y, s0), x);
    AddAssociates(s1, y, s0);
  }

  /** The source adds the four terms of the schedule in another order than the standard. */
  lemma SourceOrder(sha: Sha2, block: Block, w: seq<Word>)
    requires |w| >= 16
    ensures var t := |w|;
            sha.NextWord(block, w) == Add(Add(Add(w[t - 16], sha.sigma0(w[t - 15])), w[t - 7]), sha.sigma1(w[t - 2]))
  {
    var t := |w|;
    ScheduleSum(w[t - 16], sha.sigma0(w[t - 15]), w[t - 7], sha.sigma1(w[t - 2]));
  }

  lemma AddCommutes(x: Word, y: Word)
    ensures Add(x, y) == Add(y, x)
  {
  }

  /** A remainder may be taken before adding. */
  lemma RemainderFirst(a: nat, b: nat)
    ensures (a % 0x1_0000_0000 + b) % 0x1_0000_0000 == (a + b) % 0x1_0000_0000
  {
    var q, r := a / 0x1_0000_0000, a % 0x1_0000_0000;
    var p, d := (r + b) / 0x1_0000_0000, (r + b) % 0x1_0000_0000;
    assert a + b == (q + p) * 0x1_0000_0000 + d;
  }

  lemma AddAssociates(x: Word, y: Word, z: Word)
    ensures Add(x, Add(y, z)) == Add(Add(x, y), z)
  {
    RemainderFirst(y as int + z as int, x as int);
    RemainderFirst(x as int + y as int, z as int);
  }

  /** Word i of the schedule, from the sixteen before it. */
  method ExtendSchedule(sha: Sha2, w: array<Word>, i: nat, ghost block: Block)
    requires w.Length == 64 && 16 <= i < 64 && w[..i] == sha.Schedule(block, i)
    modifies w
    ensures w[..i + 1] == sha.Schedule(block, i + 1)
  {
    ghost var before := w[..i];
    var s0 := sha.sigma0(w[i - 15]);
    var s1 := sha.sigma1(w[i - 2]);
    SourceOrder(sha, block, before);
    w[i] := Add(Add(Add(w[i - 16], s0), w[i - 7]), s1);
    assert w[..i + 1] == before + [w[i]];
  }

  /** Fills the schedule array for the block at offset. */
  method ExpandSchedule(sha: Sha2, w: array<Word>, msg: seq<Byte>, offset: nat, ghost block: Block)
    requires w.Length == 64 && offset + 64 <= |msg| && block == msg[offset..offset + 64]
    modifies w
    ensures w[..] == sha.Schedule(block, w.Length)
  {
    LoadBlock(sha, w, msg, offset, block);
    var i := 16;
    while i < 64
      invariant 16 <= i <= w.Length
      invariant w[..i] == sha.Schedule(block, i)
    {
      ExtendSchedule(sha, w, i, block);
      i := i + 1;
    }
    assert w[..] == w[..i];
  }

  /** The 64 rounds on the rotating variables a to hh, and the feed-forward. */
  method ProcessBlock(sha: Sha2, h: Hash, w: array<Word>) returns (r: Hash)
    requires w.Length == 64
    ensures r == AddHash(h, sha.Rounds(h, w[..], |sha.k|))
  {
    var a, b, c, d := h.a, h.b, h.c, h.d;
    var e, f, g, hh := h.e, h.f, h.g, h.h;
    var i := 0;
    while i < 64
      invariant 0 <= i <= 64
      invariant Hash(a, b, c, d, e, f, g, hh) == sha.Rounds(h, w[..], i)
    {
      var S1 := sha.bigSigma1(e);
      var ch := sha.ch(e, f, g);
      var temp1 := Add(Add(Add(Add(hh, S1), ch), sha.k[i]), w[i]);
      var S0 := sha.bigSigma0(a);
      var maj := sha.maj(a, b, c);
      var temp2 := Add(S0, maj);
      hh := g; g := f; f := e; e := Add(d, temp1);
      d := c; c := b; b := a; a := Add(temp1, temp2);
      i := i + 1;
    }
    r := Hash(Add(h.a, a), Add(h.b, b), Add(h.c, c), Add(h.d, d), Add(h.e, e), Add(h.f, f), Add(h.g, g), Add(h.h, hh));
  }

  method ToHex(ws: seq<Word>) returns (s: string)
    ensures s == HexWords(ws)
  {
    s := "";
    for i := 0 to |ws|
      invariant s == HexWords(ws[..i])
    {
      s := s + HexWord(ws[i]);
      assert ws[..i + 1][..i] == ws[..i];
    }
    assert ws[..|ws|] == ws;
  }

  lemma PadIsWholeBlocks(m: seq<Byte>)
    ensures |Pad(m)| == |m| + 1 + ZeroBytes(|m|) + 8 && |Pad(m)| % 64 == 0
  {
    PaddingIsMinimal(|m|, 0);
    var z, tail := Zeros(ZeroBytes(|m|)), ToBytes(BitLength(|m|), 8);
    assert |z| == ZeroBytes(|m|);
    assert |m + [0x80] + z + tail| == |m| + 1 + |z| + |tail|;
    EightMoreFill(|m| + 1 + |z|);
  }

  lemma EightMoreFill(n: nat)
    requires n % 64 == 56
    ensures (n + 8) % 64 == 0
  {
  }

  /** f is the hash function built on the compression of sha. */
  ghost predicate BuiltOn(f: HashFunction, sha: Sha2) {
    && f.iv == sha.iv
    && forall h: Hash, b: Block {:trigger sha.Compress(h, b)} :: sha.Compress(h, b) == f.compress(h, b)
  }

  /** One iteration of the loop over the blocks. */
  method HashBlock(sha: Sha2, h: Hash, w: array<Word>, msg: seq<Byte>, offset: nat, ghost f: HashFunction)
    returns (r: Hash)
    requires w.Length == 64 && offset + 64 <= |msg| && BuiltOn(f, sha)
    modifies w
    ensures r == f.compress(h, msg[offset..offset + 64])
  {
    ExpandSchedule(sha, w, msg, offset, msg[offset..offset + 64]);
    r := ProcessBlock(sha, h, w);
    assert r == sha.Compress(h, msg[offset..offset + 64]);
  }

  method HashBlocks(sha: Sha2, msg: seq<Byte>, ghost f: HashFunction) returns (h: Hash)
    requires |msg| % 64 == 0 && BuiltOn(f, sha)
    ensures h == f.Chain(Blocks(msg))
  {
    ghost var bs := Blocks(msg);
    h := sha.iv;
    var w := new Word[64];
    var offset := 0;
    ghost var n := 0;
    while offset < |msg|
      invariant offset == 64 * n && n <= |bs|
      invariant h == f.Chain(bs[..n])
    {
      assert bs[n] == msg[offset..offset + 64];
      h := HashBlock(sha, h, w, msg, offset, f);
      offset := offset + 64;
      n := n + 1;
      assert bs[..n][..n - 1] == bs[..n - 1];
    }
    assert bs[..n] == bs;
  }

  method Sha256(input: seq<Byte>) returns (hex: string)
    ensures hex == FIPS180.Hasher().Hash256(input)
  {
    var msg := PadMessage(input);
    PadIsWholeBlocks(input);
    var h := HashBlocks(FIPS180, msg, FIPS180.Hasher());
    hex := ToHex([h.a, h.b, h.c, h.d, h.e, h.f, h.g, h.h]);
  }
}
