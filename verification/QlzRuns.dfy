/** How the level 3 compressor treats a text of n equal bytes: which tokens it chooses, and how
    short the packet becomes. */
module QlzRuns {
  import opened Bytes
  import opened QlzTokens
  import opened QlzStream
  import opened QlzFinder
  import opened QlzChoice
  import opened QlzPacket

  function Run(b: byte, n: nat): (s: seq<byte>)
    ensures |s| == n && forall i :: 0 <= i < n ==> s[i] == b
  {
    seq(n, i => b)
  }

  lemma SameBytes(b: byte, n: nat, p: nat, q: nat, m: nat)
    requires p + m <= n && q + m <= n
    ensures Run(b, n)[p..p + m] == Run(b, n)[q..q + m]
  {
  }

  lemma RunHash(b: byte, n: nat, p: nat, q: nat)
    requires p <= q && q + 4 <= n
    ensures HashAt(Run(b, n), p) == HashAt(Run(b, n), q)
  {
    SameBytes(b, n, p, q, 3);
    SameRow(Run(b, n), p, q);
  }

  /** Every position is filed under the one hash there is. */
  lemma {:induction false} RunFiled(b: byte, n: nat, p: nat, src: nat)
    requires p <= src && src + 4 <= n
    ensures |Filed(Run(b, n), HashAt(Run(b, n), src), p)| == p
    ensures forall i :: 0 <= i < p ==> Filed(Run(b, n), HashAt(Run(b, n), src), p)[i] == i
  {
    if p > 0 {
      RunFiled(b, n, p - 1, src);
      RunHash(b, n, p - 1, src);
    }
  }

  lemma RunCandidates(b: byte, n: nat, src: nat)
    requires src + 11 <= n
    ensures forall q :: q in Candidates(Run(b, n), src) <==> src - Min(POINTERS, src % 256) <= q < src
  {
    RunFiled(b, n, src, src);
    var m, c := Min(POINTERS, src % 256), Candidates(Run(b, n), src);
    assert |c| == m && forall i :: 0 <= i < m ==> c[i] == src - m + i;
    forall q | src - m <= q < src
      ensures q in c
    {
      assert c[q - (src - m)] == q;
    }
  }

  lemma RunScore(b: byte, n: nat, src: nat, q: int)
    requires src + 11 <= n && 0 <= q < src
    ensures Score(Run(b, n), src, q) == if q + 3 <= src then Remaining(Run(b, n), src) else 0
  {
    var s := Run(b, n);
    ScoreMeans(s, src, q);
    if q + 3 <= src {
      SameBytes(b, n, q, src, 3);
    }
  }

  /** The token at src: a copy from three bytes back, except where the counter of recorded
      positions, which is src modulo 256, has just passed zero, and at the end. */
  function RunToken(b: byte, n: nat, src: nat): (t: Token)
    requires src < n
    ensures 1 <= Len(t) <= n - src
  {
    if src + 11 <= n && src % 256 >= 3 then Match(3, Min(255, n - 4 - src)) else Lit(b)
  }

  lemma RunBest(b: byte, n: nat, src: nat)
    requires src + 11 <= n
    ensures var s := Run(b, n);
            if src % 256 >= 3 then BestOf(s, src, Candidates(s, src), src - 3, Remaining(s, src))
            else BestOf(s, src, Candidates(s, src), 0, 0)
  {
    var s := Run(b, n);
    RunCandidates(b, n, src);
    forall q | q in Candidates(s, src)
      ensures Score(s, src, q) == if q + 3 <= src then Remaining(s, src) else 0
    {
      RunScore(b, n, src, q);
    }
  }

  /** That is what the compressor chooses. */
  lemma RunChosen(b: byte, n: nat, src: nat)
    requires src < n
    ensures Chosen(Run(b, n), src, RunToken(b, n, src))
  {
    if src + 11 <= n {
      var s := Run(b, n);
      var c := Candidates(s, src);
      PickBest(s, src);
      RunBest(b, n, src);
      var (o, len) := Longest(s, src, c);
      if src % 256 >= 3 {
        BestOfUnique(s, src, c, o, len, src - 3, Remaining(s, src));
      } else {
        BestOfUnique(s, src, c, o, len, 0, 0);
      }
    }
  }

  lemma RunStep(b: byte, n: nat, src: nat)
    requires src < n
    ensures var t := RunToken(b, n, src);
            Tokenize(Run(b, n), src) == [t] + Tokenize(Run(b, n), src + Len(t))
  {
    RunChosen(b, n, src);
    TokenizeStep(Run(b, n), src, RunToken(b, n, src));
  }

  /** Three literals, then one copy of all that may be copied: a run of up to 262 bytes takes
      eight tokens. */
  lemma RunStarts(b: byte, n: nat)
    requires n >= 14
    ensures [Lit(b), Lit(b), Lit(b), Match(3, Min(255, n - 7))] <= Tokenize(Run(b, n), 0)
    ensures n <= 262 ==> |Tokenize(Run(b, n), 0)| == 8
  {
    RunStep(b, n, 0);
    RunStep(b, n, 1);
    RunStep(b, n, 2);
    RunStep(b, n, 3);
    if n <= 262 {
      RunEnds(b, n, n - 4);
    }
  }

  lemma {:induction false} RunEnds(b: byte, n: nat, src: nat)
    requires n - 11 < src <= n
    ensures |Tokenize(Run(b, n), src)| == n - src
    decreases n - src
  {
    if src < n {
      RunStep(b, n, src);
      RunEnds(b, n, src + 1);
    }
  }

  /** How many tokens it takes to come to src. */
  function Count(src: nat): nat {
    2 * (src / 256) + Min(src % 256, 3)
  }

  lemma CountStep(src: nat)
    requires src % 256 <= 3
    ensures src % 256 < 3 ==> (src + 1) % 256 == src % 256 + 1 && Count(src + 1) == Count(src) + 1
    ensures src % 256 == 3 ==> (src + 255) % 256 == 2 && Count(src + 255) == Count(src) + 1
  {
  }

  /** The place after j tokens, as long as the main loop runs. */
  lemma {:induction false} RunPrefix(b: byte, n: nat, src: nat, j: nat)
    requires src <= n && src % 256 <= 3 && j <= |Tokenize(Run(b, n), src)|
    requires src + Span(Tokenize(Run(b, n), src)[..j]) + 11 <= n
    ensures j + Count(src) == Count(src + Span(Tokenize(Run(b, n), src)[..j]))
    decreases j
  {
    if j > 0 {
      RunStep(b, n, src);
      var t := RunToken(b, n, src);
      var src' := src + Len(t);
      var rest := Tokenize(Run(b, n), src');
      assert ([t] + rest)[..j] == [t] + rest[..j - 1];
      SpanConcat([t], rest[..j - 1]);
      assert Span([t]) == Len(t);
      CountStep(src);
      RunPrefix(b, n, src', j - 1);
    }
  }

  /** All the tokens. */
  lemma {:induction false} RunLength(b: byte, n: nat, src: nat)
    requires src <= n && src % 256 <= 3
    ensures |Tokenize(Run(b, n), src)| + Count(src) <= 2 * (n / 256) + 13
    decreases n - src
  {
    if src + 11 > n {
      RunEnds(b, n, src);
    } else {
      RunStep(b, n, src);
      CountStep(src);
      var src' := src + Len(RunToken(b, n, src));
      if src' + 11 > n {
        RunEnds(b, n, src');
      } else {
        RunLength(b, n, src');
      }
    }
  }

  /** A run is never given up. */
  lemma RunGoesOn(b: byte, n: nat)
    ensures !GivesUp(Run(b, n))
  {
    var s := Run(b, n);
    var ts := Tokenize(s, 0);
    forall j | 0 < j <= |ts|
      ensures !Poor(s, ts, j)
    {
      RunWorth(b, n, j);
    }
    assert Disclosed(0);
  }

  lemma RunWorth(b: byte, n: nat, j: nat)
    requires 0 < j <= |Tokenize(Run(b, n), 0)|
    ensures !Poor(Run(b, n), Tokenize(Run(b, n), 0), j)
  {
    var s := Run(b, n);
    var ts := Tokenize(s, 0);
    if Poor(s, ts, j) {
      PoorMeans(s, ts, j);
      RunPrefix(b, n, 0, j);
      var front := ts[..j];
      StreamShort(front);
      Gain(Span(front), j, |Stream(front)|);
    }
  }

  lemma Gain(p: nat, j: nat, e: nat)
    requires j == Count(p) && j % GROUP == 0 && j > 0 && e <= 4 * j + 4 * ((j + GROUP - 1) / GROUP)
    ensures e <= p - p / 32
  {
    assert (j + GROUP - 1) / GROUP <= j / GROUP + 1;
  }

  /** The packet for n equal bytes: two tokens for 256 of them. */
  lemma RunShort(b: byte, n: nat, p: seq<byte>)
    requires |p| >= 9 && Carries(p, Run(b, n))
    ensures p[0] % 2 == 1 && |p| <= 67 + 9 * (n / 256)
  {
    var s := Run(b, n);
    RunGoesOn(b, n);
    RunLength(b, n, 0);
    TokenizeMeans(s, 0);
    StreamShort(Tokenize(s, 0));
  }

  // ------------------------------------------------------------------ one stream, byte by byte

  /** The tokens of a run of 22 bytes. */
  function Tokens22(b: byte): (ts: seq<Token>)
    ensures AllEncodable(ts)
  {
    [Lit(b), Lit(b), Lit(b), Match(3, 15), Lit(b), Lit(b), Lit(b), Lit(b)]
  }

  lemma Tokenized22(b: byte)
    ensures Tokenize(Run(b, 22), 0) == Tokens22(b)
  {
    var s := Run(b, 22);
    RunStep(b, 22, 0);
    RunStep(b, 22, 1);
    RunStep(b, 22, 2);
    RunStep(b, 22, 3);
    RunStep(b, 22, 18);
    RunStep(b, 22, 19);
    RunStep(b, 22, 20);
    RunStep(b, 22, 21);
    assert Tokenize(s, 18) == [Lit(b), Lit(b), Lit(b), Lit(b)];
  }

  lemma PayloadFrom(xs: seq<Item>, i: nat)
    requires i < |xs|
    ensures Payload(xs[i..]) == xs[i].code + Payload(xs[i + 1..])
  {
    assert xs[i..][1..] == xs[i + 1..];
  }

  lemma FlagBitsFrom(f: seq<bool>, i: nat)
    requires i < |f|
    ensures FlagBits(f[i..]) == (if f[i] then 1 else 0) + 2 * FlagBits(f[i + 1..])
  {
    assert f[i..][1..] == f[i + 1..];
  }

  lemma Payload22(b: byte, xs: seq<Item>)
    requires xs == Items(Tokens22(b))
    ensures Payload(xs) == [b, b, b, 0xf2, 0, b, b, b, b]
  {
    WordBytes(242);
    MatchCodeValues();
    assert xs[3].code == [0xf2, 0];
    PayloadFrom(xs, 7);
    PayloadFrom(xs, 6);
    PayloadFrom(xs, 5);
    PayloadFrom(xs, 4);
    assert Payload(xs[4..]) == [b, b, b, b];
    PayloadFrom(xs, 3);
    PayloadFrom(xs, 2);
    PayloadFrom(xs, 1);
    PayloadFrom(xs, 0);
    assert xs[0..] == xs;
  }

  lemma Word22(b: byte, xs: seq<Item>)
    requires xs == Items(Tokens22(b))
    ensures ControlWord(xs) == 0x8000_0008
  {
    var f := Flags(xs);
    WordMarked(f);
    FlagBitsFrom(f, 7);
    FlagBitsFrom(f, 6);
    FlagBitsFrom(f, 5);
    FlagBitsFrom(f, 4);
    FlagBitsFrom(f, 3);
    FlagBitsFrom(f, 2);
    FlagBitsFrom(f, 1);
    FlagBitsFrom(f, 0);
    assert f[0..] == f;
  }

  lemma Encode22(b: byte, xs: seq<Item>)
    requires xs == Items(Tokens22(b))
    ensures Encode(xs) == [0x08, 0x00, 0x00, 0x80, b, b, b, 0xf2, 0x00, b, b, b, b]
  {
    Payload22(b, xs);
    Word22(b, xs);
    WordBytes(0x8000_0008);
    assert Encode(xs) == Group(xs);
  }

  /** The control word with its marker and the flag of the fourth token, three literals, the
      two bytes of the match, four literals. */
  lemma RunBytes(b: byte)
    ensures Body(Run(b, 22)) == [0x08, 0x00, 0x00, 0x80, b, b, b, 0xf2, 0x00, b, b, b, b]
  {
    RunGoesOn(b, 22);
    Tokenized22(b);
    Encode22(b, Items(Tokens22(b)));
  }

  lemma HeaderAnd(p: seq<byte>, n: nat, e: seq<byte>)
    requires |p| >= 9 && p[0] == 0x4d && SizeCompressed(p) == |p| && SizeDecompressed(p) == n < 256
    requires |p| == 3 + |e| && p[3..] == e
    ensures p == [0x4d, |p|, n] + e
  {
    LowByte(p, 1);
    LowByte(p, 2);
    assert p == [p[0], p[1], p[2]] + p[3..];
  }

  lemma BodyHeld(p: seq<byte>, e: seq<byte>)
    requires Holds(p, 3, e) && |p| == 3 + |e|
    ensures p[3..] == e
  {
    assert Unseal(0);
    assert p[3..3 + |e|] == p[3..];
  }

  lemma PacketIs(p: seq<byte>, text: seq<byte>, e: seq<byte>)
    requires IsPacket(p, text) && Carries(p, text) && SizeHeader(p) == 3 && |text| < 256
    requires !GivesUp(text) && e == Body(text) && |e| >= 9
    ensures p == [0x4d, |p|, |text|] + e && |p| == 3 + |e|
  {
    BodyHeld(p, e);
    HeaderAnd(p, |text|, e);
  }

  /** The whole packet: compressed, level 3, one-byte lengths of 16 and 22. */
  lemma RunPacket(b: byte, text: seq<byte>, p: seq<byte>)
    requires text == Run(b, 22) && IsPacket(p, text) && Carries(p, text) && SizeHeader(p) == 3
    ensures p == [0x4d, 16, 22] + [0x08, 0x00, 0x00, 0x80, b, b, b, 0xf2, 0x00, b, b, b, b]
  {
    RunGoesOn(b, 22);
    RunBytes(b);
    PacketIs(p, text, [0x08, 0x00, 0x00, 0x80, b, b, b, 0xf2, 0x00, b, b, b, b]);
  }
}
