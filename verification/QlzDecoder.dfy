/** The level 3 decoder on values: `Decode` takes one loop iteration at a time, and produces
    the text of every stream that holds a legal token sequence for it. */
module QlzDecoder {
  import opened Bytes
  import opened QlzTokens
  import opened QlzStream

  /** Conversion of a pointer difference to an unsigned 32-bit number. */
  function U32(x: int): (r: nat)
    ensures r < TWO32
    ensures 0 <= x < TWO32 ==> r == x
  {
    x % TWO32
  }

  /** The most literals taken in one iteration. */
  const LOOKAHEAD: nat := 4

  /** The next control word, if one is due. */
  function NextWord(s: seq<byte>, c: Cursor): Option<Cursor> {
    if c.word != 1 then Some(c)
    else if c.pos + 4 > |s| then None
    else Some(Cursor(c.pos + 4, Le32(s, c.pos)))
  }

  /** A back reference: the offset must stay inside the text already produced and
      the copy must end UNCOMPRESSED_END bytes before the end. */
  function MatchStep(s: seq<byte>, size: nat, c: Cursor, out: seq<byte>): (r: Option<(Cursor, seq<byte>)>)
    requires out == [] || |out| + UNCOMPRESSED_END <= size < TWO32
    ensures r.Some? ==> |out| < |r.value.1| && |r.value.1| + UNCOMPRESSED_END <= size
  {
    var (offset, len, width) := ReadMatch(Le32(s, c.pos));
    if offset > |out| || offset < MINOFFSET + 1 then None
    else if len > U32(size - 1 - |out| - UNCOMPRESSED_END + 1) then None
    else Some((Cursor(c.pos + width, c.word / 2), CopyBack(out, offset, len)))
  }

  /** A back reference is taken if and only if its offset is at least three and stays inside the
      text already produced and its copy ends UNCOMPRESSED_END bytes before the end; the text
      is then continued by its length with the bytes `offset` before. */
  lemma MatchStepExactly(s: seq<byte>, size: nat, c: Cursor, out: seq<byte>)
    requires (out == [] || |out| + UNCOMPRESSED_END <= size) && size < TWO32
    ensures var (offset, len, width) := ReadMatch(Le32(s, c.pos));
            var r := MatchStep(s, size, c, out);
            && (r.Some? <==> MINOFFSET < offset <= |out| && |out| + len + UNCOMPRESSED_END <= size)
            && (r.Some? ==> && r.value.0 == Cursor(c.pos + width, c.word / 2)
                            && |r.value.1| == |out| + len && r.value.1[..|out|] == out
                            && forall i :: |out| <= i < |r.value.1| ==> r.value.1[i] == r.value.1[i - offset])
  {
  }

  /** Literals one flag at a time, at most k of them, up to the first set bit, be it a
      match flag or the marker. */
  function TakeLits(s: seq<byte>, c: Cursor, out: seq<byte>, k: nat): (r: (Cursor, seq<byte>))
    requires c.pos + k <= |s|
    ensures |out| <= |r.1| <= |out| + k
    ensures k > 0 && c.word % 2 == 0 ==> |out| < |r.1|
    decreases k
  {
    if k == 0 || c.word % 2 == 1 then (c, out)
    else TakeLits(s, Cursor(c.pos + 1, c.word / 2), out + [s[c.pos]], k - 1)
  }

  /** The last bytes are literals whatever their flags say; control words in between
      are skipped. */
  function Tail(s: seq<byte>, size: nat, c: Cursor, out: seq<byte>): (r: Option<seq<byte>>)
    requires |out| <= size
    ensures r.Some? ==> |r.value| == size
    decreases size - |out|
  {
    if |out| == size then Some(out) else
      var c1 := if c.word == 1 then Cursor(c.pos + 4, TWO31) else c;
      if c1.pos >= |s| then None
      else Tail(s, size, Cursor(c1.pos + 1, c1.word / 2), out + [s[c1.pos]])
  }

  /** The decoder's main loop from a loop head.  `s` ends where the packet says its
      compressed data end. */
  function Decode(s: seq<byte>, size: nat, c: Cursor, out: seq<byte>): (r: Option<seq<byte>>)
    requires out == [] || |out| + UNCOMPRESSED_END <= size
    requires size < TWO32
    ensures r.Some? ==> |r.value| == size
    decreases size - |out|
  {
    match NextWord(s, c)
    case None => None
    case Some(c1) =>
      if c1.pos + 4 > |s| then None
      else if c1.word % 2 == 1 then
        match MatchStep(s, size, c1, out)
        case None => None
        case Some((c2, out')) => Decode(s, size, c2, out')
      else if |out| < size - 1 - UNCONDITIONAL_MATCHLEN - UNCOMPRESSED_END then
        var (c2, out') := TakeLits(s, c1, out, LOOKAHEAD);
        Decode(s, size, c2, out')
      else
        Tail(s, size, c1, out)
  }

  // ------------------------------------------------------------------ correctness

  function BitLen(w: nat): nat {
    if w <= 1 then 0 else 1 + BitLen(w / 2)
  }

  lemma {:induction false} BitLenOf(w: nat, n: nat)
    requires Shl(1, n) <= w < Shl(1, n + 1)
    ensures BitLen(w) == n
    decreases n
  {
    if n > 0 {
      BitLenOf(w / 2, n - 1);
    }
  }

  lemma MarkedLength(w: nat)
    requires TWO31 <= w < TWO32
    ensures BitLen(w) == 31
  {
    Bit31();
    BitLenOf(w, 31);
  }

  lemma ReadsUncons(s: seq<byte>, c: Cursor, ts: seq<Token>, end: Cursor) returns (c1: Cursor, c2: Cursor)
    requires ts != [] && Reads(s, c, ts, end)
    ensures Refill(s, c) == Some(c1)
    ensures ReadToken(s, c1) == Some((ts[0], c2))
    ensures Reads(s, c2, ts[1..], end)
  {
    assert Unseal(0);
    c1 := Refill(s, c).value;
    c2 := ReadToken(s, c1).value.1;
    var p := Parse(s, c2, |ts| - 1);
    assert ts == [ReadToken(s, c1).value.0] + p.tokens;
  }

  /** A reader at c, having produced `out`, still has the legal tokens ts to read, and
      with them the whole `text`. */
  ghost predicate Pending(s: seq<byte>, c: Cursor, ts: seq<Token>, end: Cursor, out: seq<byte>, text: seq<byte>) {
    && c.pos <= |s| && c.word >= 1
    && Reads(s, c, ts, end)
    && Legal(ts, |out|, |text|) && |out| + Span(ts) == |text|
    && Play(out, ts) == text
  }

  /** The first of the tokens still to read is legal, and so are the others after it. */
  lemma TokensStep(ts: seq<Token>, out: seq<byte>, text: seq<byte>)
    requires ts != [] && Legal(ts, |out|, |text|) && |out| + Span(ts) == |text| && Play(out, ts) == text
    ensures TokenOk(ts[0], |out|, |text|)
    ensures var out' := Apply(out, ts[0]);
            Legal(ts[1..], |out'|, |text|) && |out'| + Span(ts[1..]) == |text| && Play(out', ts[1..]) == text
  {
  }

  lemma PendingRefill(s: seq<byte>, c: Cursor, c1: Cursor, ts: seq<Token>, end: Cursor, out: seq<byte>, text: seq<byte>)
    requires Pending(s, c, ts, end, out, text) && ts != [] && Refill(s, c) == Some(c1) && c1.pos <= |s| && c1.word > 1
    ensures Pending(s, c1, ts, end, out, text)
  {
    if c.word == 1 {
      ReadsRefill(s, c, c1, ts, end);
    }
  }

  /** One token further. */
  lemma PendingStep(s: seq<byte>, c: Cursor, ts: seq<Token>, end: Cursor, out: seq<byte>, text: seq<byte>)
    returns (c1: Cursor, c2: Cursor)
    requires Pending(s, c, ts, end, out, text) && |out| < |text|
    ensures ts != [] && Refill(s, c) == Some(c1) && ReadToken(s, c1) == Some((ts[0], c2))
    ensures TokenOk(ts[0], |out|, |text|)
    ensures Pending(s, c1, ts, end, out, text)
    ensures c2.word >= 1 ==> Pending(s, c2, ts[1..], end, Apply(out, ts[0]), text)
  {
    assert ts != [];
    c1, c2 := ReadsUncons(s, c, ts, end);
    PendingRefill(s, c, c1, ts, end, out, text);
    TokensStep(ts, out, text);
  }

  /** Reading moves forward by at least the literals that must close the text. */
  lemma {:induction false} ReadsAdvance(s: seq<byte>, c: Cursor, ts: seq<Token>, end: Cursor, p: nat, size: nat)
    requires Reads(s, c, ts, end) && Legal(ts, p, size) && p + Span(ts) == size
    requires c.pos <= |s|
    ensures end.pos <= |s|
    ensures end.pos >= c.pos + (if size - p < UNCOMPRESSED_END then size - p else UNCOMPRESSED_END)
    decreases |ts|
  {
    if ts == [] {
      assert Unseal(0);
    } else {
      var c1, c2 := ReadsUncons(s, c, ts, end);
      ReadsAdvance(s, c2, ts[1..], end, p + Len(ts[0]), size);
    }
  }

  lemma TailStep(s: seq<byte>, size: nat, pos: nat, w: nat, p: nat, w1: nat, out: seq<byte>)
    requires |out| < size && p == (if w == 1 then pos + 4 else pos) && w1 == (if w == 1 then TWO31 else w) && p < |s|
    ensures Tail(s, size, Cursor(pos, w), out) == Tail(s, size, Cursor(p + 1, w1 / 2), out + [s[p]])
  {
  }

  /** How many control words are skipped before the j-th of the last bytes: one when the flags
      of the current word are used up, and one after every 31 bytes more.  A word without a
      marker is never used up. */
  function Skipped(w: nat, j: nat): nat {
    if w == 0 || j < BitLen(w) then 0 else (j - BitLen(w)) / 31 + 1
  }

  /** Where the j-th of the last bytes stands. */
  function Place(c: Cursor, j: nat): nat {
    c.pos + j + 4 * Skipped(c.word, j)
  }

  /** The cursor after one of the last bytes. */
  function TailNext(c: Cursor): Cursor {
    if c.word == 1 then Cursor(c.pos + 5, TWO31 / 2) else Cursor(c.pos + 1, c.word / 2)
  }

  lemma HalfMarked()
    ensures BitLen(TWO31 / 2) == 30
  {
    MarkedLength(TWO31);
  }

  lemma PlaceStep(c: Cursor, j: nat)
    ensures Place(c, 0) == (if c.word == 1 then c.pos + 4 else c.pos) && Place(c, j + 1) == Place(TailNext(c), j)
    ensures Place(c, 0) <= Place(c, j)
  {
    HalfMarked();
  }

  lemma TailOne(s: seq<byte>, size: nat, c: Cursor, out: seq<byte>, p: nat)
    requires |out| < size && p == if c.word == 1 then c.pos + 4 else c.pos
    ensures Tail(s, size, c, out) == if p < |s| then Tail(s, size, TailNext(c), out + [s[p]]) else None
  {
  }

  /** The end of a stream: the closing bytes are decoded if and only if the last of them lies
      inside it. */
  lemma {:induction false} TailExactly(s: seq<byte>, size: nat, c: Cursor, out: seq<byte>)
    requires |out| <= size
    ensures Tail(s, size, c, out).Some? <==> |out| == size || Place(c, size - |out| - 1) < |s|
    decreases size - |out|
  {
    if |out| < size {
      var n := size - |out| - 1;
      PlaceStep(c, n);
      var p := Place(c, 0);
      TailOne(s, size, c, out, p);
      if p < |s| {
        TailExactly(s, size, TailNext(c), out + [s[p]]);
        if n > 0 {
          PlaceStep(c, n - 1);
        }
      }
    }
  }

  lemma {:induction false} TailKeeps(s: seq<byte>, size: nat, c: Cursor, out: seq<byte>, r: seq<byte>)
    requires |out| <= size && Tail(s, size, c, out) == Some(r)
    ensures |r| == size && r[..|out|] == out
    decreases size - |out|
  {
    if |out| < size {
      var p := if c.word == 1 then c.pos + 4 else c.pos;
      TailOne(s, size, c, out, p);
      var out' := out + [s[p]];
      TailKeeps(s, size, TailNext(c), out', r);
      assert r[..|out|] == r[..|out'|][..|out|] == out;
    }
  }

  /** Each of them is the byte at its place. */
  lemma {:induction false} TailBytes(s: seq<byte>, size: nat, c: Cursor, out: seq<byte>, r: seq<byte>, j: nat)
    requires |out| + j < size && Tail(s, size, c, out) == Some(r)
    ensures |r| == size && Place(c, j) < |s| && r[|out| + j] == s[Place(c, j)]
    decreases j
  {
    PlaceStep(c, if j > 0 then j - 1 else 0);
    var p := Place(c, 0);
    TailOne(s, size, c, out, p);
    var out' := out + [s[p]];
    if j > 0 {
      TailBytes(s, size, TailNext(c), out', r, j - 1);
    } else {
      TailKeeps(s, size, TailNext(c), out', r);
      assert r[|out|] == r[..|out'|][|out|];
    }
  }

  /** Near the end a legal stream holds only literals, and skipping control words
      reads them in step with their flags. */
  lemma {:induction false} TailReads(s: seq<byte>, c: Cursor, w: nat, ts: seq<Token>, end: Cursor, out: seq<byte>,
                                     text: seq<byte>)
    requires Pending(s, c, ts, end, out, text)
    requires |out| + 11 > |text| || (ts != [] && ts[0].Lit? && |out| + 11 == |text|)
    requires w >= 1 && BitLen(c.word) == BitLen(w)
    ensures Tail(s, |text|, Cursor(c.pos, w), out) == Some(text)
    decreases |ts|
  {
    if ts != [] {
      var c1, c2 := PendingStep(s, c, ts, end, out, text);
      assert ts[0].Lit?;
      var w1 := if w == 1 then TWO31 else w;
      assert c.word == 1 <==> w == 1;
      if w == 1 {
        MarkedLength(c1.word);
        MarkedLength(TWO31);
      }
      TailReads(s, c2, w1 / 2, ts[1..], end, out + [ts[0].value], text);
      TailStep(s, |text|, c.pos, w, c1.pos, w1, out);
    }
  }

  /** A run of literals keeps the reader in step. */
  lemma {:induction false} LiteralRun(s: seq<byte>, c: Cursor, k: nat, ts: seq<Token>, end: Cursor, out: seq<byte>,
                                      text: seq<byte>)
    returns (rest: seq<Token>)
    requires Pending(s, c, ts, end, out, text) && |out| + k <= |text| && c.pos + k <= |s|
    ensures var (c', out') := TakeLits(s, c, out, k); Pending(s, c', rest, end, out', text)
    decreases k
  {
    if k == 0 || c.word % 2 == 1 {
      rest := ts;
    } else {
      LiteralStep(s, c, ts, end, out, text);
      rest := LiteralRun(s, Cursor(c.pos + 1, c.word / 2), k - 1, ts[1..], end, out + [s[c.pos]], text);
    }
  }

  lemma LiteralStep(s: seq<byte>, c: Cursor, ts: seq<Token>, end: Cursor, out: seq<byte>, text: seq<byte>)
    requires Pending(s, c, ts, end, out, text) && |out| < |text| && c.word % 2 == 0
    ensures ts != [] && c.pos < |s|
    ensures Pending(s, Cursor(c.pos + 1, c.word / 2), ts[1..], end, out + [s[c.pos]], text)
  {
    var c1, c2 := PendingStep(s, c, ts, end, out, text);
  }

  /** From this loop head the decoder produces `text`. */
  ghost predicate Decodes(s: seq<byte>, c: Cursor, out: seq<byte>, text: seq<byte>)
    requires out == [] || |out| + UNCOMPRESSED_END <= |text|
    requires |text| < TWO32
  {
    forall k {:trigger Unseal(k)} :: Unseal(k) ==> Decode(s, |text|, c, out) == Some(text)
  }

  lemma DecodeMatch(s: seq<byte>, c: Cursor, c1: Cursor, out: seq<byte>, t: Token, c2: Cursor, text: seq<byte>)
    requires |text| < TWO32 && NextWord(s, c) == Some(c1) && c1.pos + 4 <= |s| && c1.word % 2 == 1
    requires out == [] || |out| + UNCOMPRESSED_END <= |text|
    requires ReadToken(s, c1) == Some((t, c2)) && TokenOk(t, |out|, |text|)
    ensures |Apply(out, t)| + UNCOMPRESSED_END <= |text|
    ensures Decodes(s, c2, Apply(out, t), text) ==> Decodes(s, c, out, text)
  {
    assert Unseal(0);
    assert MatchStep(s, |text|, c1, out) == Some((c2, Apply(out, t)));
  }

  lemma DecodeLits(s: seq<byte>, c: Cursor, c1: Cursor, out: seq<byte>, c': Cursor, out': seq<byte>, text: seq<byte>)
    requires |text| < TWO32 && NextWord(s, c) == Some(c1) && c1.pos + 4 <= |s| && c1.word % 2 == 0
    requires |out| < |text| - 11
    requires (c', out') == TakeLits(s, c1, out, LOOKAHEAD)
    ensures |out'| + UNCOMPRESSED_END <= |text|
    ensures Decodes(s, c', out', text) ==> Decodes(s, c, out, text)
  {
    assert Unseal(0);
  }

  lemma DecodeTail(s: seq<byte>, c: Cursor, c1: Cursor, out: seq<byte>, text: seq<byte>)
    requires |text| < TWO32 && NextWord(s, c) == Some(c1) && c1.pos + 4 <= |s| && c1.word % 2 == 0
    requires |text| - 11 <= |out| <= |text| && (out == [] || |out| + UNCOMPRESSED_END <= |text|)
    requires Tail(s, |text|, c1, out) == Some(text)
    ensures Decodes(s, c, out, text)
  {
  }

  /** On a stream that holds a legal token sequence for a text, the decoder produces
      exactly that text. */
  lemma {:induction false} DecodeReads(s: seq<byte>, c: Cursor, ts: seq<Token>, end: Cursor, out: seq<byte>,
                                       text: seq<byte>)
    requires 0 < |text| < TWO32
    requires Pending(s, c, ts, end, out, text)
    requires |out| + UNCOMPRESSED_END <= |text| || (out == [] && c.word == 1 && c.pos + 8 <= |s|)
    ensures Decodes(s, c, out, text)
    decreases |text| - |out|
  {
    var c1, c2 := PendingStep(s, c, ts, end, out, text);
    assert c1.pos + 4 <= |s| by {
      if |out| + UNCOMPRESSED_END <= |text| {
        ReadsAdvance(s, c1, ts, end, |out|, |text|);
      }
    }
    if c1.word % 2 == 1 {
      DecodeMatch(s, c, c1, out, ts[0], c2, text);
      DecodeReads(s, c2, ts[1..], end, Apply(out, ts[0]), text);
    } else if |out| < |text| - 11 {
      var rest := LiteralRun(s, c1, LOOKAHEAD, ts, end, out, text);
      var (c', out') := TakeLits(s, c1, out, LOOKAHEAD);
      DecodeLits(s, c, c1, out, c', out', text);
      DecodeReads(s, c', rest, end, out', text);
    } else {
      TailReads(s, c1, c1.word, ts, end, out, text);
      DecodeTail(s, c, c1, out, text);
    }
  }
}
