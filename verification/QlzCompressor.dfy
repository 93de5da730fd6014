/** `qlz_compress_core` at level 3: the loop that turns a text into control words,
    literals and match codes in a fixed buffer, or gives up when it gains too little. */
module QlzCompressor {
  import opened Bytes
  import opened QlzTokens
  import opened QlzStream
  import opened QlzFinder
  import opened QlzChoice

  // ------------------------------------------------------------------ the output so far

  /** Buffer contents: the complete groups `done` from `base`, room for a control word at
      `wordAt`, and the codes of the unfinished group `cur` up to d. */
  ghost predicate Layout(a: seq<byte>, base: nat, wordAt: nat, d: nat, cword: nat, done: seq<Item>, cur: seq<Item>) {
    && |done| % GROUP == 0 && |cur| <= GROUP && AllOk(done) && AllOk(cur)
    && wordAt == base + |Encode(done)| && d == wordAt + CWORD_LEN + |Payload(cur)|
    && Holds(a, base, Encode(done))
    && Holds(a, wordAt + CWORD_LEN, Payload(cur))
    && cword == Filling(Flags(cur))
  }

  /** The tokens are those chosen for the first src bytes of the text, and stand for them. */
  ghost predicate Told(text: seq<byte>, src: nat, ts: seq<Token>) {
    && src <= |text|
    && Legal(ts, 0, |text|)
    && Span(ts) == src
    && Play([], ts) == text[..src]
    && Foreseen(text, src, ts)
  }

  ghost predicate Covers(text: seq<byte>, src: nat, done: seq<Item>, cur: seq<Item>) {
    Told(text, src, Tokens(done + cur))
  }

  /** Both stretches of codes are still there, the second with the code written at d. */
  lemma CodesHeld(a: seq<byte>, b: seq<byte>, base: nat, wordAt: nat, d: nat, done: seq<Item>, cur: seq<Item>, x: Item)
    requires wordAt == base + |Encode(done)| && d == wordAt + CWORD_LEN + |Payload(cur)|
    requires Holds(a, base, Encode(done)) && Holds(a, wordAt + CWORD_LEN, Payload(cur))
    requires Agree(a, b, 0, d) && Holds(b, d, x.code)
    ensures Holds(b, base, Encode(done)) && Holds(b, wordAt + CWORD_LEN, Payload(cur + [x]))
    ensures |Payload(cur + [x])| == |Payload(cur)| + |x.code|
  {
    HoldsKept(a, b, 0, d, base, Encode(done));
    HoldsKept(a, b, 0, d, wordAt + CWORD_LEN, Payload(cur));
    PayloadHeld(b, wordAt + CWORD_LEN, cur, x);
  }

  /** A code written at d extends the unfinished group. */
  lemma LayoutAppend(a: seq<byte>, b: seq<byte>, base: nat, wordAt: nat, d: nat, cword: nat, done: seq<Item>,
                     cur: seq<Item>, x: Item)
    requires Layout(a, base, wordAt, d, cword, done, cur) && |cur| < GROUP && ItemOk(x)
    requires Agree(a, b, 0, d) && Holds(b, d, x.code)
    ensures Layout(b, base, wordAt, d + |x.code|, cword / 2 + (if x.token.Match? then TWO31 else 0), done, cur + [x])
  {
    CodesHeld(a, b, base, wordAt, d, done, cur, x);
    assert AllOk(cur + [x]);
    FillingAppend(cur, x);
  }

  lemma PayloadHeld(b: seq<byte>, pos: nat, cur: seq<Item>, x: Item)
    requires Holds(b, pos, Payload(cur)) && Holds(b, pos + |Payload(cur)|, x.code)
    ensures Holds(b, pos, Payload(cur + [x])) && |Payload(cur + [x])| == |Payload(cur)| + |x.code|
  {
    PayloadAppend(cur, x);
    HoldsJoin(b, pos, Payload(cur), x.code);
  }

  lemma FillingAppend(cur: seq<Item>, x: Item)
    ensures Filling(Flags(cur + [x])) == Filling(Flags(cur)) / 2 + (if x.token.Match? then TWO31 else 0)
  {
    var fs := Flags(cur + [x]);
    assert fs[..|cur|] == Flags(cur) && fs[|cur|] == x.token.Match?;
  }

  lemma FullWord(cur: seq<Item>)
    requires |cur| == GROUP
    ensures Filling(Flags(cur)) / 2 + TWO31 == ControlWord(cur)
  {
    FillingValue(Flags(cur));
    WordMarked(Flags(cur));
  }

  /** A control word written in front of its codes makes a group. */
  lemma GroupWritten(a: seq<byte>, b: seq<byte>, base: nat, wordAt: nat, d: nat, cword: nat, done: seq<Item>,
                     cur: seq<Item>)
    requires Layout(a, base, wordAt, d, cword, done, cur) && 1 <= |cur|
    requires Agree(a, b, 0, wordAt) && Agree(a, b, wordAt + CWORD_LEN, d)
    requires Holds(b, wordAt, LeBytes(ControlWord(cur), CWORD_LEN))
    ensures d == base + |Encode(done + cur)| && Holds(b, base, Encode(done + cur))
  {
    HoldsKept(a, b, 0, wordAt, base, Encode(done));
    HoldsKept(a, b, wordAt + CWORD_LEN, d, wordAt + CWORD_LEN, Payload(cur));
    HoldsJoin(b, wordAt, LeBytes(ControlWord(cur), CWORD_LEN), Payload(cur));
    HoldsJoin(b, base, Encode(done), Group(cur));
    EncodeConcat(done, cur);
  }

  /** Writing the control word of a full group completes it. */
  lemma LayoutFlush(a: seq<byte>, b: seq<byte>, base: nat, wordAt: nat, d: nat, cword: nat, done: seq<Item>,
                    cur: seq<Item>)
    requires Layout(a, base, wordAt, d, cword, done, cur) && |cur| == GROUP
    requires Agree(a, b, 0, wordAt) && Agree(a, b, wordAt + CWORD_LEN, d) && d + CWORD_LEN <= |b|
    requires Holds(b, wordAt, LeBytes(cword / 2 + TWO31, CWORD_LEN))
    ensures Layout(b, base, d, d + CWORD_LEN, TWO31, done + cur, [])
  {
    FullWord(cur);
    GroupWritten(a, b, base, wordAt, d, cword, done, cur);
    LayoutFresh(b, base, d, done + cur);
  }

  lemma LayoutFresh(b: seq<byte>, base: nat, d: nat, done: seq<Item>)
    requires |done| % GROUP == 0 && AllOk(done)
    requires d == base + |Encode(done)| && d + CWORD_LEN <= |b| && Holds(b, base, Encode(done))
    ensures Layout(b, base, d, d + CWORD_LEN, TWO31, done, [])
  {
    assert Flags([]) == [];
  }

  /** One more token, standing for the next bytes of the text. */
  lemma ToldAppend(text: seq<byte>, src: nat, ts: seq<Token>, t: Token)
    requires Told(text, src, ts) && src < |text| && Chosen(text, src, t) && src + Len(t) <= |text|
    requires Apply(text[..src], t) == text[..src + Len(t)]
    ensures Told(text, src + Len(t), ts + [t])
  {
    ChosenOk(text, src, t);
    ForeseenStep(text, src, ts, t);
    PlayAppend([], ts, t);
    LegalAppend(ts, t, 0, |text|);
    SpanConcat(ts, [t]);
  }

  lemma CoversAppend(text: seq<byte>, src: nat, done: seq<Item>, cur: seq<Item>, x: Item)
    requires Covers(text, src, done, cur) && src < |text| && Chosen(text, src, x.token) && src + Len(x.token) <= |text|
    requires Apply(text[..src], x.token) == text[..src + Len(x.token)]
    ensures Covers(text, src + Len(x.token), done, cur + [x])
  {
    ToldAppend(text, src, Tokens(done + cur), x.token);
    assert done + (cur + [x]) == (done + cur) + [x];
    assert Tokens((done + cur) + [x]) == Tokens(done + cur) + [x.token];
  }

  lemma CoversLiteral(text: seq<byte>, src: nat, done: seq<Item>, cur: seq<Item>, x: Item)
    requires Covers(text, src, done, cur) && src < |text| && x.token == Lit(text[src]) && Chosen(text, src, x.token)
    ensures Covers(text, src + 1, done, cur + [x])
  {
    assert text[..src] + [text[src]] == text[..src + 1];
    CoversAppend(text, src, done, cur, x);
  }

  /** An earlier occurrence of the next bytes is what the back reference copies. */
  lemma MatchCopies(text: seq<byte>, src: nat, o: nat, len: nat)
    requires o < src && src + len <= |text| && text[o..o + len] == text[src..src + len]
    ensures Apply(text[..src], Match(src - o, len)) == text[..src + len]
  {
    var r := text[..src + len];
    forall i | src <= i < src + len
      ensures r[i] == r[i - (src - o)]
    {
      assert text[o..o + len][i - src] == text[src..src + len][i - src];
    }
    assert r[..src] == text[..src];
    CopyBackUnique(text[..src], src - o, len, r);
  }

  lemma CoversMatch(text: seq<byte>, src: nat, done: seq<Item>, cur: seq<Item>, x: Item, o: nat, len: nat)
    requires Covers(text, src, done, cur) && o < src && x.token == Match(src - o, len)
    requires src < |text| && Chosen(text, src, x.token) && src + len <= |text|
    requires text[o..o + len] == text[src..src + len]
    ensures Covers(text, src + len, done, cur + [x])
  {
    MatchCopies(text, src, o, len);
    CoversAppend(text, src, done, cur, x);
  }

  lemma CoversGroup(text: seq<byte>, src: nat, done: seq<Item>, cur: seq<Item>)
    requires Covers(text, src, done, cur)
    ensures Covers(text, src, done + cur, [])
  {
    assert (done + cur) + [] == done + cur;
  }

  // ------------------------------------------------------------------ room in the buffer

  /** Past the middle of the text, complete groups have gained a thirty-second part. */
  ghost predicate Paying(done: seq<Item>, size: nat) {
    var n := Span(Tokens(done));
    n > size / 2 ==> |Encode(done)| <= n - n / 32
  }

  lemma OutputBound(done: seq<Item>, cur: seq<Item>, size: nat)
    requires |done| % GROUP == 0 && |cur| <= GROUP && AllOk(done) && AllOk(cur)
    requires Span(Tokens(done + cur)) <= size && Paying(done, size)
    ensures |Encode(done)| + 4 + |Payload(cur)| <= size + 128
  {
    var n, m := Span(Tokens(done)), Span(Tokens(cur));
    SpanSplit(done, cur);
    PayloadBound(cur);
    DoneBound(done, size);
    assert |Payload(cur)| <= m && |Payload(cur)| <= 4 * GROUP;
  }

  lemma SpanSplit(done: seq<Item>, cur: seq<Item>)
    ensures Span(Tokens(done + cur)) == Span(Tokens(done)) + Span(Tokens(cur))
  {
    assert Tokens(done + cur) == Tokens(done) + Tokens(cur);
    SpanConcat(Tokens(done), Tokens(cur));
  }

  lemma DoneBound(done: seq<Item>, size: nat)
    requires |done| % GROUP == 0 && AllOk(done) && Paying(done, size)
    ensures var n := Span(Tokens(done)); |Encode(done)| <= if n <= size / 2 then size else n
  {
    var n := Span(Tokens(done));
    if n <= size / 2 {
      EncodeBound(done);
      PayloadBound(done);
      HalfBound(|Encode(done)|, n, |done|, size);
    }
  }

  /** Less than 35/31 of at most half the text. */
  lemma HalfBound(e: nat, n: nat, count: nat, size: nat)
    requires count % GROUP == 0 && e <= n + 4 * ((count + GROUP - 1) / GROUP) && count <= n <= size / 2
    ensures e <= size
  {
    assert (count + GROUP - 1) / GROUP == count / GROUP;
    assert GROUP * (count / GROUP) == count;
  }

  // ------------------------------------------------------------------ writing codes

  /** `fast_write`: three bytes are written as four. */
  method FastWrite(a: array<byte>, f: nat, p: nat, n: nat)
    requires f < TWO32 && 1 <= n <= 4 && p + 4 <= a.Length
    modifies a
    ensures Holds(a[..], p, LeBytes(f, n))
    ensures Agree(old(a[..]), a[..], 0, p) && Agree(old(a[..]), a[..], p + 4, a.Length)
  {
    a[p] := f % 256;
    if n >= 2 {
      a[p + 1] := f / 256 % 256;
    }
    if n >= 3 {
      a[p + 2] := f / 0x1_0000 % 256;
      a[p + 3] := f / 0x100_0000 % 256;
    }
    WordBytes(f);
    assert a[..][p..p + n] == LeBytes(f, n);
    assert a[..][0..p] == old(a[..])[0..p];
    assert a[..][p + 4..a.Length] == old(a[..])[p + 4..a.Length];
  }

  method EmitMatch(a: array<byte>, d: nat, offset: nat, len: nat) returns (d': nat)
    requires Encodable(offset, len) && d + 4 <= a.Length
    modifies a
    ensures d' == d + |TokenBytes(Match(offset, len))|
    ensures Holds(a[..], d, TokenBytes(Match(offset, len)))
    ensures Agree(old(a[..]), a[..], 0, d) && Agree(old(a[..]), a[..], d + 4, a.Length)
  {
    if len == 3 && offset <= 63 {
      FastWrite(a, offset * 4, d, 1);
      d' := d + 1;
    } else if len == 3 && offset <= 16383 {
      FastWrite(a, offset * 4 + 1, d, 2);
      d' := d + 2;
    } else if len <= 18 && offset <= 1023 {
      FastWrite(a, (len - 3) * 4 + offset * 64 + 2, d, 2);
      d' := d + 2;
    } else if len <= 33 {
      FastWrite(a, (len - 2) * 4 + offset * 128 + 3, d, 3);
      d' := d + 3;
    } else {
      FastWrite(a, (len - 3) * 128 + offset * 32768 + 3, d, 4);
      d' := d + 4;
    }
  }

  // ------------------------------------------------------------------ the loops

  /** Writes the control word of a full group, marker on top, where room was kept for it. */
  method FlushGroup(a: array<byte>, base: nat, wordAt: nat, d: nat, cword: nat, ghost done: seq<Item>,
                    ghost cur: seq<Item>)
    requires Layout(a[..], base, wordAt, d, cword, done, cur) && |cur| == GROUP && d + 4 <= a.Length
    modifies a
    ensures Layout(a[..], base, d, d + CWORD_LEN, TWO31, done + cur, [])
    ensures Agree(old(a[..]), a[..], 0, base) && Agree(old(a[..]), a[..], d, a.Length)
  {
    FillingBelow(Flags(cur));
    ghost var before := a[..];
    FastWrite(a, cword / 2 + TWO31, wordAt, CWORD_LEN);
    AgreePart(before, a[..], wordAt + 4, a.Length, wordAt + 4, d);
    AgreePart(before, a[..], wordAt + 4, a.Length, d, a.Length);
    AgreePart(before, a[..], 0, wordAt, 0, base);
    LayoutFlush(before, a[..], base, wordAt, d, cword, done, cur);
  }

  /** A literal: the byte itself and a clear flag. */
  method EncodeLiteral(text: seq<byte>, src: nat, a: array<byte>, base: nat, wordAt: nat, d: nat, cword: nat,
                       ghost done: seq<Item>, ghost cur: seq<Item>)
    returns (cword': nat, ghost x: Item)
    requires src < |text| && d < a.Length && |cur| < GROUP && Chosen(text, src, Lit(text[src]))
    requires Layout(a[..], base, wordAt, d, cword, done, cur) && Covers(text, src, done, cur)
    modifies a
    ensures Layout(a[..], base, wordAt, d + 1, cword', done, cur + [x]) && Covers(text, src + 1, done, cur + [x])
    ensures Agree(old(a[..]), a[..], 0, d) && Agree(old(a[..]), a[..], d + 1, a.Length)
  {
    ghost var before := a[..];
    x := Coded(Lit(text[src]));
    a[d] := text[src];
    cword' := cword / 2;
    assert a[..][d..d + 1] == [text[src]];
    assert before[0..d] == a[..][0..d];
    assert before[d + 1..a.Length] == a[..][d + 1..a.Length];
    LayoutAppend(before, a[..], base, wordAt, d, cword, done, cur, x);
    CoversLiteral(text, src, done, cur, x);
  }

  /** A match: its code, a set flag, and every position it covers recorded. */
  method EncodeMatch(text: seq<byte>, src: nat, o: nat, matchlen: nat, a: array<byte>, base: nat, wordAt: nat, d: nat,
                     cword: nat,
                     ghost done: seq<Item>, ghost cur: seq<Item>)
    returns (d': nat, cword': nat, ghost x: Item)
    requires src + 11 <= |text| && d + 4 <= a.Length && |cur| < GROUP
    requires 3 <= matchlen <= Remaining(text, src) && o + 3 <= src && src - o < 131071
    requires text[o..o + matchlen] == text[src..src + matchlen] && Chosen(text, src, Match(src - o, matchlen))
    requires Layout(a[..], base, wordAt, d, cword, done, cur) && Covers(text, src, done, cur)
    modifies a
    ensures Layout(a[..], base, wordAt, d', cword', done, cur + [x]) && Covers(text, src + matchlen, done, cur + [x])
    ensures d < d' <= d + 4
    ensures Agree(old(a[..]), a[..], 0, d) && Agree(old(a[..]), a[..], d + 4, a.Length)
  {
    ghost var before := a[..];
    var offset := src - o;
    x := Coded(Match(offset, matchlen));
    cword' := cword / 2 + TWO31;
    d' := EmitMatch(a, d, offset, matchlen);
    LayoutAppend(before, a[..], base, wordAt, d, cword, done, cur, x);
    CoversMatch(text, src, done, cur, x, o, matchlen);
  }

  /** Writes what was chosen for the next bytes: a match, or one literal. */
  method EncodeChoice(text: seq<byte>, src: nat, use: bool, o: int, matchlen: int, a: array<byte>, base: nat,
                      wordAt: nat,
                      d: nat, cword: nat, ghost done: seq<Item>, ghost cur: seq<Item>)
    returns (src': nat, d': nat, cword': nat, ghost x: Item)
    requires src + 11 <= |text| && d + 4 <= a.Length && |cur| < GROUP
    requires use ==> 3 <= matchlen <= Remaining(text, src) && 0 <= o && o + 3 <= src && src - o < 131071
                     && text[o..o + matchlen] == text[src..src + matchlen]
    requires Chosen(text, src, if use then Match(src - o, matchlen) else Lit(text[src]))
    requires Layout(a[..], base, wordAt, d, cword, done, cur) && Covers(text, src, done, cur)
    modifies a
    ensures src' == src + if use then matchlen else 1
    ensures Layout(a[..], base, wordAt, d', cword', done, cur + [x]) && Covers(text, src', done, cur + [x])
    ensures d < d' <= d + 4
    ensures Agree(old(a[..]), a[..], 0, d) && Agree(old(a[..]), a[..], d + 4, a.Length)
  {
    if use {
      d', cword', x := EncodeMatch(text, src, o, matchlen, a, base, wordAt, d, cword, done, cur);
      src' := src + matchlen;
    } else {
      ghost var before := a[..];
      cword', x := EncodeLiteral(text, src, a, base, wordAt, d, cword, done, cur);
      src', d' := src + 1, d + 1;
      AgreePart(before, a[..], d + 1, a.Length, d + 4, a.Length);
    }
  }

  /** Everything outside base..limit is as it was. */
  ghost predicate Framed(before: seq<byte>, now: seq<byte>, base: nat, limit: nat) {
    Agree(before, now, 0, base) && Agree(before, now, limit, |before|)
  }

  lemma FrameSelf(a: seq<byte>, base: nat, limit: nat)
    requires base <= limit <= |a|
    ensures Framed(a, a, base, limit)
  {
  }

  lemma FrameTrans(before: seq<byte>, now: seq<byte>, after: seq<byte>, base: nat, limit: nat)
    requires Framed(before, now, base, limit) && Framed(now, after, base, limit) && |before| == |now|
    ensures Framed(before, after, base, limit)
  {
    AgreeTrans(before, now, after, 0, base);
    AgreeTrans(before, now, after, limit, |now|);
  }

  lemma FrameStep(before: seq<byte>, now: seq<byte>, after: seq<byte>, base: nat, limit: nat, lo: nat, hi: nat)
    requires Framed(before, now, base, limit) && |before| == |now|
    requires Agree(now, after, 0, lo) && Agree(now, after, hi, |now|) && base <= lo && hi <= limit <= |now|
    ensures Framed(before, after, base, limit)
  {
    AgreePart(now, after, 0, lo, 0, base);
    AgreeTrans(before, now, after, 0, base);
    AgreePart(now, after, hi, |now|, limit, |now|);
    AgreeTrans(before, now, after, limit, |now|);
  }

  /** Opens the definitions of Running, Closing and Stands, like Unseal for those on bytes. */
  ghost predicate Opened(k: int) {
    true
  }

  /** The state at the head of the main loop. */
  ghost predicate Running(a: seq<byte>, text: seq<byte>, src: nat, base: nat, wordAt: nat, d: nat, cword: nat,
                          done: seq<Item>, cur: seq<Item>) {
    forall k {:trigger Opened(k)} :: Opened(k) ==>
      && Layout(a, base, wordAt, d, cword, done, cur)
      && Covers(text, src, done, cur)
      && Paying(done, |text|)
      && Worth(text, |done|)
  }

  lemma OpenRunning(a: seq<byte>, text: seq<byte>, src: nat, base: nat, wordAt: nat, d: nat, cword: nat,
                    done: seq<Item>, cur: seq<Item>)
    requires Running(a, text, src, base, wordAt, d, cword, done, cur)
    ensures Layout(a, base, wordAt, d, cword, done, cur) && Covers(text, src, done, cur)
    ensures Paying(done, |text|) && Worth(text, |done|)
  {
    assert Opened(0);
  }

  lemma Room(a: seq<byte>, text: seq<byte>, src: nat, base: nat, wordAt: nat, d: nat, cword: nat, done: seq<Item>,
             cur: seq<Item>)
    requires Running(a, text, src, base, wordAt, d, cword, done, cur)
    ensures base + CWORD_LEN <= d <= base + |text| + 128 && src <= |text| && |cur| <= GROUP
    ensures cword % 2 == 1 <==> |cur| == GROUP
  {
    OpenRunning(a, text, src, base, wordAt, d, cword, done, cur);
    OutputBound(done, cur, |text|);
    FillingFull(Flags(cur));
  }

  lemma GainTest(a: seq<byte>, text: seq<byte>, src: nat, base: nat, wordAt: nat, d: nat, cword: nat,
                 done: seq<Item>, cur: seq<Item>)
    requires Layout(a, base, wordAt, d, cword, done, cur) && Covers(text, src, done, cur) && |cur| == GROUP
    requires src + 11 <= |text|
    ensures Poor(text, Tokenize(text, 0), |done| + GROUP) <==> src > |text| / 2 && d - base > src - src / 32
  {
    GroupLength(done, cur);
    assert AllOk(done + cur);
    DivMod(|done + cur|, GROUP, |done| / GROUP + 1, 0);
    PoorExactly(text, src, done + cur);
  }

  lemma GroupLength(done: seq<Item>, cur: seq<Item>)
    requires |done| % GROUP == 0 && |cur| == GROUP
    ensures |Encode(done + cur)| == |Encode(done)| + CWORD_LEN + |Payload(cur)|
  {
    EncodeConcat(done, cur);
  }

  /** The check made when a control word is full: past the middle of the text, give up
      if the output is longer than 31/32 of the input read; otherwise start a group. */
  method NextGroup(text: seq<byte>, src: nat, a: array<byte>, base: nat, wordAt: nat, d: nat, cword: nat,
                   ghost done: seq<Item>, ghost cur: seq<Item>)
    returns (ok: bool)
    requires Running(a[..], text, src, base, wordAt, d, cword, done, cur) && |cur| == GROUP && d + 4 <= a.Length
    requires src + 11 <= |text|
    modifies a
    ensures ok <==> !(src > |text| / 2 && d - base > src - src / 32)
    ensures !ok ==> GivesUp(text)
    ensures ok ==> Running(a[..], text, src, base, d, d + CWORD_LEN, TWO31, done + cur, [])
    ensures Agree(old(a[..]), a[..], 0, base) && Agree(old(a[..]), a[..], d, a.Length)
  {
    OpenRunning(a[..], text, src, base, wordAt, d, cword, done, cur);
    GainTest(a[..], text, src, base, wordAt, d, cword, done, cur);
    if src > |text| / 2 && d - base > src - src / 32 {
      return false;
    }
    WorthStep(text, |done|);
    FlushGroup(a, base, wordAt, d, cword, done, cur);
    CoversGroup(text, src, done, cur);
    assert (done + cur) + [] == done + cur;
    return true;
  }

  /** The rest of an iteration: the search decides, and its choice is written. */
  method NextToken(text: seq<byte>, src: nat, a: array<byte>, table: Table, base: nat, wordAt: nat, d: nat, cword: nat,
                   ghost done: seq<Item>, ghost cur: seq<Item>)
    returns (src': nat, d': nat, cword': nat, ghost x: Item)
    requires src + 11 <= |text| && d + 4 <= a.Length && |cur| < GROUP
    requires table.Shape() && table.Below(src) && a != table.counter && Knows(table.Value(), text, src)
    requires Running(a[..], text, src, base, wordAt, d, cword, done, cur)
    modifies a, table.slots, table.counter
    ensures src < src' <= |text| - 3 && table.Below(src') && Knows(table.Value(), text, src')
    ensures Running(a[..], text, src', base, wordAt, d', cword', done, cur + [x])
    ensures Agree(old(a[..]), a[..], 0, d) && Agree(old(a[..]), a[..], d + 4, a.Length)
  {
    ghost var before := a[..];
    var use, o, matchlen := SearchKnown(text, src, table);
    assert a[..] == before;
    src', d', cword', x := WriteToken(text, src, use, o, matchlen, a, base, wordAt, d, cword, done, cur);
  }

  method WriteToken(text: seq<byte>, src: nat, use: bool, o: int, matchlen: int, a: array<byte>, base: nat, wordAt: nat,
                    d: nat, cword: nat, ghost done: seq<Item>, ghost cur: seq<Item>)
    returns (src': nat, d': nat, cword': nat, ghost x: Item)
    requires src + 11 <= |text| && d + 4 <= a.Length && |cur| < GROUP
    requires use ==> 3 <= matchlen <= Remaining(text, src) && 0 <= o && o + 3 <= src && src - o < 131071
                     && text[o..o + matchlen] == text[src..src + matchlen]
    requires Chosen(text, src, if use then Match(src - o, matchlen) else Lit(text[src]))
    requires Running(a[..], text, src, base, wordAt, d, cword, done, cur)
    modifies a
    ensures src' == src + if use then matchlen else 1
    ensures Running(a[..], text, src', base, wordAt, d', cword', done, cur + [x])
    ensures Agree(old(a[..]), a[..], 0, d) && Agree(old(a[..]), a[..], d + 4, a.Length)
  {
    OpenRunning(a[..], text, src, base, wordAt, d, cword, done, cur);
    src', d', cword', x := EncodeChoice(text, src, use, o, matchlen, a, base, wordAt, d, cword, done, cur);
  }

  /** Makes room for one more flag: starts a group when the control word is full. */
  method OpenGroup(text: seq<byte>, src: nat, a: array<byte>, base: nat, wordAt: nat, d: nat, cword: nat,
                   ghost done: seq<Item>, ghost cur: seq<Item>)
    returns (ok: bool, wordAt': nat, d': nat, cword': nat, ghost done': seq<Item>, ghost cur': seq<Item>)
    requires Running(a[..], text, src, base, wordAt, d, cword, done, cur) && base + |text| + 391 <= a.Length
    requires src + 11 <= |text|
    modifies a
    ensures !ok ==> GivesUp(text)
    ensures ok ==> Running(a[..], text, src, base, wordAt', d', cword', done', cur') && |cur'| < GROUP
    ensures base <= d' && d' + 4 <= base + |text| + 391
    ensures Framed(old(a[..]), a[..], base, base + |text| + 391)
  {
    ghost var before := a[..];
    Room(a[..], text, src, base, wordAt, d, cword, done, cur);
    ok, wordAt', d', cword', done', cur' := true, wordAt, d, cword, done, cur;
    if cword % 2 == 1 {
      ok := NextGroup(text, src, a, base, wordAt, d, cword, done, cur);
      FrameSelf(before, base, base + |text| + 391);
      FrameStep(before, before, a[..], base, base + |text| + 391, base, d);
      wordAt', d', cword', done', cur' := d, d + CWORD_LEN, TWO31, done + cur, [];
    }
  }

  /** One iteration. */
  method Iteration(text: seq<byte>, src: nat, a: array<byte>, table: Table, base: nat, wordAt: nat, d: nat, cword: nat,
                   ghost done: seq<Item>, ghost cur: seq<Item>)
    returns (ok: bool, src': nat, wordAt': nat, d': nat, cword': nat, ghost done': seq<Item>, ghost cur': seq<Item>)
    requires src + 11 <= |text| && base + |text| + 391 <= a.Length
    requires table.Shape() && table.Below(src) && a != table.counter && Knows(table.Value(), text, src)
    requires Running(a[..], text, src, base, wordAt, d, cword, done, cur)
    modifies a, table.slots, table.counter
    ensures !ok ==> GivesUp(text)
    ensures ok ==> src < src' <= |text| - 3 && table.Below(src') && Knows(table.Value(), text, src') && |cur'| > 0
    ensures ok ==> Running(a[..], text, src', base, wordAt', d', cword', done', cur')
    ensures Framed(old(a[..]), a[..], base, base + |text| + 391)
  {
    ghost var before := a[..];
    src' := src;
    ok, wordAt', d', cword', done', cur' := OpenGroup(text, src, a, base, wordAt, d, cword, done, cur);
    if !ok {
      return;
    }
    ghost var x, now, d0 := *, a[..], d';
    src', d', cword', x := NextToken(text, src, a, table, base, wordAt', d', cword', done', cur');
    cur' := cur' + [x];
    FrameStep(before, now, a[..], base, base + |text| + 391, d0, d0 + 4);
  }

  lemma StartRunning(a: seq<byte>, text: seq<byte>, base: nat)
    requires base + CWORD_LEN <= |a|
    ensures Running(a, text, 0, base, base, base + CWORD_LEN, TWO31, [], [])
  {
    LayoutFresh(a, base, base, []);
    ForeseenStart(text);
    WorthStart(text);
    assert Tokens([]) == [];
    assert text[..0] == [];
  }

  /** The first loop: matches and literals up to the last position a match may start.
      Returns false when the group just filled shows too little gain. */
  method MainLoop(text: seq<byte>, a: array<byte>, table: Table, base: nat)
    returns (ok: bool, src: nat, wordAt: nat, d: nat, cword: nat, ghost done: seq<Item>, ghost cur: seq<Item>)
    requires 1 <= |text| && base + |text| + 391 <= a.Length
    requires table.Shape() && table.Below(0) && a != table.counter && Knows(table.Value(), text, 0)
    modifies a, table.slots, table.counter
    ensures if ok then |text| < src + 11 else GivesUp(text)
    ensures ok ==> Running(a[..], text, src, base, wordAt, d, cword, done, cur) && (|cur| == 0 ==> src == 0)
    ensures Framed(old(a[..]), a[..], base, base + |text| + 391)
  {
    ghost var before := a[..];
    src, wordAt, d, cword, done, cur := 0, base, base + CWORD_LEN, TWO31, [], [];
    StartRunning(a[..], text, base);
    ok := true;
    while src <= |text| - 1 - UNCONDITIONAL_MATCHLEN - UNCOMPRESSED_END
      invariant Running(a[..], text, src, base, wordAt, d, cword, done, cur)
      invariant src == 0 || src <= |text| - 3
      invariant table.Below(src) && Knows(table.Value(), text, src) && (|cur| == 0 ==> src == 0)
      invariant Framed(before, a[..], base, base + |text| + 391)
      decreases |text| - src
    {
      ghost var now := a[..];
      ok, src, wordAt, d, cword, done, cur := Iteration(text, src, a, table, base, wordAt, d, cword, done, cur);
      FrameTrans(before, now, a[..], base, base + |text| + 391);
      if !ok {
        return;
      }
    }
  }

  /** What the closing loops keep; the output may grow by a control word per byte. */
  ghost predicate Closing(a: seq<byte>, text: seq<byte>, src: nat, base: nat, wordAt: nat, d: nat, cword: nat,
                          done: seq<Item>, cur: seq<Item>) {
    forall k {:trigger Opened(k)} :: Opened(k) ==>
      && Layout(a, base, wordAt, d, cword, done, cur)
      && Covers(text, src, done, cur)
      && |text| < src + 11
      && d + 5 * (|text| - src) <= base + |text| + 178
  }

  lemma StartClosing(a: seq<byte>, text: seq<byte>, src: nat, base: nat, wordAt: nat, d: nat, cword: nat,
                     done: seq<Item>, cur: seq<Item>)
    requires Running(a, text, src, base, wordAt, d, cword, done, cur) && |text| < src + 11
    ensures Closing(a, text, src, base, wordAt, d, cword, done, cur) && src <= |text| && !GivesUp(text)
  {
    OpenRunning(a, text, src, base, wordAt, d, cword, done, cur);
    Room(a, text, src, base, wordAt, d, cword, done, cur);
    WorthThroughout(text, src, Tokens(done + cur), |done|);
  }

  lemma MakeClosing(a: seq<byte>, text: seq<byte>, src: nat, base: nat, wordAt: nat, d: nat, cword: nat,
                    done: seq<Item>, cur: seq<Item>)
    requires Layout(a, base, wordAt, d, cword, done, cur) && Covers(text, src, done, cur)
    requires |text| < src + 11 && d + 5 * (|text| - src) <= base + |text| + 178
    ensures Closing(a, text, src, base, wordAt, d, cword, done, cur)
  {
  }

  lemma OpenClosing(a: seq<byte>, text: seq<byte>, src: nat, base: nat, wordAt: nat, d: nat, cword: nat,
                    done: seq<Item>, cur: seq<Item>)
    requires Closing(a, text, src, base, wordAt, d, cword, done, cur)
    ensures Layout(a, base, wordAt, d, cword, done, cur) && Covers(text, src, done, cur)
    ensures src <= |text| < src + 11 && d + 5 * (|text| - src) <= base + |text| + 178
    ensures cword % 2 == 1 <==> |cur| == GROUP
  {
    assert Opened(0);
    FillingFull(Flags(cur));
  }

  method FramedRoom(text: seq<byte>, src: nat, a: array<byte>, base: nat, wordAt: nat, d: nat, cword: nat,
                    ghost done: seq<Item>, ghost cur: seq<Item>)
    returns (wordAt': nat, d': nat, cword': nat, ghost done': seq<Item>, ghost cur': seq<Item>)
    requires d + 4 <= base + |text| + 391 <= a.Length && (cword % 2 == 1 <==> |cur| == GROUP)
    requires Layout(a[..], base, wordAt, d, cword, done, cur) && Covers(text, src, done, cur)
    modifies a
    ensures Layout(a[..], base, wordAt', d', cword', done', cur') && Covers(text, src, done', cur')
    ensures |cur'| < GROUP && d <= d' <= d + 4
    ensures Framed(old(a[..]), a[..], base, base + |text| + 391)
  {
    ghost var before := a[..];
    wordAt', d', cword', done', cur' := RoomForFlag(text, src, a, base, wordAt, d, cword, done, cur);
    FrameSelf(before, base, base + |text| + 391);
    FrameStep(before, before, a[..], base, base + |text| + 391, base, d);
  }

  method FramedLiteral(text: seq<byte>, src: nat, a: array<byte>, base: nat, wordAt: nat, d: nat, cword: nat,
                       ghost done: seq<Item>, ghost cur: seq<Item>)
    returns (cword': nat, ghost x: Item)
    requires src < |text| < src + 11 && base <= d < base + |text| + 391 <= a.Length && |cur| < GROUP
    requires Layout(a[..], base, wordAt, d, cword, done, cur) && Covers(text, src, done, cur)
    modifies a
    ensures Layout(a[..], base, wordAt, d + 1, cword', done, cur + [x]) && Covers(text, src + 1, done, cur + [x])
    ensures Framed(old(a[..]), a[..], base, base + |text| + 391)
  {
    ghost var before := a[..];
    assert Chosen(text, src, Lit(text[src]));
    cword', x := EncodeLiteral(text, src, a, base, wordAt, d, cword, done, cur);
    FrameSelf(before, base, base + |text| + 391);
    FrameStep(before, before, a[..], base, base + |text| + 391, d, d + 1);
  }

  /** One literal of the second loop. */
  method LastLiteral(text: seq<byte>, src: nat, a: array<byte>, base: nat, wordAt: nat, d: nat, cword: nat,
                     ghost done: seq<Item>, ghost cur: seq<Item>)
    returns (wordAt': nat, d': nat, cword': nat, ghost done': seq<Item>, ghost cur': seq<Item>)
    requires src < |text| && base + |text| + 391 <= a.Length
    requires Closing(a[..], text, src, base, wordAt, d, cword, done, cur)
    modifies a
    ensures Closing(a[..], text, src + 1, base, wordAt', d', cword', done', cur') && |cur'| > 0
    ensures Framed(old(a[..]), a[..], base, base + |text| + 391)
  {
    ghost var before := a[..];
    OpenClosing(a[..], text, src, base, wordAt, d, cword, done, cur);
    wordAt', d', cword', done', cur' := FramedRoom(text, src, a, base, wordAt, d, cword, done, cur);
    ghost var x, now := *, a[..];
    cword', x := FramedLiteral(text, src, a, base, wordAt', d', cword', done', cur');
    d', cur' := d' + 1, cur' + [x];
    MakeClosing(a[..], text, src + 1, base, wordAt', d', cword', done', cur');
    FrameTrans(before, now, a[..], base, base + |text| + 391);
  }

  /** A full control word is written out before the next literal, without the gain check. */
  method RoomForFlag(text: seq<byte>, src: nat, a: array<byte>, base: nat, wordAt: nat, d: nat, cword: nat,
                     ghost done: seq<Item>, ghost cur: seq<Item>)
    returns (wordAt': nat, d': nat, cword': nat, ghost done': seq<Item>, ghost cur': seq<Item>)
    requires d + 4 <= a.Length && (cword % 2 == 1 <==> |cur| == GROUP)
    requires Layout(a[..], base, wordAt, d, cword, done, cur) && Covers(text, src, done, cur)
    modifies a
    ensures Layout(a[..], base, wordAt', d', cword', done', cur') && Covers(text, src, done', cur')
    ensures |cur'| < GROUP && d <= d' <= d + 4
    ensures Agree(old(a[..]), a[..], 0, base) && Agree(old(a[..]), a[..], d, a.Length)
  {
    wordAt', d', cword', done', cur' := wordAt, d, cword, done, cur;
    if cword % 2 == 1 {
      FlushGroup(a, base, wordAt, d, cword, done, cur);
      CoversGroup(text, src, done, cur);
      wordAt', d', cword', done', cur' := d, d + CWORD_LEN, TWO31, done + cur, [];
    }
  }

  /** Shifts until the marker reaches bit 0, which moves the flags of a partly filled
      group down to where the reader expects them. */
  method Settle(cword0: nat, ghost cur: seq<Item>) returns (cword: nat)
    requires |cur| <= GROUP && cword0 == Filling(Flags(cur))
    ensures cword / 2 + TWO31 == ControlWord(cur)
    ensures cword / 2 + TWO31 < TWO32
  {
    ghost var odd, left := 2 * FlagBits(Flags(cur)) + 1, GROUP - |cur|;
    FillingValue(Flags(cur));
    cword := cword0;
    while cword % 2 != 1
      invariant 0 <= left && cword == Shl(odd, left)
      decreases left
    {
      OddShl(cword, FlagBits(Flags(cur)), left);
      cword := cword / 2;
      left := left - 1;
    }
    OddShl(cword, FlagBits(Flags(cur)), left);
    WordMarked(Flags(cur));
  }

  /** A token sequence that stands for the text. */
  ghost predicate Stands(xs: seq<Item>, text: seq<byte>) {
    forall k {:trigger Opened(k)} :: Opened(k) ==>
      && xs != [] && AllOk(xs)
      && Legal(Tokens(xs), 0, |text|) && Span(Tokens(xs)) == |text|
      && Play([], Tokens(xs)) == text
  }

  lemma StandsOf(text: seq<byte>, done: seq<Item>, cur: seq<Item>)
    requires Covers(text, |text|, done, cur) && AllOk(done) && AllOk(cur) && |cur| > 0
    ensures Stands(done + cur, text) && Tokens(done + cur) == Tokenize(text, 0)
  {
    assert text[..|text|] == text;
    ForeseenEnd(text, Tokens(done + cur));
  }

  /** The last control word. */
  method Finish(text: seq<byte>, a: array<byte>, base: nat, wordAt: nat, d: nat, cword0: nat, ghost done: seq<Item>,
                ghost cur: seq<Item>)
    requires base + |text| + 391 <= a.Length && |cur| > 0
    requires Closing(a[..], text, |text|, base, wordAt, d, cword0, done, cur)
    modifies a
    ensures d == base + |Encode(done + cur)| <= base + |text| + 178 && Holds(a[..], base, Encode(done + cur))
    ensures Stands(done + cur, text) && Tokens(done + cur) == Tokenize(text, 0)
    ensures Framed(old(a[..]), a[..], base, base + |text| + 391)
  {
    ghost var before := a[..];
    OpenClosing(a[..], text, |text|, base, wordAt, d, cword0, done, cur);
    var cword := Settle(cword0, cur);
    FastWrite(a, cword / 2 + TWO31, wordAt, CWORD_LEN);
    AgreePart(before, a[..], wordAt + 4, a.Length, wordAt + 4, d);
    GroupWritten(before, a[..], base, wordAt, d, cword0, done, cur);
    FrameSelf(before, base, base + |text| + 391);
    FrameStep(before, before, a[..], base, base + |text| + 391, wordAt, wordAt + 4);
    StandsOf(text, done, cur);
  }

  /** The literals of the last bytes. */
  method LastLiterals(text: seq<byte>, a: array<byte>, base: nat, src0: nat, wordAt0: nat, d0: nat, cword0: nat,
                      ghost done0: seq<Item>, ghost cur0: seq<Item>)
    returns (wordAt: nat, d: nat, cword: nat, ghost done: seq<Item>, ghost cur: seq<Item>)
    requires 1 <= |text| && src0 <= |text| && base + |text| + 391 <= a.Length && (|cur0| == 0 ==> src0 == 0)
    requires Closing(a[..], text, src0, base, wordAt0, d0, cword0, done0, cur0)
    modifies a
    ensures Closing(a[..], text, |text|, base, wordAt, d, cword, done, cur) && |cur| > 0
    ensures Framed(old(a[..]), a[..], base, base + |text| + 391)
  {
    ghost var before := a[..];
    var src: nat := src0;
    wordAt, d, cword, done, cur := wordAt0, d0, cword0, done0, cur0;
    while src <= |text| - 1
      invariant src <= |text| && (|cur| == 0 ==> src == 0)
      invariant Closing(a[..], text, src, base, wordAt, d, cword, done, cur)
      invariant Framed(before, a[..], base, base + |text| + 391)
      decreases |text| - src
    {
      ghost var now := a[..];
      wordAt, d, cword, done, cur := LastLiteral(text, src, a, base, wordAt, d, cword, done, cur);
      src := src + 1;
      FrameTrans(before, now, a[..], base, base + |text| + 391);
    }
    assert src == |text|;
  }

  /** The second loop and the last control word. */
  method CloseText(text: seq<byte>, a: array<byte>, base: nat, src0: nat, wordAt0: nat, d0: nat, cword0: nat,
                   ghost done0: seq<Item>, ghost cur0: seq<Item>)
    returns (d: nat, ghost xs: seq<Item>)
    requires 1 <= |text| < src0 + 11 && base + |text| + 391 <= a.Length && (|cur0| == 0 ==> src0 == 0)
    requires Running(a[..], text, src0, base, wordAt0, d0, cword0, done0, cur0)
    modifies a
    ensures !GivesUp(text) && Tokens(xs) == Tokenize(text, 0)
    ensures Stands(xs, text) && Holds(a[..], base, Encode(xs)) && d == base + |Encode(xs)| <= base + |text| + 178
    ensures Framed(old(a[..]), a[..], base, base + |text| + 391)
  {
    ghost var before := a[..];
    var wordAt: nat, cword: nat;
    ghost var done, cur;
    StartClosing(a[..], text, src0, base, wordAt0, d0, cword0, done0, cur0);
    wordAt, d, cword, done, cur := LastLiterals(text, a, base, src0, wordAt0, d0, cword0, done0, cur0);
    ghost var now := a[..];
    Finish(text, a, base, wordAt, d, cword, done, cur);
    FrameTrans(before, now, a[..], base, base + |text| + 391);
    xs := done + cur;
  }

  /** `qlz_compress_core`: zero exactly if it gave up; otherwise the length of the stream,
      at least nine, whose tokens are those chosen for the text. */
  method CompressCore(text: seq<byte>, a: array<byte>, table: Table, base: nat) returns (r: nat, ghost xs: seq<Item>)
    requires 1 <= |text| && base + |text| + 391 <= a.Length
    requires table.Shape() && table.Below(0) && a != table.counter && Knows(table.Value(), text, 0)
    modifies a, table.slots, table.counter
    ensures r == 0 <==> GivesUp(text)
    ensures r > 0 ==> Tokens(xs) == Tokenize(text, 0)
    ensures r > 0 ==> Stands(xs, text) && Holds(a[..], base, Encode(xs))
    ensures r > 0 ==> r == (if |Encode(xs)| < 9 then 9 else |Encode(xs)|) && r <= |text| + 178
    ensures Framed(old(a[..]), a[..], base, base + |text| + 391)
  {
    ghost var before := a[..];
    var ok, src: nat, wordAt: nat, d: nat, cword: nat;
    ghost var done, cur;
    ok, src, wordAt, d, cword, done, cur := MainLoop(text, a, table, base);
    if !ok {
      return 0, [];
    }
    ghost var now := a[..];
    d, xs := CloseText(text, a, base, src, wordAt, d, cword, done, cur);
    FrameTrans(before, now, a[..], base, base + |text| + 391);
    r := if d - base < 9 then 9 else d - base;
  }
}
