/** What the level 3 compressor chooses, told without its table: which earlier positions it
    still knows, which of them it copies from, and the token sequence that follows. */
module QlzChoice {
  import opened Bytes
  import opened QlzTokens
  import opened QlzStream
  import opened QlzFinder

  /** Opens the definitions of Knows, Chosen and Poor, like Unseal for those on bytes. */
  ghost predicate Disclosed(k: int) {
    true
  }

  /** Opens the definitions of Foreseen and Worth. */
  ghost predicate Shown(k: int) {
    true
  }

  // ------------------------------------------------------------------ what the table knows

  function HashAt(s: seq<byte>, p: nat): (h: nat)
    requires p + 4 <= |s|
    ensures h < HASH_VALUES
  {
    Hash(FastRead(s, p))
  }

  /** The positions before p whose bytes have hash h, in order. */
  ghost function Filed(s: seq<byte>, h: int, p: nat): (r: seq<int>)
    requires p == 0 || p + 3 <= |s|
  {
    if p == 0 then []
    else if HashAt(s, p - 1) == h then Filed(s, h, p - 1) + [p - 1]
    else Filed(s, h, p - 1)
  }

  ghost predicate Ascending(c: seq<int>) {
    forall i, j :: 0 <= i < j < |c| ==> c[i] < c[j]
  }

  /** Those positions, each once. */
  lemma {:induction false} FiledMeans(s: seq<byte>, h: int, p: nat, q: int)
    requires p == 0 || p + 3 <= |s|
    ensures q in Filed(s, h, p) <==> 0 <= q < p && HashAt(s, q) == h
  {
    if p > 0 {
      FiledMeans(s, h, p - 1, q);
    }
  }

  lemma {:induction false} FiledAscending(s: seq<byte>, h: int, p: nat)
    requires p == 0 || p + 3 <= |s|
    ensures Ascending(Filed(s, h, p)) && forall i :: 0 <= i < |Filed(s, h, p)| ==> Filed(s, h, p)[i] < p
  {
    if p > 0 {
      FiledAscending(s, h, p - 1);
    }
  }

  /** Of m positions filed, the number of the one that slot k holds. */
  function Holder(m: nat, k: nat): (i: nat)
    requires k < POINTERS && k < m
    ensures i < m
  {
    m - 1 - (m - 1 - k) % POINTERS
  }

  lemma HolderStep(m: nat, k: nat)
    requires k < POINTERS && k <= m
    ensures if k == m % POINTERS then Holder(m + 1, k) == m else k < m && Holder(m + 1, k) == Holder(m, k)
  {
  }

  /** The counter and the slots of one row, when m positions have been filed there. */
  ghost predicate RowOf(row: seq<int>, count: byte, filed: seq<int>)
    requires |row| == POINTERS
  {
    && count == |filed| % 256
    && forall k :: 0 <= k < POINTERS && k < |filed| ==> row[k] == filed[Holder(|filed|, k)]
  }

  lemma CounterStep(m: nat)
    ensures m % 256 % POINTERS == m % POINTERS && (m % 256 + 1) % 256 == (m + 1) % 256
  {
  }

  lemma RowStep(row: seq<int>, count: byte, filed: seq<int>, p: int)
    requires |row| == POINTERS && RowOf(row, count, filed)
    ensures RowOf(row[count % POINTERS := p], (count + 1) % 256, filed + [p])
  {
    var m := |filed|;
    CounterStep(m);
    var row', filed' := row[count % POINTERS := p], filed + [p];
    forall k | 0 <= k < POINTERS && k < m + 1
      ensures row'[k] == filed'[Holder(m + 1, k)]
    {
      HolderStep(m, k);
    }
  }

  /** The table after every position before p has been filed; sealed, see Disclosed. */
  ghost predicate Knows(t: Content, s: seq<byte>, p: nat)
    requires Sized(t) && (p == 0 || p + 3 <= |s|)
  {
    forall k {:trigger Disclosed(k)} :: Disclosed(k) ==>
      forall h :: 0 <= h < HASH_VALUES ==> RowOf(t.rows[h], t.counts[h], Filed(s, h, p))
  }

  lemma KnowsNothing(t: Content, s: seq<byte>)
    requires Sized(t) && forall h :: 0 <= h < HASH_VALUES ==> t.counts[h] == 0
    ensures Knows(t, s, 0)
  {
  }

  lemma KnowsStep(t: Content, s: seq<byte>, p: nat, h: nat, now: Content)
    requires Sized(t) && p + 4 <= |s| && h == HashAt(s, p) && Knows(t, s, p) && now == Recorded(t, h, p)
    ensures Knows(now, s, p + 1)
  {
    assert Disclosed(0);
    RowStep(t.rows[h], t.counts[h], Filed(s, h, p), p);
  }

  lemma {:induction false} KnowsRun(t: Content, s: seq<byte>, src: nat, n: nat)
    requires Sized(t) && 1 <= n && src + n + 3 <= |s| && Knows(t, s, src + 1)
    ensures Knows(RecordedRun(t, s, src, n), s, src + n)
    decreases n
  {
    if n > 1 {
      KnowsRun(t, s, src, n - 1);
      var p: nat := src + n - 1;
      KnowsStep(RecordedRun(t, s, src, n - 1), s, p, HashAt(s, p), RecordedRun(t, s, src, n));
    }
  }

  /** The positions filed last: sixteen, or fewer since the counter last passed zero. */
  ghost function Latest(filed: seq<int>): (r: seq<int>)
    ensures |r| == Min(16, |filed| % 256)
  {
    filed[|filed| - Min(POINTERS, |filed| % 256)..]
  }

  lemma LatestAscending(filed: seq<int>)
    requires Ascending(filed)
    ensures Ascending(Latest(filed))
  {
  }

  lemma SlotKnown(m: nat, n: nat, k: nat)
    requires n == Min(POINTERS, m % 256) && k < n
    ensures k < m && m - n <= Holder(m, k) < m
  {
  }

  lemma SlotFound(m: nat, n: nat, i: nat)
    requires n == Min(POINTERS, m % 256) && m - n <= i < m
    ensures i % POINTERS < n && Holder(m, i % POINTERS) == i
  {
    var q, k := i / POINTERS, i % POINTERS;
    if n < POINTERS {
      DivMod(i, POINTERS, 16 * (m / 256), i - (m - n));
    }
    DivMod(m - 1 - k, POINTERS, q, m - 1 - i);
  }

  /** The usable slots hold the positions filed last. */
  lemma SlotsHoldLatest(row: seq<int>, count: byte, filed: seq<int>)
    requires |row| == POINTERS && RowOf(row, count, filed)
    ensures var n := Min(POINTERS, count);
            && (forall k :: 0 <= k < n ==> row[k] in Latest(filed))
            && (forall q :: q in Latest(filed) ==> exists k :: 0 <= k < n && row[k] == q)
  {
    var c := Latest(filed);
    var m, n := |filed|, Min(POINTERS, count);
    forall k | 0 <= k < n
      ensures row[k] in c
    {
      SlotKnown(m, n, k);
      assert c[Holder(m, k) - (m - n)] == row[k];
    }
    forall q | q in c
      ensures exists k :: 0 <= k < n && row[k] == q
    {
      var j :| 0 <= j < |c| && c[j] == q;
      SlotFound(m, n, m - n + j);
      assert row[(m - n + j) % POINTERS] == q;
    }
  }

  // ------------------------------------------------------------------ what is chosen

  /** Of the positions c, o is the one worth most, and the latest of those; a length of
      zero says that none is worth anything. */
  ghost predicate BestOf(s: seq<byte>, src: nat, c: seq<int>, o: int, len: nat)
    requires src + 11 <= |s|
  {
    && (len > 0 ==> o in c && Score(s, src, o) == len)
    && (forall q :: q in c ==> Score(s, src, q) < len || (Score(s, src, q) == len && (len == 0 || q <= o)))
  }

  lemma BestOfUnique(s: seq<byte>, src: nat, c: seq<int>, o: int, len: nat, o': int, len': nat)
    requires src + 11 <= |s| && BestOf(s, src, c, o, len) && BestOf(s, src, c, o', len')
    ensures len == len' && (len > 0 ==> o == o')
  {
  }

  /** The best of positions in ascending order. */
  ghost function Longest(s: seq<byte>, src: nat, c: seq<int>): (r: (int, nat))
    requires src + 11 <= |s|
    ensures r.1 > 0 ==> r.1 == Score(s, src, r.0)
  {
    if c == [] then (0, 0) else
      var q := c[|c| - 1];
      var (o, len) := Longest(s, src, c[..|c| - 1]);
      if Score(s, src, q) > 0 && Score(s, src, q) >= len then (q, Score(s, src, q)) else (o, len)
  }

  lemma BestOfStep(s: seq<byte>, src: nat, c: seq<int>, q: int, o: int, len: nat)
    requires src + 11 <= |s| && BestOf(s, src, c, o, len) && forall p :: p in c ==> p < q
    ensures var m := Score(s, src, q);
            if m > 0 && m >= len then BestOf(s, src, c + [q], q, m) else BestOf(s, src, c + [q], o, len)
  {
    forall p | p in c + [q]
      ensures p in c || p == q
    {
    }
  }

  lemma {:induction false} LongestBest(s: seq<byte>, src: nat, c: seq<int>)
    requires src + 11 <= |s| && Ascending(c)
    ensures BestOf(s, src, c, Longest(s, src, c).0, Longest(s, src, c).1)
    decreases |c|
  {
    if c != [] {
      var front, q := c[..|c| - 1], c[|c| - 1];
      LongestBest(s, src, front);
      var (o, len) := Longest(s, src, front);
      assert forall p :: p in front ==> exists i :: 0 <= i < |front| && front[i] == p;
      BestOfStep(s, src, front, q, o, len);
      assert c == front + [q];
    }
  }

  /** Searching the row finds the best of the positions filed last. */
  lemma RowBest(s: seq<byte>, src: nat, row: seq<int>, count: byte, filed: seq<int>, o: int, len: nat)
    requires src + 11 <= |s| && |row| == POINTERS && RowOf(row, count, filed)
    requires Best(row, Scores(s, src, row), Min(POINTERS, count), o, len)
    ensures BestOf(s, src, Latest(filed), o, len)
  {
    var n, scores, c := Min(POINTERS, count), Scores(s, src, row), Latest(filed);
    SlotsHoldLatest(row, count, filed);
    forall q | q in c
      ensures Score(s, src, q) < len || (Score(s, src, q) == len && (len == 0 || q <= o))
    {
      var k :| 0 <= k < n && row[k] == q;
      assert scores[k] == Score(s, src, q);
    }
    if len > 0 {
      var k :| 0 <= k < n && row[k] == o && scores[k] == len;
      assert scores[k] == Score(s, src, o);
    }
  }

  /** The positions a search at src can copy from. */
  ghost function Candidates(s: seq<byte>, src: nat): (c: seq<int>)
    requires src + 4 <= |s|
  {
    Latest(Filed(s, HashAt(s, src), src))
  }

  lemma PickBest(s: seq<byte>, src: nat)
    requires src + 11 <= |s|
    ensures var (o, len) := Longest(s, src, Candidates(s, src)); BestOf(s, src, Candidates(s, src), o, len)
  {
    var h := HashAt(s, src);
    FiledAscending(s, h, src);
    LatestAscending(Filed(s, h, src));
    LongestBest(s, src, Candidates(s, src));
  }

  /** The token at src: a copy from the best candidate if it is near enough, or a literal. */
  ghost function Pick(s: seq<byte>, src: nat): (t: Token)
    requires src + 11 <= |s|
    ensures TokenOk(t, src, |s|) && Len(t) >= 1
  {
    var (o, len) := Longest(s, src, Candidates(s, src));
    if len > 2 && src - o < 131071 then Match(src - o, len) else Lit(s[src])
  }

  /** It is a copy if and only if the best candidate begins like the bytes at src and lies
      less than 131071 bytes back. */
  lemma PickMeans(s: seq<byte>, src: nat)
    requires src + 11 <= |s|
    ensures var c, t := Candidates(s, src), Pick(s, src);
            && (t.Match? <==> exists q :: q in c && Score(s, src, q) > 0 && src - q < 131071
                                          && BestOf(s, src, c, q, Score(s, src, q)))
            && (t.Match? ==> BestOf(s, src, c, src - t.offset, t.len))
            && (t.Lit? ==> t.value == s[src])
  {
    var c := Candidates(s, src);
    var (o, len) := Longest(s, src, c);
    PickBest(s, src);
    if q :| q in c && Score(s, src, q) > 0 && src - q < 131071 && BestOf(s, src, c, q, Score(s, src, q)) {
      BestOfUnique(s, src, c, o, len, q, Score(s, src, q));
    }
    if Pick(s, src).Match? {
      assert o in c && BestOf(s, src, c, o, Score(s, src, o));
    }
  }

  /** The recordings of one search. */
  lemma Remembered(t: Content, s: seq<byte>, src: nat, use: bool, matchlen: nat, now: Content)
    requires Sized(t) && Sized(now) && src + 11 <= |s| && Knows(t, s, src)
    requires (use ==> 1 <= matchlen <= Remaining(s, src)) && Grown(t, s, src, use, matchlen, now)
    ensures Knows(now, s, src + if use then matchlen else 1)
  {
    assert Unseal(0);
    var t', h := Recorded(t, HashAt(s, src), src), HashAt(s, src);
    KnowsStep(t, s, src, h, t');
    if use {
      KnowsRun(t', s, src, matchlen);
    }
  }

  /** t is the token at src, the choice of the main loop or a literal of the last bytes;
      sealed, see Disclosed. */
  ghost predicate Chosen(s: seq<byte>, src: nat, t: Token)
    requires src < |s|
  {
    forall k {:trigger Disclosed(k)} :: Disclosed(k) ==> t == if src + 11 <= |s| then Pick(s, src) else Lit(s[src])
  }

  lemma ChosenOk(s: seq<byte>, src: nat, t: Token)
    requires src < |s| && Chosen(s, src, t)
    ensures TokenOk(t, src, |s|) && 1 <= Len(t) <= |s| - src
  {
    assert Disclosed(0);
  }

  lemma OneChosen(s: seq<byte>, src: nat)
    requires src < |s|
    ensures exists t :: Chosen(s, src, t)
  {
    assert Chosen(s, src, if src + 11 <= |s| then Pick(s, src) else Lit(s[src]));
  }

  /** The token at src. */
  ghost function TokenAt(s: seq<byte>, src: nat): (t: Token)
    requires src < |s|
    ensures Chosen(s, src, t) && TokenOk(t, src, |s|) && 1 <= Len(t) <= |s| - src
  {
    OneChosen(s, src);
    var t :| Chosen(s, src, t);
    ChosenOk(s, src, t);
    t
  }

  lemma ChosenIs(s: seq<byte>, src: nat, t: Token)
    requires src < |s| && Chosen(s, src, t)
    ensures t == TokenAt(s, src)
  {
    assert Disclosed(0);
  }

  /** What the search decides on its table is what Pick says. */
  lemma SearchPicks(t: Content, s: seq<byte>, src: nat, use: bool, o: int, len: nat)
    requires Sized(t) && src + 11 <= |s| && Knows(t, s, src) && Offers(t, s, src, o, len)
    requires use == (len > 2 && src - o < 131071) && (use ==> o <= src)
    ensures Chosen(s, src, if use then Match(src - o, len) else Lit(s[src]))
  {
    assert Unseal(0) && Disclosed(0);
    var h, c := HashAt(s, src), Candidates(s, src);
    RowBest(s, src, t.rows[h], t.counts[h], Filed(s, h, src), o, len);
    var (o', len') := Longest(s, src, c);
    PickBest(s, src);
    BestOfUnique(s, src, c, o, len, o', len');
  }

  /** The finder at src, on a table that knows every position before: it decides on the
      token that belongs there, and the table then knows every position the token covers. */
  method SearchKnown(s: seq<byte>, src: nat, table: Table) returns (use: bool, o: int, matchlen: nat)
    requires table.Shape() && src + 11 <= |s| && table.Below(src) && Knows(table.Value(), s, src)
    modifies table.slots, table.counter
    ensures use ==> 3 <= matchlen <= Remaining(s, src) && 0 <= o && o + 3 <= src && src - o < 131071
                    && s[o..o + matchlen] == s[src..src + matchlen]
    ensures Chosen(s, src, if use then Match(src - o, matchlen) else Lit(s[src]))
    ensures var src' := src + if use then matchlen else 1;
            table.Below(src') && Knows(table.Value(), s, src')
  {
    ghost var t := table.Value();
    use, o, matchlen := Search(s, src, table);
    SearchPicks(t, s, src, use, o, matchlen);
    Remembered(t, s, src, use, matchlen, table.Value());
  }

  /** The tokens of the text from src on. */
  ghost function Tokenize(s: seq<byte>, src: nat): (ts: seq<Token>)
    requires src <= |s|
    decreases |s| - src
  {
    if src == |s| then [] else [TokenAt(s, src)] + Tokenize(s, src + Len(TokenAt(s, src)))
  }

  lemma {:induction false} TokenizeMeans(s: seq<byte>, src: nat)
    requires src <= |s|
    ensures AllEncodable(Tokenize(s, src)) && Span(Tokenize(s, src)) == |s| - src
    decreases |s| - src
  {
    if src < |s| {
      var t := TokenAt(s, src);
      TokenizeMeans(s, src + Len(t));
      assert ([t] + Tokenize(s, src + Len(t)))[1..] == Tokenize(s, src + Len(t));
    }
  }

  /** After the tokens ts the text goes on at src as foreseen; sealed, see Shown. */
  ghost predicate Foreseen(s: seq<byte>, src: nat, ts: seq<Token>)
    requires src <= |s|
  {
    forall k {:trigger Shown(k)} :: Shown(k) ==> ts + Tokenize(s, src) == Tokenize(s, 0)
  }

  lemma ForeseenStart(s: seq<byte>)
    ensures Foreseen(s, 0, [])
  {
    assert [] + Tokenize(s, 0) == Tokenize(s, 0);
  }

  lemma TokenizeStep(s: seq<byte>, src: nat, t: Token)
    requires src < |s| && Chosen(s, src, t)
    ensures src + Len(t) <= |s| && Tokenize(s, src) == [t] + Tokenize(s, src + Len(t))
  {
    ChosenIs(s, src, t);
  }

  lemma Shift(ts: seq<Token>, t: Token, rest: seq<Token>)
    ensures ts + ([t] + rest) == ts + [t] + rest
  {
  }

  lemma ForeseenStep(s: seq<byte>, src: nat, ts: seq<Token>, t: Token)
    requires src < |s| && Foreseen(s, src, ts) && Chosen(s, src, t)
    ensures src + Len(t) <= |s| && Foreseen(s, src + Len(t), ts + [t])
  {
    TokenizeStep(s, src, t);
    Shift(ts, t, Tokenize(s, src + Len(t)));
    assert Shown(0);
  }

  lemma ForeseenEnd(s: seq<byte>, ts: seq<Token>)
    requires Foreseen(s, |s|, ts)
    ensures ts == Tokenize(s, 0)
  {
    assert Shown(0);
    assert ts + [] == ts;
  }

  // ------------------------------------------------------------------ when it gives up

  /** The bytes that stand for tokens. */
  ghost function Stream(ts: seq<Token>): seq<byte>
    requires AllEncodable(ts)
  {
    Encode(Items(ts))
  }

  lemma StreamShort(ts: seq<Token>)
    requires AllEncodable(ts)
    ensures |Stream(ts)| <= 4 * |ts| + 4 * ((|ts| + GROUP - 1) / GROUP)
  {
    EncodeShort(Items(ts));
  }

  /** The first j tokens fill their control words before the main loop ends, go past the
      middle of the text, and take more than 31/32 of the bytes they stand for; sealed,
      see Disclosed. */
  ghost predicate Poor(s: seq<byte>, ts: seq<Token>, j: nat) {
    forall k {:trigger Disclosed(k)} :: Disclosed(k) ==>
      && 0 < j <= |ts| && j % GROUP == 0 && AllEncodable(ts[..j])
      && var n := Span(ts[..j]); n + 11 <= |s| && n > |s| / 2 && |Stream(ts[..j])| > n - n / 32
  }

  ghost predicate GivesUp(s: seq<byte>) {
    exists j :: Poor(s, Tokenize(s, 0), j)
  }

  lemma PoorMeans(s: seq<byte>, ts: seq<Token>, j: nat)
    requires Poor(s, ts, j)
    ensures 0 < j <= |ts| && j % GROUP == 0 && AllEncodable(ts[..j])
    ensures var n := Span(ts[..j]); n + 11 <= |s| && n > |s| / 2 && |Stream(ts[..j])| > n - n / 32
  {
    assert Disclosed(0);
  }

  lemma GivesUpLong(s: seq<byte>)
    requires GivesUp(s)
    ensures |s| >= 11
  {
    assert Disclosed(0);
  }

  /** No test up to the n-th token makes it give up; sealed, see Shown. */
  ghost predicate Worth(s: seq<byte>, n: nat) {
    forall k {:trigger Shown(k)} :: Shown(k) ==> forall j :: 0 < j <= n ==> !Poor(s, Tokenize(s, 0), j)
  }

  lemma WorthStart(s: seq<byte>)
    ensures Worth(s, 0)
  {
  }

  lemma WorthStep(s: seq<byte>, n: nat)
    requires n % GROUP == 0 && Worth(s, n) && !Poor(s, Tokenize(s, 0), n + GROUP)
    ensures Worth(s, n + GROUP)
  {
    assert Shown(0) && Disclosed(0);
    var ts := Tokenize(s, 0);
    forall j | 0 < j <= n + GROUP
      ensures !Poor(s, ts, j)
    {
      assert j % GROUP == 0 && j > n ==> j == n + GROUP;
    }
  }

  lemma {:induction false} ItemsOf(xs: seq<Item>)
    requires AllOk(xs)
    ensures AllEncodable(Tokens(xs)) && Items(Tokens(xs)) == xs
  {
    assert Unseal(0);
    forall t | t in Tokens(xs) && t.Match?
      ensures Encodable(t.offset, t.len)
    {
      var i :| 0 <= i < |xs| && xs[i].token == t;
      assert ItemOk(xs[i]);
    }
    forall i | 0 <= i < |xs|
      ensures Items(Tokens(xs))[i] == xs[i]
    {
      assert ItemOk(xs[i]);
    }
  }

  /** What the test made when a control word is full decides. */
  lemma PoorExactly(s: seq<byte>, src: nat, xs: seq<Item>)
    requires src <= |s| && AllOk(xs) && xs != [] && |xs| % GROUP == 0
    requires Foreseen(s, src, Tokens(xs)) && Span(Tokens(xs)) == src
    ensures Poor(s, Tokenize(s, 0), |xs|) <==> src + 11 <= |s| && src > |s| / 2 && |Encode(xs)| > src - src / 32
  {
    ForeseenPrefix(s, src, Tokens(xs));
    ItemsOf(xs);
    assert Disclosed(0);
  }

  lemma ForeseenPrefix(s: seq<byte>, src: nat, ts: seq<Token>)
    requires src <= |s| && Foreseen(s, src, ts)
    ensures |ts| <= |Tokenize(s, 0)| && Tokenize(s, 0)[..|ts|] == ts
  {
    assert Shown(0);
  }

  lemma {:induction false} SpanPrefix(ts: seq<Token>, i: nat, j: nat)
    requires i <= j <= |ts|
    ensures Span(ts[..i]) <= Span(ts[..j])
  {
    assert ts[..j] == ts[..i] + ts[i..j];
    SpanConcat(ts[..i], ts[i..j]);
  }

  /** Once the main loop has ended there are no more tests. */
  lemma WorthThroughout(s: seq<byte>, src: nat, ts: seq<Token>, n: nat)
    requires src <= |s| < src + 11 && Foreseen(s, src, ts) && Span(ts) == src
    requires n % GROUP == 0 && n <= |ts| <= n + GROUP && Worth(s, n)
    ensures !GivesUp(s)
  {
    ForeseenPrefix(s, src, ts);
    var all := Tokenize(s, 0);
    assert Shown(0) && Disclosed(0);
    forall j | n < j <= |all| && j % GROUP == 0
      ensures !Poor(s, all, j)
    {
      assert j >= n + GROUP;
      SpanPrefix(all, |ts|, j);
    }
  }
}
