/** The level 3 token stream: tokens in groups of up to 31, each group led by a
    32-bit control word whose low bits flag the matches and whose top bit marks the
    end of the flags. */
module QlzStream {
  import opened Bytes
  import opened QlzTokens

  const GROUP := 31
  const CWORD_LEN: nat := 4

  // ------------------------------------------------------------------ control words

  /** A control word with the given flags still to be read, then `pad` clear flags,
      then the marker bit. */
  function Word(flags: seq<bool>, pad: nat): (w: nat)
    ensures w >= 1
    ensures w == 1 <==> |flags| + pad == 0
    decreases |flags| + pad
  {
    if flags != [] then (if flags[0] then 1 else 0) + 2 * Word(flags[1..], pad)
    else if pad > 0 then 2 * Word([], pad - 1)
    else 1
  }

  lemma {:induction false} ShlAdd(x: nat, y: nat, n: nat)
    ensures Shl(x + y, n) == Shl(x, n) + Shl(y, n)
  {
    if n > 0 {
      ShlAdd(x, y, n - 1);
    }
  }

  lemma {:induction false} ShlShl(x: nat, m: nat, n: nat)
    ensures Shl(Shl(x, m), n) == Shl(x, m + n)
  {
    if n > 0 {
      ShlShl(x, m, n - 1);
    }
  }

  lemma {:induction false} ShlBelow(x: nat, m: nat, n: nat)
    requires x < Shl(1, m)
    ensures Shl(x, n) < Shl(1, m + n)
  {
    if n > 0 {
      ShlBelow(x, m, n - 1);
    }
  }

  lemma Bit31()
    ensures Shl(1, 31) == TWO31 && Shl(1, 32) == TWO32
  {
    assert Shl(1, 8) == 0x100;
    assert Shl(1, 16) == 0x1_0000;
    assert Shl(1, 24) == 0x100_0000;
  }

  /** The flags of a group as a number, first flag in bit 0. */
  function FlagBits(flags: seq<bool>): nat {
    if flags == [] then 0 else (if flags[0] then 1 else 0) + 2 * FlagBits(flags[1..])
  }

  lemma {:induction false} FlagBitsAppend(flags: seq<bool>, f: bool)
    ensures FlagBits(flags + [f]) == FlagBits(flags) + (if f then Shl(1, |flags|) else 0)
    decreases |flags|
  {
    if flags == [] {
      assert (flags + [f])[1..] == [];
    } else {
      assert (flags + [f])[1..] == flags[1..] + [f];
      FlagBitsAppend(flags[1..], f);
    }
  }

  lemma {:induction false} FlagBitsBelow(flags: seq<bool>)
    ensures FlagBits(flags) < Shl(1, |flags|)
    decreases |flags|
  {
    if flags != [] {
      FlagBitsBelow(flags[1..]);
    }
  }

  lemma {:induction false} WordValue(flags: seq<bool>, pad: nat)
    ensures Word(flags, pad) == FlagBits(flags) + Shl(1, |flags| + pad)
    decreases |flags| + pad
  {
    if flags != [] {
      WordValue(flags[1..], pad);
    } else if pad > 0 {
      WordValue([], pad - 1);
    }
  }

  /** The word written for a group has its marker in bit 31. */
  lemma WordMarked(flags: seq<bool>)
    requires |flags| <= GROUP
    ensures Word(flags, GROUP - |flags|) == FlagBits(flags) + TWO31
    ensures TWO31 <= Word(flags, GROUP - |flags|) < TWO32
  {
    WordValue(flags, GROUP - |flags|);
    Bit31();
    FlagBitsBelow(flags);
    ShlGrows(|flags|, GROUP);
  }

  lemma {:induction false} ShlGrows(m: nat, n: nat)
    requires m <= n
    ensures Shl(1, m) <= Shl(1, n)
    decreases n
  {
    if m < n {
      ShlGrows(m, n - 1);
    }
  }

  /** The control word the compressor is still filling: shifted right once per token,
      the token's flag entering at bit 31, the marker moving down from bit 31. */
  function Filling(flags: seq<bool>): nat {
    if flags == [] then TWO31
    else Filling(flags[..|flags| - 1]) / 2 + (if flags[|flags| - 1] then TWO31 else 0)
  }

  lemma {:induction false} FillingValue(flags: seq<bool>)
    requires |flags| <= GROUP
    ensures Filling(flags) == Shl(2 * FlagBits(flags) + 1, GROUP - |flags|)
    decreases |flags|
  {
    Bit31();
    if flags != [] {
      var front, f := flags[..|flags| - 1], flags[|flags| - 1];
      var m, k := |front|, GROUP - |flags|;
      assert flags == front + [f];
      FillingValue(front);
      FlagBitsAppend(front, f);
      if f {
        assert Shl(1, m + 1) == 2 * Shl(1, m);
        ShlAdd(2 * FlagBits(front) + 1, Shl(1, m + 1), k);
        ShlShl(1, m + 1, k);
      }
    }
  }

  lemma FillingBelow(flags: seq<bool>)
    requires |flags| <= GROUP
    ensures Filling(flags) < TWO32
  {
    Bit31();
    FillingValue(flags);
    FlagBitsBelow(flags);
    assert Shl(1, |flags| + 1) == 2 * Shl(1, |flags|);
    ShlBelow(2 * FlagBits(flags) + 1, |flags| + 1, GROUP - |flags|);
  }

  /** The test of bit 0 recognises exactly the full group. */
  lemma FillingFull(flags: seq<bool>)
    requires |flags| <= GROUP
    ensures Filling(flags) % 2 == 1 <==> |flags| == GROUP
  {
    FillingValue(flags);
    OddShl(Filling(flags), FlagBits(flags), GROUP - |flags|);
  }

  lemma OddShl(v: nat, x: nat, n: nat)
    requires v == Shl(2 * x + 1, n)
    ensures v % 2 == 1 <==> n == 0
  {
    if n > 0 {
      assert v == 2 * Shl(2 * x + 1, n - 1);
    }
  }

  // ------------------------------------------------------------------ writing

  /** A token together with the bytes that stand for it. */
  datatype Item = Item(token: Token, code: seq<byte>)

  ghost predicate ItemOk(x: Item) {
    && 1 <= |x.code| <= 4 && |x.code| <= Len(x.token)
    && forall k {:trigger Unseal(k)} :: Unseal(k) ==>
         (x.token.Match? ==> Encodable(x.token.offset, x.token.len)) && x.code == TokenBytes(x.token)
  }

  ghost predicate AllOk(xs: seq<Item>) {
    forall x :: x in xs ==> ItemOk(x)
  }

  /** Every token in code range has an item. */
  ghost function Coded(t: Token): (x: Item)
    requires t.Match? ==> Encodable(t.offset, t.len)
    ensures x.token == t && x.code == TokenBytes(t) && ItemOk(x)
  {
    Item(t, TokenBytes(t))
  }

  function Tokens(xs: seq<Item>): (ts: seq<Token>)
    ensures |ts| == |xs|
  {
    seq(|xs|, i requires 0 <= i < |xs| => xs[i].token)
  }

  function Flags(xs: seq<Item>): (f: seq<bool>)
    ensures |f| == |xs|
  {
    seq(|xs|, i requires 0 <= i < |xs| => xs[i].token.Match?)
  }

  function Payload(xs: seq<Item>): (s: seq<byte>) {
    if xs == [] then [] else xs[0].code + Payload(xs[1..])
  }

  /** The control word of a group, flags above the last token clear. */
  function ControlWord(xs: seq<Item>): (w: nat)
    requires |xs| <= GROUP
  {
    Word(Flags(xs), GROUP - |xs|)
  }

  /** One control word and the codes it governs. */
  function Group(xs: seq<Item>): (s: seq<byte>)
    requires 1 <= |xs| <= GROUP
    ensures |s| == 4 + |Payload(xs)|
  {
    LeBytes(ControlWord(xs), CWORD_LEN) + Payload(xs)
  }

  /** The compressed form of a token sequence. */
  function Encode(xs: seq<Item>): (s: seq<byte>) {
    if xs == [] then []
    else if |xs| <= GROUP then Group(xs)
    else Group(xs[..GROUP]) + Encode(xs[GROUP..])
  }

  lemma {:induction false} PayloadAppend(xs: seq<Item>, x: Item)
    ensures Payload(xs + [x]) == Payload(xs) + x.code
    decreases |xs|
  {
    if xs == [] {
      assert (xs + [x])[1..] == [];
    } else {
      assert (xs + [x])[1..] == xs[1..] + [x];
      PayloadAppend(xs[1..], x);
    }
  }

  lemma {:induction false} PayloadBound(xs: seq<Item>)
    requires AllOk(xs)
    ensures |Payload(xs)| <= 4 * |xs| && |Payload(xs)| <= Span(Tokens(xs)) && |xs| <= Span(Tokens(xs))
    decreases |xs|
  {
    if xs != [] {
      assert ItemOk(xs[0]);
      assert Tokens(xs)[1..] == Tokens(xs[1..]);
      PayloadBound(xs[1..]);
    }
  }

  /** Complete groups can be written ahead of the rest. */
  lemma {:induction false} EncodeConcat(a: seq<Item>, b: seq<Item>)
    requires |a| % GROUP == 0
    ensures Encode(a + b) == Encode(a) + Encode(b)
    decreases |a|
  {
    if a == [] {
      assert a + b == b;
    } else if b == [] {
      assert a + b == a;
    } else {
      var head, rest := a[..GROUP], a[GROUP..];
      assert a + b == head + (rest + b) && a == head + rest;
      EncodeConcat(rest, b);
      EncodeLong(head, rest + b);
      EncodeLong(head, rest);
      ConcatAssoc(Group(head), Encode(rest), Encode(b));
    }
  }

  lemma EncodeLong(head: seq<Item>, rest: seq<Item>)
    requires |head| == GROUP
    ensures Encode(head + rest) == Group(head) + Encode(rest)
  {
    if rest == [] {
      assert head + rest == head;
    } else {
      assert (head + rest)[..GROUP] == head && (head + rest)[GROUP..] == rest;
    }
  }

  /** Control words cost four bytes per group; nothing else grows. */
  lemma {:induction false} EncodeBound(xs: seq<Item>)
    requires AllOk(xs)
    ensures |Encode(xs)| <= Span(Tokens(xs)) + 4 * ((|xs| + GROUP - 1) / GROUP)
    decreases |xs|
  {
    if |xs| <= GROUP {
      PayloadBound(xs);
    } else {
      var head, rest := xs[..GROUP], xs[GROUP..];
      EncodeBound(rest);
      PayloadBound(head);
      assert Tokens(xs) == Tokens(head) + Tokens(rest);
      SpanConcat(Tokens(head), Tokens(rest));
    }
  }

  /** Tokens cost at most four bytes each, whatever they stand for. */
  lemma {:induction false} EncodeShort(xs: seq<Item>)
    requires AllOk(xs)
    ensures |Encode(xs)| <= 4 * |xs| + 4 * ((|xs| + GROUP - 1) / GROUP)
    decreases |xs|
  {
    if |xs| <= GROUP {
      PayloadBound(xs);
    } else {
      EncodeShort(xs[GROUP..]);
      PayloadBound(xs[..GROUP]);
    }
  }

  // ------------------------------------------------------------------ reading

  /** Where a reader stands: cursor and the flags left in the current control word. */
  datatype Cursor = Cursor(pos: nat, word: nat)

  datatype Parsed = Bad | Parsed(tokens: seq<Token>, at: Cursor)

  /** Load the next control word if the current one is used up.  An unmarked word is
      not part of the format. */
  function Refill(s: seq<byte>, c: Cursor): Option<Cursor> {
    if c.word != 1 then Some(c)
    else if c.pos + 4 > |s| || Le32(s, c.pos) < TWO31 then None
    else Some(Cursor(c.pos + 4, Le32(s, c.pos)))
  }

  function ReadToken(s: seq<byte>, c: Cursor): Option<(Token, Cursor)> {
    if c.word % 2 == 1 then
      var (offset, len, width) := ReadMatch(Le32(s, c.pos));
      if c.pos + width > |s| then None
      else Some((Match(offset, len), Cursor(c.pos + width, c.word / 2)))
    else if c.pos >= |s| then None
    else Some((Lit(s[c.pos]), Cursor(c.pos + 1, c.word / 2)))
  }

  /** Read n tokens. */
  function Parse(s: seq<byte>, c: Cursor, n: nat): (r: Parsed)
    ensures r.Parsed? ==> |r.tokens| == n
    decreases n
  {
    if n == 0 then Parsed([], c) else
      match Refill(s, c)
      case None => Bad
      case Some(c1) =>
        match ReadToken(s, c1)
        case None => Bad
        case Some((t, c2)) =>
          match Parse(s, c2, n - 1)
          case Bad => Bad
          case Parsed(ts, end) => Parsed([t] + ts, end)
  }

  lemma ReadTokenAt(s: seq<byte>, pos: nat, w: nat, t: Token)
    requires t.Match? ==> Encodable(t.offset, t.len)
    requires pos + |TokenBytes(t)| <= |s| && s[pos..pos + |TokenBytes(t)|] == TokenBytes(t)
    requires (w % 2 == 1) == t.Match?
    ensures ReadToken(s, Cursor(pos, w)) == Some((t, Cursor(pos + |TokenBytes(t)|, w / 2)))
  {
    if t.Match? {
      ReadMatchAt(s, pos, t.offset, t.len);
    } else {
      assert s[pos] == s[pos..pos + |TokenBytes(t)|][0];
    }
  }

  /** Reading from c yields exactly the tokens ts and stops at `end`. */
  ghost predicate Reads(s: seq<byte>, c: Cursor, ts: seq<Token>, end: Cursor) {
    forall k {:trigger Unseal(k)} :: Unseal(k) ==> Parse(s, c, |ts|) == Parsed(ts, end)
  }

  /** A token in front of a sequence already read. */
  lemma ReadsCons(s: seq<byte>, c: Cursor, x: Item, c': Cursor, rest: seq<Token>, ts: seq<Token>, end: Cursor)
    requires ItemOk(x) && c.pos + |x.code| <= |s| && s[c.pos..c.pos + |x.code|] == x.code
    requires c.word != 1 && (c.word % 2 == 1) == x.token.Match?
    requires c' == Cursor(c.pos + |x.code|, c.word / 2)
    requires ts == [x.token] + rest
    requires Reads(s, c', rest, end)
    ensures Reads(s, c, ts, end)
  {
    assert Unseal(0);
    ReadTokenAt(s, c.pos, c.word, x.token);
  }

  lemma ReadsConcat(s: seq<byte>, c: Cursor, a: seq<Token>, mid: Cursor, b: seq<Token>, end: Cursor)
    requires Reads(s, c, a, mid) && Reads(s, mid, b, end)
    ensures Reads(s, c, a + b, end)
  {
    assert Unseal(0);
    ParseSplit(s, c, |a|, |b|);
  }

  lemma {:induction false} ParseSplit(s: seq<byte>, c: Cursor, m: nat, n: nat)
    ensures match Parse(s, c, m)
            case Bad => Parse(s, c, m + n) == Bad
            case Parsed(ts, mid) =>
              Parse(s, c, m + n) ==
                match Parse(s, mid, n) { case Bad => Bad case Parsed(us, end) => Parsed(ts + us, end) }
    decreases m
  {
    if m == 0 {
      match Parse(s, c, n) {
        case Bad =>
        case Parsed(us, _) => assert [] + us == us;
      }
    } else if Refill(s, c).Some? && ReadToken(s, Refill(s, c).value).Some? {
      var (t, c2) := ReadToken(s, Refill(s, c).value).value;
      ParseSplit(s, c2, m - 1, n);
      if Parse(s, c2, m - 1).Parsed? {
        var ts, mid := Parse(s, c2, m - 1).tokens, Parse(s, c2, m - 1).at;
        if Parse(s, mid, n).Parsed? {
          assert ([t] + ts) + Parse(s, mid, n).tokens == [t] + (ts + Parse(s, mid, n).tokens);
        }
      }
    }
  }

  /** The tokens of one group come back in order. */
  lemma {:induction false} ParsePayload(s: seq<byte>, pos: nat, xs: seq<Item>, pad: nat)
    requires AllOk(xs)
    requires pos + |Payload(xs)| <= |s| && s[pos..pos + |Payload(xs)|] == Payload(xs)
    ensures Reads(s, Cursor(pos, Word(Flags(xs), pad)), Tokens(xs), Cursor(pos + |Payload(xs)|, Word([], pad)))
    decreases |xs|
  {
    if xs == [] {
      assert Flags(xs) == [];
    } else {
      var x, rest := xs[0], xs[1..];
      SliceSplit(s, pos, x.code, Payload(rest));
      WordPop(xs, pad);
      var next := pos + |x.code|;
      ParsePayload(s, next, rest, pad);
      assert Tokens(xs) == [x.token] + Tokens(rest);
      ReadsCons(s, Cursor(pos, Word(Flags(xs), pad)), x, Cursor(next, Word(Flags(rest), pad)), Tokens(rest),
                Tokens(xs), Cursor(next + |Payload(rest)|, Word([], pad)));
    }
  }

  lemma WordPop(xs: seq<Item>, pad: nat)
    requires xs != []
    ensures var w := Word(Flags(xs), pad);
            w != 1 && (w % 2 == 1) == xs[0].token.Match? && w / 2 == Word(Flags(xs[1..]), pad)
  {
    assert Flags(xs)[1..] == Flags(xs[1..]);
  }

  lemma ParseGroup(s: seq<byte>, pos: nat, xs: seq<Item>)
    requires 1 <= |xs| <= GROUP && AllOk(xs)
    requires pos + |Group(xs)| <= |s| && s[pos..pos + |Group(xs)|] == Group(xs)
    ensures Reads(s, Cursor(pos, 1), Tokens(xs), Cursor(pos + |Group(xs)|, Word([], GROUP - |xs|)))
  {
    var w := ControlWord(xs);
    WordMarked(Flags(xs));
    SliceSplit(s, pos, LeBytes(w, CWORD_LEN), Payload(xs));
    ReadWord(s, pos, w);
    ParsePayload(s, pos + 4, xs, GROUP - |xs|);
    ReadsRefill(s, Cursor(pos, 1), Cursor(pos + 4, w), Tokens(xs), Cursor(pos + |Group(xs)|, Word([], GROUP - |xs|)));
  }

  lemma ReadsRefill(s: seq<byte>, c: Cursor, c1: Cursor, ts: seq<Token>, end: Cursor)
    requires ts != [] && Refill(s, c) == Some(c1) && c1.word != 1
    ensures Reads(s, c, ts, end) <==> Reads(s, c1, ts, end)
  {
    assert Unseal(0);
  }

  lemma {:induction false} ReadsEncode(s: seq<byte>, pos: nat, xs: seq<Item>) returns (end: Cursor)
    requires AllOk(xs)
    requires pos + |Encode(xs)| <= |s| && s[pos..pos + |Encode(xs)|] == Encode(xs)
    ensures Reads(s, Cursor(pos, 1), Tokens(xs), end) && end.pos == pos + |Encode(xs)|
    decreases |xs|
  {
    if xs == [] {
      end := Cursor(pos, 1);
    } else if |xs| <= GROUP {
      ParseGroup(s, pos, xs);
      end := Cursor(pos + |Encode(xs)|, Word([], GROUP - |xs|));
    } else {
      var head, tail := xs[..GROUP], xs[GROUP..];
      SliceSplit(s, pos, Group(head), Encode(tail));
      var next := pos + |Group(head)|;
      end := ReadsEncode(s, next, tail);
      ParseGroup(s, pos, head);
      ReadsConcat(s, Cursor(pos, 1), Tokens(head), Cursor(next, 1), Tokens(tail), end);
      assert Tokens(head) + Tokens(tail) == Tokens(xs);
    }
  }

  predicate AllEncodable(ts: seq<Token>) {
    forall t :: t in ts ==> t.Match? ==> Encodable(t.offset, t.len)
  }

  ghost function Items(ts: seq<Token>): (xs: seq<Item>)
    requires AllEncodable(ts)
    ensures AllOk(xs) && Tokens(xs) == ts
  {
    seq(|ts|, i requires 0 <= i < |ts| => Coded(ts[i]))
  }

  /** Token-stream codec: any sequence of literals and encodable matches, written in
      marked groups, parses back to itself wherever it lies and whatever follows it. */
  lemma ParseEncode(before: seq<byte>, ts: seq<Token>, after: seq<byte>)
    requires AllEncodable(ts)
    ensures var s := before + Encode(Items(ts)) + after;
            var r := Parse(s, Cursor(|before|, 1), |ts|);
            r.Parsed? && r.tokens == ts && r.at.pos == |s| - |after|
  {
    var e := Encode(Items(ts));
    var s := before + e + after;
    assert s[|before|..|before| + |e|] == e;
    var end := ReadsEncode(s, |before|, Items(ts));
    assert Unseal(0);
  }
}
