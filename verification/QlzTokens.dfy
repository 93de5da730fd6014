/** The meaning of a level 3 QuickLZ stream: literals and back references, the five
    match codes, and the inverse of each. */
module QlzTokens {
  import opened Bytes

  const MINOFFSET := 2
  const UNCONDITIONAL_MATCHLEN := 6
  const UNCOMPRESSED_END := 4

  datatype Token = Lit(value: byte) | Match(offset: nat, len: nat)

  /** Append n bytes, each copied from `offset` bytes before the end.  With
      offset < n the copy reads bytes it has itself produced. */
  function CopyBack(out: seq<byte>, offset: nat, n: nat): (r: seq<byte>)
    requires 1 <= offset <= |out|
    ensures |r| == |out| + n && r[..|out|] == out
    ensures forall i :: |out| <= i < |r| ==> r[i] == r[i - offset]
  {
    if n == 0 then out else
      var r' := CopyBack(out, offset, n - 1);
      r' + [r'[|r'| - offset]]
  }

  /** The three facts in the contract of CopyBack determine its result. */
  lemma {:induction false} CopyBackUnique(out: seq<byte>, offset: nat, n: nat, r: seq<byte>)
    requires 1 <= offset <= |out|
    requires |r| == |out| + n && r[..|out|] == out
    requires forall i :: |out| <= i < |r| ==> r[i] == r[i - offset]
    ensures r == CopyBack(out, offset, n)
  {
    if n == 0 {
      assert r == r[..|out|];
    } else {
      var r' := r[..|r| - 1];
      assert r'[..|out|] == out;
      CopyBackUnique(out, offset, n - 1, r');
      assert r == r' + [r'[|r'| - offset]];
    }
  }

  /** One decoding step on the text produced so far.  An offset that reaches before
      the start of the text denotes nothing. */
  function Apply(out: seq<byte>, t: Token): (r: seq<byte>)
    ensures |r| >= |out| && r[..|out|] == out
  {
    match t
    case Lit(b) => out + [b]
    case Match(offset, len) => if 1 <= offset <= |out| then CopyBack(out, offset, len) else out
  }

  /** The text a token sequence adds to `out`. */
  function Play(out: seq<byte>, ts: seq<Token>): (r: seq<byte>)
    decreases |ts|
  {
    if ts == [] then out else Play(Apply(out, ts[0]), ts[1..])
  }

  lemma {:induction false} PlayAppend(out: seq<byte>, ts: seq<Token>, t: Token)
    ensures Play(out, ts + [t]) == Apply(Play(out, ts), t)
    decreases |ts|
  {
    if ts == [] {
      assert (ts + [t])[1..] == [];
      assert Play(Apply(out, t), []) == Apply(out, t);
    } else {
      assert (ts + [t])[1..] == ts[1..] + [t];
      PlayAppend(Apply(out, ts[0]), ts[1..], t);
    }
  }

  function Len(t: Token): nat {
    match t
    case Lit(_) => 1
    case Match(_, len) => len
  }

  function Span(ts: seq<Token>): nat {
    if ts == [] then 0 else Len(ts[0]) + Span(ts[1..])
  }

  lemma {:induction false} SpanConcat(a: seq<Token>, b: seq<Token>)
    ensures Span(a + b) == Span(a) + Span(b)
    decreases |a|
  {
    if a == [] {
      assert a + b == b;
    } else {
      assert (a + b)[1..] == a[1..] + b;
      SpanConcat(a[1..], b);
    }
  }

  /** What the compressor promises about a token that starts at position p of a text of
      `size` bytes: matches are in code range, start no later than last_matchstart and
      leave the last UNCOMPRESSED_END bytes to literals. */
  predicate TokenOk(t: Token, p: nat, size: nat) {
    match t
    case Lit(_) => p < size
    case Match(offset, len) =>
      && Encodable(offset, len)
      && offset <= p
      && p + UNCONDITIONAL_MATCHLEN + UNCOMPRESSED_END + 1 <= size
      && p + len + UNCOMPRESSED_END <= size
  }

  predicate Encodable(offset: nat, len: nat) {
    MINOFFSET + 1 <= offset <= 131070 && 3 <= len <= 255
  }

  predicate Legal(ts: seq<Token>, p: nat, size: nat) {
    ts == [] || (TokenOk(ts[0], p, size) && Legal(ts[1..], p + Len(ts[0]), size))
  }

  lemma {:induction false} LegalAppend(ts: seq<Token>, t: Token, p: nat, size: nat)
    requires Legal(ts, p, size) && TokenOk(t, p + Span(ts), size)
    ensures Legal(ts + [t], p, size)
    decreases |ts|
  {
    if ts == [] {
      assert (ts + [t])[1..] == [];
    } else {
      assert (ts + [t])[1..] == ts[1..] + [t];
      LegalAppend(ts[1..], t, p + Len(ts[0]), size);
    }
  }

  lemma {:induction false} PlayLength(out: seq<byte>, ts: seq<Token>, size: nat)
    requires Legal(ts, |out|, size)
    ensures |Play(out, ts)| == |out| + Span(ts)
    decreases |ts|
  {
    if ts != [] {
      PlayLength(Apply(out, ts[0]), ts[1..], size);
    }
  }

  /** The five match forms.  The shifted fields do not overlap, so `|` is addition. */
  function MatchCode(offset: nat, len: nat): (c: (nat, nat))
    requires Encodable(offset, len)
    ensures 1 <= c.1 <= 4 && c.1 <= len
    ensures c.1 == 1 ==> c.0 < 0x100
    ensures c.1 == 2 ==> c.0 < 0x1_0000
    ensures c.1 == 3 ==> c.0 < 0x100_0000
    ensures c.0 < TWO32
  {
    if len == 3 && offset <= 63 then (offset * 4, 1)
    else if len == 3 && offset <= 16383 then (offset * 4 + 1, 2)
    else if len <= 18 && offset <= 1023 then ((len - 3) * 4 + offset * 64 + 2, 2)
    else if len <= 33 then ((len - 2) * 4 + offset * 128 + 3, 3)
    else ((len - 3) * 128 + offset * 32768 + 3, 4)
  }

  /** One code of each form: value and width. */
  lemma MatchCodeValues()
    ensures MatchCode(5, 3) == (0x14, 1) && MatchCode(64, 3) == (0x0101, 2) && MatchCode(3, 15) == (0x00f2, 2)
    ensures MatchCode(1024, 4) == (0x02000b, 3) && MatchCode(3, 255) == (0x0001fe03, 4)
  {
  }

  /** A match read from the four bytes at the cursor: offset, length and code width.
      The source tests bits 1 and 0 one after the other; with both clear first, the
      remaining cases are the low two bits 01, 10 and 11, and in the last one
      the test on the low seven bits says that the next five bits are not all clear. */
  function ReadMatch(fetch: nat): (m: (nat, nat, nat))
    requires fetch < TWO32
    ensures 3 <= m.1 <= 258 && 1 <= m.2 <= 4
  {
    if fetch % 4 == 0 then (fetch % 0x100 / 4, 3, 1)
    else if fetch % 4 == 1 then (fetch % 0x1_0000 / 4, 3, 2)
    else if fetch % 4 == 2 then (fetch % 0x1_0000 / 64, fetch / 4 % 16 + 3, 2)
    else if fetch / 4 % 32 != 0 then (fetch / 128 % 0x2_0000, fetch / 4 % 32 + 2, 3)
    else (fetch / 0x8000, fetch / 128 % 256 + 3, 4)
  }

  /** The value of one code of width w with arbitrary bytes above it. */
  function Above(rest: nat, w: nat): (r: nat) {
    match w case 1 => rest * 0x100 case 2 => rest * 0x1_0000 case 3 => rest * 0x100_0000 case _ => 0
  }

  lemma ReadForm1(offset: nat, rest: nat)
    requires offset <= 63 && offset * 4 + rest * 0x100 < TWO32
    ensures ReadMatch(offset * 4 + rest * 0x100) == (offset, 3, 1)
  {
    var f := offset * 4 + rest * 0x100;
    DivMod(f, 4, offset + rest * 64, 0);
    DivMod(f, 0x100, rest, offset * 4);
  }

  lemma ReadForm2(offset: nat, rest: nat)
    requires offset <= 16383 && offset * 4 + 1 + rest * 0x1_0000 < TWO32
    ensures ReadMatch(offset * 4 + 1 + rest * 0x1_0000) == (offset, 3, 2)
  {
    var f := offset * 4 + 1 + rest * 0x1_0000;
    DivMod(f, 4, offset + rest * 0x4000, 1);
    DivMod(f, 0x1_0000, rest, offset * 4 + 1);
    DivMod(offset * 4 + 1, 4, offset, 1);
  }

  lemma ReadForm3(offset: nat, len: nat, rest: nat)
    requires offset <= 1023 && 3 <= len <= 18
    requires (len - 3) * 4 + offset * 64 + 2 + rest * 0x1_0000 < TWO32
    ensures ReadMatch((len - 3) * 4 + offset * 64 + 2 + rest * 0x1_0000) == (offset, len, 2)
  {
    var code := (len - 3) * 4 + offset * 64 + 2;
    var f := code + rest * 0x1_0000;
    var high := (len - 3) + 16 * (offset + rest * 1024);
    DivMod(f, 4, high, 2);
    DivMod(high, 16, offset + rest * 1024, len - 3);
    DivMod(f, 0x1_0000, rest, code);
    DivMod(code, 64, offset, (len - 3) * 4 + 2);
  }

  lemma ReadForm4(offset: nat, len: nat, rest: nat)
    requires offset <= 131070 && 3 <= len <= 33
    requires (len - 2) * 4 + offset * 128 + 3 + rest * 0x100_0000 < TWO32
    ensures ReadMatch((len - 2) * 4 + offset * 128 + 3 + rest * 0x100_0000) == (offset, len, 3)
  {
    var f := (len - 2) * 4 + offset * 128 + 3 + rest * 0x100_0000;
    var high := (len - 2) + 32 * (offset + rest * 0x2_0000);
    DivMod(f, 4, high, 3);
    DivMod(high, 32, offset + rest * 0x2_0000, len - 2);
    DivMod(f, 128, offset + rest * 0x2_0000, (len - 2) * 4 + 3);
    DivMod(offset + rest * 0x2_0000, 0x2_0000, rest, offset);
  }

  lemma ReadForm5(offset: nat, len: nat)
    requires offset <= 131070 && 3 <= len <= 255
    ensures (len - 3) * 128 + offset * 32768 + 3 < TWO32
    ensures ReadMatch((len - 3) * 128 + offset * 32768 + 3) == (offset, len, 4)
  {
    var f := (len - 3) * 128 + offset * 32768 + 3;
    var high := (len - 3) + 256 * offset;
    DivMod(f, 4, 32 * high, 3);
    DivMod(32 * high, 32, high, 0);
    DivMod(f, 128, high, 3);
    DivMod(high, 256, offset, len - 3);
    DivMod(f, 0x8000, offset, (len - 3) * 128 + 3);
  }

  /** Every match code is read back exactly, whatever bytes follow it. */
  lemma MatchCodeInverse(offset: nat, len: nat, rest: nat)
    requires Encodable(offset, len)
    requires var (f, w) := MatchCode(offset, len); f + Above(rest, w) < TWO32
    ensures var (f, w) := MatchCode(offset, len);
            ReadMatch(f + Above(rest, w)) == (offset, len, w)
  {
    if len == 3 && offset <= 63 {
      ReadForm1(offset, rest);
    } else if len == 3 && offset <= 16383 {
      ReadForm2(offset, rest);
    } else if len <= 18 && offset <= 1023 {
      ReadForm3(offset, len, rest);
    } else if len <= 33 {
      ReadForm4(offset, len, rest);
    } else {
      ReadForm5(offset, len);
    }
  }

  function TokenBytes(t: Token): (s: seq<byte>)
    requires t.Match? ==> Encodable(t.offset, t.len)
    ensures 1 <= |s| <= 4 && |s| <= Len(t)
  {
    match t
    case Lit(b) => [b]
    case Match(offset, len) => var (f, w) := MatchCode(offset, len); LeBytes(f, w)
  }

  /** Reading a match at position i of a buffer that holds its code there. */
  lemma ReadMatchAt(s: seq<byte>, i: nat, offset: nat, len: nat)
    requires Encodable(offset, len)
    requires var c := TokenBytes(Match(offset, len)); i + |c| <= |s| && s[i..i + |c|] == c
    ensures ReadMatch(Le32(s, i)) == (offset, len, |TokenBytes(Match(offset, len))|)
  {
    var (f, w) := MatchCode(offset, len);
    ReadPartialWord(s, i, f, w);
    var rest := WordTail(s, i, w);
    MatchCodeInverse(offset, len, rest);
  }

  /** The bytes of the word at i that lie above its low w bytes. */
  function WordTail(s: seq<byte>, i: nat, w: nat): nat {
    var a1: int, a2: int, a3: int := At(s, i + 1), At(s, i + 2), At(s, i + 3);
    match w
    case 1 => a1 + 0x100 * a2 + 0x1_0000 * a3
    case 2 => a2 + 0x100 * a3
    case 3 => a3
    case _ => 0
  }

  lemma ReadPartialWord(s: seq<byte>, i: nat, f: nat, w: nat)
    requires 1 <= w <= 4 && i + w <= |s| && s[i..i + w] == LeBytes(f, w)
    requires w == 1 ==> f < 0x100
    requires w == 2 ==> f < 0x1_0000
    requires w == 3 ==> f < 0x100_0000
    requires f < TWO32
    ensures Le32(s, i) == f + Above(WordTail(s, i, w), w)
  {
    WordBytes(f);
    WordSum(f);
    var c := s[i..i + w];
    assert s[i] == c[0];
    if w >= 2 { assert s[i + 1] == c[1]; }
    if w >= 3 { assert s[i + 2] == c[2]; }
    if w == 4 { assert s[i + 3] == c[3]; }
  }
}
