/** The decoder as compiled: four-byte copies into a fixed buffer, a table that takes up
    to four literals at once, and bounds checks against the packet's own lengths.  Each
    method is proved to do what the value-level decoder says, on every input, touching
    nothing outside the declared lengths. */
module QlzDecodeMachine {
  import opened Bytes
  import opened QlzTokens
  import opened QlzStream
  import opened QlzDecoder

  /** `memcpy_up`: four bytes at a time, three bytes forward each time.  With an offset
      of at least three the first n bytes equal a byte-by-byte forward copy; at most
      three bytes beyond are overwritten. */
  method CopyUp(dst: array<byte>, d: nat, offset: nat, n: nat)
    requires MINOFFSET + 1 <= offset <= d && 1 <= n && d + n + 3 <= dst.Length
    modifies dst
    ensures dst[..d + n] == CopyBack(old(dst[..d]), offset, n)
    ensures dst[d + n + 3..] == old(dst[d + n + 3..])
  {
    ghost var before := dst[..d];
    var f := 0;
    while f < n
      invariant 0 <= f <= n + 2
      invariant dst[..d] == before
      invariant forall i :: d <= i < d + f ==> dst[i] == dst[i - offset]
      invariant forall i :: d + n + 3 <= i < dst.Length ==> dst[i] == old(dst[i])
    {
      var p, q := d + f - offset, d + f;
      dst[q], dst[q + 1], dst[q + 2], dst[q + 3] := dst[p], dst[p + 1], dst[p + 2], dst[p + 3];
      f := f + MINOFFSET + 1;
    }
    CopyBackUnique(before, offset, n, dst[..d + n]);
  }

  // ------------------------------------------------------------------ literal runs

  const BITLUT: seq<nat> := [4, 0, 1, 0, 2, 0, 1, 0, 3, 0, 1, 0, 2, 0, 1, 0]

  function Power(n: nat): nat
    requires n <= 4
  {
    [1, 2, 4, 8, 16][n]
  }

  /** The table gives the number of literals before the next set bit. */
  lemma BitlutStep(s: seq<byte>, c: Cursor, out: seq<byte>)
    requires c.pos + 4 <= |s| && c.word % 2 == 0
    ensures var n := BITLUT[c.word % 16];
            && 1 <= n <= 4
            && TakeLits(s, c, out, LOOKAHEAD) == (Cursor(c.pos + n, c.word / Power(n)), out + s[c.pos..c.pos + n])
  {
    var p, w := c.pos, c.word;
    var n := BITLUT[w % 16];
    var c1, o1 := Cursor(p + 1, w / 2), out + [s[p]];
    assert o1 == out + s[p..p + 1];
    assert TakeLits(s, c, out, 4) == TakeLits(s, c1, o1, 3);
    if w / 2 % 2 == 0 {
      var c2, o2 := Cursor(p + 2, w / 4), o1 + [s[p + 1]];
      assert o2 == out + s[p..p + 2];
      assert w / 2 / 2 == w / 4;
      assert TakeLits(s, c1, o1, 3) == TakeLits(s, c2, o2, 2);
      if w / 4 % 2 == 0 {
        var c3, o3 := Cursor(p + 3, w / 8), o2 + [s[p + 2]];
        assert o3 == out + s[p..p + 3];
        assert w / 4 / 2 == w / 8;
        assert TakeLits(s, c2, o2, 2) == TakeLits(s, c3, o3, 1);
        if w / 8 % 2 == 0 {
          var c4, o4 := Cursor(p + 4, w / 16), o3 + [s[p + 3]];
          assert o4 == out + s[p..p + 4];
          assert w / 8 / 2 == w / 16;
          assert TakeLits(s, c3, o3, 1) == TakeLits(s, c4, o4, 0);
          assert w % 16 == 0;
        } else {
          assert w % 16 == 8;
        }
      } else {
        assert w % 8 == 4;
      }
    } else {
      assert w % 4 == 2;
    }
  }

  /** A four-byte store, of which the first n bytes are kept. */
  method Copy4(dst: array<byte>, d: nat, s: seq<byte>, p: nat, ghost n: nat)
    requires d + 4 <= dst.Length && p + 4 <= |s| && n <= 4
    modifies dst
    ensures dst[..d + n] == old(dst[..d]) + s[p..p + n]
    ensures dst[d + 4..] == old(dst[d + 4..])
  {
    dst[d], dst[d + 1], dst[d + 2], dst[d + 3] := s[p], s[p + 1], s[p + 2], s[p + 3];
    assert dst[..d] == old(dst[..d]);
    assert dst[d..d + n] == s[p..p + n];
    assert dst[..d + n] == dst[..d] + dst[d..d + n];
  }

  // ------------------------------------------------------------------ loop heads

  /** From this loop head the value-level decoder yields `goal`. */
  ghost predicate Owes(s: seq<byte>, size: nat, c: Cursor, out: seq<byte>, goal: Option<seq<byte>>)
    requires out == [] || |out| + UNCOMPRESSED_END <= size
    requires size < TWO32
  {
    forall k {:trigger Unseal(k)} :: Unseal(k) ==> Decode(s, size, c, out) == goal
  }

  lemma OwesNothing(s: seq<byte>, size: nat, c: Cursor, out: seq<byte>, goal: Option<seq<byte>>)
    requires size < TWO32 && (out == [] || |out| + UNCOMPRESSED_END <= size)
    requires Owes(s, size, c, out, goal)
    requires NextWord(s, c).None? || NextWord(s, c).value.pos + 4 > |s|
    ensures goal == None
  {
    assert Unseal(0);
  }

  lemma OwesMatch(s: seq<byte>, size: nat, c: Cursor, c1: Cursor, out: seq<byte>, goal: Option<seq<byte>>)
    requires size < TWO32 && (out == [] || |out| + UNCOMPRESSED_END <= size)
    requires Owes(s, size, c, out, goal)
    requires NextWord(s, c) == Some(c1) && c1.pos + 4 <= |s| && c1.word % 2 == 1
    ensures match MatchStep(s, size, c1, out)
            case None => goal == None
            case Some((c2, out')) => Owes(s, size, c2, out', goal)
  {
    assert Unseal(0);
  }

  lemma OwesLits(s: seq<byte>, size: nat, c: Cursor, c1: Cursor, out: seq<byte>, goal: Option<seq<byte>>)
    requires size < TWO32 && |out| < size - 11
    requires Owes(s, size, c, out, goal)
    requires NextWord(s, c) == Some(c1) && c1.pos + 4 <= |s| && c1.word % 2 == 0
    ensures var n := BITLUT[c1.word % 16];
            && 1 <= n <= 4
            && Owes(s, size, Cursor(c1.pos + n, c1.word / Power(n)), out + s[c1.pos..c1.pos + n], goal)
  {
    assert Unseal(0);
    BitlutStep(s, c1, out);
  }

  lemma OwesTail(s: seq<byte>, size: nat, c: Cursor, c1: Cursor, out: seq<byte>, goal: Option<seq<byte>>)
    requires size < TWO32 && (out == [] || |out| + UNCOMPRESSED_END <= size) && |out| >= size - 11
    requires Owes(s, size, c, out, goal)
    requires NextWord(s, c) == Some(c1) && c1.pos + 4 <= |s| && c1.word % 2 == 0
    ensures |out| <= size && goal == Tail(s, size, c1, out)
  {
    assert Unseal(0);
  }

  // ------------------------------------------------------------------ the decoder

  /** The closing loop over literals. */
  method CopyTail(s: seq<byte>, dst: array<byte>, size: nat, d0: nat, src0: nat, w0: nat) returns (ok: bool)
    requires d0 <= size <= dst.Length
    modifies dst
    ensures ok == Tail(s, size, Cursor(src0, w0), old(dst[..d0])).Some?
    ensures ok ==> dst[..size] == Tail(s, size, Cursor(src0, w0), old(dst[..d0])).value
    ensures dst[size..] == old(dst[size..])
  {
    ghost var goal := Tail(s, size, Cursor(src0, w0), dst[..d0]);
    var d: nat, src: nat, cword: nat := d0, src0, w0;
    while d < size
      invariant d0 <= d <= size
      invariant Tail(s, size, Cursor(src, cword), dst[..d]) == goal
      invariant dst[size..] == old(dst[size..])
    {
      if cword == 1 {
        src := src + 4;
        cword := TWO31;
      }
      if src >= |s| {
        return false;
      }
      dst[d] := s[src];
      assert dst[..d + 1] == dst[..d] + [s[src]];
      d, src, cword := d + 1, src + 1, cword / 2;
    }
    return true;
  }

  /** One back reference. */
  method TakeMatch(s: seq<byte>, dst: array<byte>, size: nat, d: nat, src: nat, cword: nat,
                   ghost c: Cursor, ghost goal: Option<seq<byte>>)
    returns (ok: bool, d': nat, src': nat, cword': nat)
    requires size <= dst.Length && size < TWO32 && (d == 0 || d + UNCOMPRESSED_END <= size)
    requires Owes(s, size, c, dst[..d], goal)
    requires NextWord(s, c) == Some(Cursor(src, cword)) && src + 4 <= |s| && cword % 2 == 1
    modifies dst
    ensures !ok ==> goal == None
    ensures ok ==> d < d' && d' + UNCOMPRESSED_END <= size
    ensures ok ==> Owes(s, size, Cursor(src', cword'), dst[..d'], goal)
    ensures dst[size..] == old(dst[size..])
  {
    ghost var out := dst[..d];
    OwesMatch(s, size, c, Cursor(src, cword), out, goal);
    var (offset, len, width) := ReadMatch(FastRead(s, src));
    ok, d', src', cword' := false, d, src + width, cword / 2;
    if d - offset < 0 || d - offset > d - MINOFFSET - 1 {
      return;
    }
    if len > U32(size - 1 - d - UNCOMPRESSED_END + 1) {
      return;
    }
    CopyUp(dst, d, offset, len);
    ok, d' := true, d + len;
    assert dst[..d'] == CopyBack(out, offset, len);
  }

  /** Up to four literals. */
  method TakeLiterals(s: seq<byte>, dst: array<byte>, size: nat, d: nat, src: nat, cword: nat,
                      ghost c: Cursor, ghost goal: Option<seq<byte>>)
    returns (d': nat, src': nat, cword': nat)
    requires size <= dst.Length && size < TWO32 && d < size - 11
    requires Owes(s, size, c, dst[..d], goal)
    requires NextWord(s, c) == Some(Cursor(src, cword)) && src + 4 <= |s| && cword % 2 == 0
    modifies dst
    ensures d < d' && d' + UNCOMPRESSED_END <= size
    ensures Owes(s, size, Cursor(src', cword'), dst[..d'], goal)
    ensures dst[size..] == old(dst[size..])
  {
    OwesLits(s, size, c, Cursor(src, cword), dst[..d], goal);
    var n := BITLUT[cword % 16];
    ghost var next := dst[..d] + s[src..src + n];
    Copy4(dst, d, s, src, n);
    d', src', cword' := d + n, src + n, cword / Power(n);
    assert dst[..d'] == next;
  }

  /** `qlz_decompress_core`.  `s` is the packet up to its declared compressed size, so
      every read is checked against that size; `header` is where the stream starts. */
  method DecompressCore(s: seq<byte>, header: nat, dst: array<byte>, size: nat) returns (r: nat)
    requires size <= dst.Length && size < TWO32
    modifies dst
    ensures match Decode(s, size, Cursor(header, 1), [])
            case Some(text) => r == size && dst[..size] == text
            case None => r == 0
    ensures dst[size..] == old(dst[size..])
  {
    ghost var goal := Decode(s, size, Cursor(header, 1), []);
    var src: nat, d: nat, cword: nat := header, 0, 1;
    assert dst[..0] == [];
    while true
      invariant d == 0 || d + UNCOMPRESSED_END <= size
      invariant Owes(s, size, Cursor(src, cword), dst[..d], goal)
      invariant dst[size..] == old(dst[size..])
      decreases size - d
    {
      ghost var c := Cursor(src, cword);
      if cword == 1 {
        if src + 4 - 1 > |s| - 1 {
          OwesNothing(s, size, c, dst[..d], goal);
          return 0;
        }
        cword := FastRead(s, src);
        src := src + 4;
      }
      if src + 4 - 1 > |s| - 1 {
        OwesNothing(s, size, c, dst[..d], goal);
        return 0;
      }
      if cword % 2 == 1 {
        var ok;
        ok, d, src, cword := TakeMatch(s, dst, size, d, src, cword, c, goal);
        if !ok {
          return 0;
        }
      } else if d < size - 1 - UNCONDITIONAL_MATCHLEN - UNCOMPRESSED_END {
        d, src, cword := TakeLiterals(s, dst, size, d, src, cword, c, goal);
      } else {
        OwesTail(s, size, c, Cursor(src, cword), dst[..d], goal);
        var ok := CopyTail(s, dst, size, d, src, cword);
        return if ok then size else 0;
      }
    }
  }
}
