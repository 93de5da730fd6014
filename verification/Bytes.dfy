/** Bytes, little-endian words and the fixed-width reads the compressor relies on.
    Machine words are modelled as integers: a shift by k is a multiplication or
    division by 2^k, and a mask of the low k bits is a remainder modulo 2^k. */
module Bytes {

  type byte = b: int | 0 <= b < 256

  const TWO31: int := 0x8000_0000
  const TWO32: int := 0x1_0000_0000

  /** Always true.  Facts stated under this trigger are unfolded only in proofs that
      mention it, which keeps the solver out of slices and bit arithmetic elsewhere. */
  ghost predicate Unseal(k: int) {
    true
  }

  datatype Option<+T> = None | Some(value: T)

  /** The byte at position i; positions outside the sequence read as zero. */
  function At(s: seq<byte>, i: int): byte {
    if 0 <= i < |s| then s[i] else 0
  }

  /** x shifted left by n bits. */
  function Shl(x: nat, n: nat): (r: nat) {
    if n == 0 then x else 2 * Shl(x, n - 1)
  }

  /** Position i lies inside the sequence. */
  predicate Inside(s: seq<byte>, i: nat) {
    i < |s|
  }

  /** The 32-bit little-endian word at position i. */
  function Le32(s: seq<byte>, i: int): (w: int)
    ensures 0 <= w < TWO32
  {
    At(s, i) + 0x100 * At(s, i + 1) + 0x1_0000 * At(s, i + 2) + 0x100_0000 * At(s, i + 3)
  }

  /** `fast_read`: always a four-byte load. */
  function FastRead(s: seq<byte>, i: nat): (w: int)
    requires i + 4 <= |s|
    ensures 0 <= w < TWO32
  {
    Le32(s, i)
  }

  /** The n low bytes of a word, least significant first. */
  function LeBytes(f: nat, n: nat): (s: seq<byte>)
    ensures |s| == n
  {
    if n == 0 then [] else [f % 256] + LeBytes(f / 256, n - 1)
  }

  /** Quotient and remainder are determined by their defining equation. */
  lemma DivMod(x: int, m: int, q: int, r: int)
    requires 0 <= r < m && x == q * m + r
    ensures x / m == q && x % m == r
  {
    var q', r' := x / m, x % m;
    assert x == q' * m + r';
    EuclidUnique(m, q, r, q', r');
  }

  lemma EuclidUnique(m: int, q: int, r: int, q': int, r': int)
    requires 0 <= r < m && 0 <= r' < m && q * m + r == q' * m + r'
    ensures q == q' && r == r'
  {
    var d := q - q';
    assert d * m == r' - r;
    if d >= 1 {
      MulAtLeast(d, m);
    } else if d <= -1 {
      MulAtLeast(-d, m);
    }
  }

  lemma MulAtLeast(d: int, m: int)
    requires d >= 1 && m >= 0
    ensures d * m >= m
  {
  }

  /** A word is the sum of its bytes. */
  lemma WordSum(f: nat)
    ensures f < 0x100 ==> f == f % 256
    ensures f < 0x1_0000 ==> f == f % 256 + 0x100 * (f / 256 % 256)
    ensures f < 0x100_0000 ==> f == f % 256 + 0x100 * (f / 256 % 256) + 0x1_0000 * (f / 0x1_0000 % 256)
    ensures f < TWO32 ==>
      f == f % 256 + 0x100 * (f / 256 % 256) + 0x1_0000 * (f / 0x1_0000 % 256) + 0x100_0000 * (f / 0x100_0000 % 256)
  {
    var q1 := f / 256;
    var q2 := q1 / 256;
    var q3 := q2 / 256;
    assert f == 256 * q1 + f % 256;
    assert q1 == 256 * q2 + q1 % 256;
    assert q2 == 256 * q3 + q2 % 256;
    assert q2 == f / 0x1_0000;
    assert q3 == f / 0x100_0000;
    assert f < TWO32 ==> q3 % 256 == q3;
  }

  /** What LeBytes writes, Le32 reads back. */
  lemma ReadWord(s: seq<byte>, i: nat, f: nat)
    requires f < TWO32
    requires i + 4 <= |s| && s[i..i + 4] == LeBytes(f, 4)
    ensures Le32(s, i) == f
  {
    var c := s[i..i + 4];
    WordBytes(f);
    WordSum(f);
    assert s[i] == c[0] && s[i + 1] == c[1] && s[i + 2] == c[2] && s[i + 3] == c[3];
  }

  lemma WordBytes(f: nat)
    ensures LeBytes(f, 1) == [f % 256]
    ensures LeBytes(f, 2) == [f % 256, f / 256 % 256]
    ensures LeBytes(f, 3) == [f % 256, f / 256 % 256, f / 0x1_0000 % 256]
    ensures LeBytes(f, 4) == [f % 256, f / 256 % 256, f / 0x1_0000 % 256, f / 0x100_0000 % 256]
  {
    assert f / 256 / 256 == f / 0x1_0000;
    assert f / 0x1_0000 / 256 == f / 0x100_0000;
    assert LeBytes(f / 0x100_0000, 1) == [f / 0x100_0000 % 256];
    assert LeBytes(f / 0x1_0000, 1) == [f / 0x1_0000 % 256];
    assert LeBytes(f / 0x1_0000, 2) == [f / 0x1_0000 % 256] + LeBytes(f / 0x100_0000, 1);
    assert LeBytes(f / 256, 1) == [f / 256 % 256];
    assert LeBytes(f / 256, 2) == [f / 256 % 256] + LeBytes(f / 0x1_0000, 1);
    assert LeBytes(f / 256, 3) == [f / 256 % 256] + LeBytes(f / 0x1_0000, 2);
  }

  /** Bytes found at a position, split in two. */
  lemma SliceSplit(s: seq<byte>, pos: nat, a: seq<byte>, b: seq<byte>)
    requires pos + |a| + |b| <= |s| && s[pos..pos + |a| + |b|] == a + b
    ensures s[pos..pos + |a|] == a
    ensures s[pos + |a|..pos + |a| + |b|] == b
  {
    var ab := s[pos..pos + |a| + |b|];
    assert s[pos..pos + |a|] == ab[..|a|];
    assert s[pos + |a|..pos + |a| + |b|] == ab[|a|..];
  }

  /** Bytes found next to each other, joined. */
  lemma SliceJoin(s: seq<byte>, pos: nat, a: seq<byte>, b: seq<byte>)
    requires pos + |a| + |b| <= |s|
    requires s[pos..pos + |a|] == a && s[pos + |a|..pos + |a| + |b|] == b
    ensures s[pos..pos + |a| + |b|] == a + b
  {
    assert s[pos..pos + |a| + |b|] == s[pos..pos + |a|] + s[pos + |a|..pos + |a| + |b|];
  }

  lemma ConcatAssoc(a: seq<byte>, b: seq<byte>, c: seq<byte>)
    ensures a + (b + c) == (a + b) + c
  {
  }

  /** The bytes e stand in b at position pos. */
  ghost predicate Holds(b: seq<byte>, pos: nat, e: seq<byte>) {
    forall k {:trigger Unseal(k)} :: Unseal(k) ==> pos + |e| <= |b| && b[pos..pos + |e|] == e
  }

  /** a and b agree from lo up to hi. */
  ghost predicate Agree(a: seq<byte>, b: seq<byte>, lo: nat, hi: nat) {
    forall k {:trigger Unseal(k)} :: Unseal(k) ==> lo <= hi <= |a| && hi <= |b| && a[lo..hi] == b[lo..hi]
  }

  lemma HoldsJoin(b: seq<byte>, pos: nat, x: seq<byte>, y: seq<byte>)
    requires Holds(b, pos, x) && Holds(b, pos + |x|, y)
    ensures Holds(b, pos, x + y)
  {
    assert Unseal(0);
    SliceJoin(b, pos, x, y);
  }

  /** Bytes inside a region left alone are still there. */
  lemma HoldsKept(a: seq<byte>, b: seq<byte>, lo: nat, hi: nat, pos: nat, e: seq<byte>)
    requires Holds(a, pos, e) && Agree(a, b, lo, hi) && lo <= pos && pos + |e| <= hi
    ensures Holds(b, pos, e)
  {
    assert Unseal(0);
    SliceSlice(a, lo, hi, pos, pos + |e|);
    SliceSlice(b, lo, hi, pos, pos + |e|);
  }

  lemma SliceSlice(a: seq<byte>, lo: nat, hi: nat, i: nat, j: nat)
    requires lo <= i <= j <= hi <= |a|
    ensures a[lo..hi][i - lo..j - lo] == a[i..j]
  {
    var m, x, y := a[lo..hi], a[lo..hi][i - lo..j - lo], a[i..j];
    forall k | 0 <= k < |x|
      ensures x[k] == y[k]
    {
      assert x[k] == m[i - lo + k] == a[lo + (i - lo + k)];
    }
  }

  lemma AgreeTrans(a: seq<byte>, b: seq<byte>, c: seq<byte>, lo: nat, hi: nat)
    requires Agree(a, b, lo, hi) && Agree(b, c, lo, hi)
    ensures Agree(a, c, lo, hi)
  {
    assert Unseal(0);
  }

  lemma AgreePart(a: seq<byte>, b: seq<byte>, lo: nat, hi: nat, i: nat, j: nat)
    requires Agree(a, b, lo, hi) && lo <= i <= j <= hi
    ensures Agree(a, b, i, j)
  {
    assert Unseal(0);
    SliceSlice(a, lo, hi, i, j);
    SliceSlice(b, lo, hi, i, j);
  }
}
