/** The level 3 match finder: a table of the sixteen most recent positions per hash
    value, an eight-bit counter per value that wraps, and the search for the longest
    earlier occurrence of the bytes at the cursor. */
module QlzFinder {
  import opened Bytes

  const HASH_VALUES := 4096
  const POINTERS := 16

  /** Bitwise exclusive-or. */
  function Xor(x: nat, y: nat): nat
    decreases x + y
  {
    if x + y == 0 then 0 else (x + y) % 2 + 2 * Xor(x / 2, y / 2)
  }

  /** `hash_func`: the low twelve bits of the fetched word, exclusive-or bits 12..23. */
  function Hash(fetch: nat): (h: nat)
    requires fetch < TWO32
    ensures h < HASH_VALUES
  {
    Xor(fetch / 4096, fetch) % 4096
  }

  function Bit(x: nat, i: nat): (b: nat)
    ensures b <= 1
    decreases i
  {
    if i == 0 then x % 2 else Bit(x / 2, i - 1)
  }

  lemma {:induction false} XorBit(x: nat, y: nat, i: nat)
    ensures Bit(Xor(x, y), i) == (Bit(x, i) + Bit(y, i)) % 2
    decreases i
  {
    XorHalf(x, y);
    if i > 0 {
      XorBit(x / 2, y / 2, i - 1);
    } else {
      OddSum(x, y);
    }
  }

  lemma XorHalf(x: nat, y: nat)
    ensures Xor(x, y) / 2 == Xor(x / 2, y / 2) && Xor(x, y) % 2 == (x + y) % 2
  {
    LowBit((x + y) % 2, Xor(x / 2, y / 2));
  }

  lemma LowBit(b: nat, r: nat)
    requires b <= 1
    ensures (b + 2 * r) / 2 == r && (b + 2 * r) % 2 == b
  {
  }

  lemma OddSum(x: nat, y: nat)
    ensures (x + y) % 2 == (x % 2 + y % 2) % 2
  {
  }

  /** How many bytes starting at a and at b agree, at most cap. */
  function Common(s: seq<byte>, a: nat, b: nat, cap: nat): (n: nat)
    requires a <= b && b + cap <= |s|
    ensures n <= cap
    decreases cap
  {
    if cap == 0 || s[a] != s[b] then 0 else 1 + Common(s, a + 1, b + 1, cap - 1)
  }

  lemma SliceCons(s: seq<byte>, a: nat, n: nat)
    requires a + 1 + n <= |s|
    ensures s[a..a + 1 + n] == [s[a]] + s[a + 1..a + 1 + n]
  {
  }

  lemma SliceSnoc(s: seq<byte>, a: nat, n: nat)
    requires a + n < |s|
    ensures s[a..a + n + 1] == s[a..a + n] + [s[a + n]]
  {
  }

  /** The agreeing bytes agree, and the next ones do not. */
  lemma {:induction false} CommonAgrees(s: seq<byte>, a: nat, b: nat, cap: nat)
    requires a <= b && b + cap <= |s|
    ensures var n := Common(s, a, b, cap);
            s[a..a + n] == s[b..b + n] && (n < cap ==> s[a + n] != s[b + n])
    decreases cap
  {
    var n := Common(s, a, b, cap);
    if n > 0 {
      CommonAgrees(s, a + 1, b + 1, cap - 1);
      SliceCons(s, a, n - 1);
      SliceCons(s, b, n - 1);
    }
  }

  /** Only one length can be the number of agreeing bytes. */
  lemma {:induction false} CommonIs(s: seq<byte>, a: nat, b: nat, cap: nat, n: nat)
    requires a <= b && b + cap <= |s| && n <= cap
    requires s[a..a + n] == s[b..b + n]
    requires n < cap ==> s[a + n] != s[b + n]
    ensures Common(s, a, b, cap) == n
    decreases n
  {
    if n > 0 {
      SliceCons(s, a, n - 1);
      SliceCons(s, b, n - 1);
      assert s[a] == s[a..a + n][0] && s[b] == s[b..b + n][0];
      assert s[a + 1..a + n] == s[a..a + n][1..] && s[b + 1..b + n] == s[b..b + n][1..];
      CommonIs(s, a + 1, b + 1, cap - 1, n - 1);
    }
  }

  /** Comparing three bytes of two four-byte loads. */
  lemma LowBytes(s: seq<byte>, a: nat, b: nat)
    requires a <= b && b + 4 <= |s|
    ensures FastRead(s, a) % 0x100_0000 == FastRead(s, b) % 0x100_0000 <==> Common(s, a, b, 3) == 3
  {
    DivMod(FastRead(s, a), 0x100_0000, s[a + 3], s[a] + 0x100 * s[a + 1] as int + 0x1_0000 * s[a + 2] as int);
    DivMod(FastRead(s, b), 0x100_0000, s[b + 3], s[b] + 0x100 * s[b + 1] as int + 0x1_0000 * s[b + 2] as int);
    ThreeBytes(s[a], s[a + 1], s[a + 2], s[b], s[b + 1], s[b + 2]);
    assert Common(s, a + 2, b + 2, 1) == (if s[a + 2] == s[b + 2] then 1 else 0);
    assert Common(s, a + 1, b + 1, 2) == (if s[a + 1] == s[b + 1] then 1 + Common(s, a + 2, b + 2, 1) else 0);
  }

  lemma ThreeBytes(a0: byte, a1: byte, a2: byte, b0: byte, b1: byte, b2: byte)
    ensures a0 as int + 0x100 * a1 as int + 0x1_0000 * a2 as int == b0 as int + 0x100 * b1 as int + 0x1_0000 * b2 as int
       <==> a0 == b0 && a1 == b1 && a2 == b2
  {
  }

  lemma HalfMod(x: nat, m: nat)
    requires m > 0
    ensures x % (2 * m) == 2 * (x / 2 % m) + x % 2
  {
    var h, r := x / 2, x % 2;
    var q, t := h / m, h % m;
    assert h == q * m + t;
    assert q * (2 * m) == 2 * (q * m);
    DivMod(x, 2 * m, q, 2 * t + r);
  }

  /** x and y have the same low n bits. */
  predicate SameLow(x: nat, y: nat, n: nat) {
    forall i :: 0 <= i < n ==> Bit(x, i) == Bit(y, i)
  }

  lemma SameLowStep(x: nat, y: nat, n: nat)
    ensures SameLow(x, y, n + 1) <==> x % 2 == y % 2 && SameLow(x / 2, y / 2, n)
  {
    assert Bit(x, 0) == x % 2 && Bit(y, 0) == y % 2;
    if SameLow(x, y, n + 1) {
      forall i | 0 <= i < n
        ensures Bit(x / 2, i) == Bit(y / 2, i)
      {
        assert Bit(x, i + 1) == Bit(y, i + 1);
      }
    }
    if x % 2 == y % 2 && SameLow(x / 2, y / 2, n) {
      forall i | 0 <= i < n + 1
        ensures Bit(x, i) == Bit(y, i)
      {
        assert i > 0 ==> Bit(x / 2, i - 1) == Bit(y / 2, i - 1);
      }
    }
  }

  /** Equal low bits are equal remainders. */
  lemma {:induction false} SameRemainder(x: nat, y: nat, n: nat)
    ensures Shl(1, n) > 0 && (x % Shl(1, n) == y % Shl(1, n) <==> SameLow(x, y, n))
  {
    if n > 0 {
      SameRemainder(x / 2, y / 2, n - 1);
      SameLowStep(x, y, n - 1);
      var half: nat := Shl(1, n - 1);
      HalfMod(x, half);
      HalfMod(y, half);
    }
  }

  lemma LowWords(f: nat, g: nat)
    requires f % 0x100_0000 == g % 0x100_0000
    ensures f % 4096 == g % 4096 && f / 4096 % 4096 == g / 4096 % 4096
  {
  }

  /** Positions that begin with the same three bytes are filed under the same hash, so
      every match that can be used is looked for in the right row. */
  lemma SameRow(s: seq<byte>, a: nat, b: nat)
    requires a <= b && b + 4 <= |s| && s[a..a + 3] == s[b..b + 3]
    ensures Hash(FastRead(s, a)) == Hash(FastRead(s, b))
  {
    CommonIs(s, a, b, 3, 3);
    LowBytes(s, a, b);
    var f, g := FastRead(s, a), FastRead(s, b);
    LowWords(f, g);
    assert Shl(1, 12) == 4096;
    SameRemainder(f / 4096, g / 4096, 12);
    SameRemainder(f, g, 12);
    forall i | 0 <= i < 12
      ensures Bit(Xor(f / 4096, f), i) == Bit(Xor(g / 4096, g), i)
    {
      XorBit(f / 4096, f, i);
      XorBit(g / 4096, g, i);
    }
    SameRemainder(Xor(f / 4096, f), Xor(g / 4096, g), 12);
  }

  /** x shifted right by k bits. */
  function Shr(x: nat, k: nat): nat {
    if k == 0 then x else Shr(x / 2, k - 1)
  }

  lemma {:induction false} BitShift(x: nat, k: nat, i: nat)
    ensures Bit(Shr(x, k), i) == Bit(x, i + k)
    decreases k
  {
    if k > 0 {
      BitShift(x / 2, k - 1, i);
    }
  }

  lemma Shr4(x: nat, k: nat)
    ensures Shr(x, k + 4) == Shr(x / 16, k)
  {
    assert Shr(x, k + 4) == Shr(x / 2, k + 3) == Shr(x / 2 / 2, k + 2);
    assert Shr(x / 2 / 2, k + 2) == Shr(x / 2 / 2 / 2, k + 1) == Shr(x / 2 / 2 / 2 / 2, k);
    assert x / 2 / 2 / 2 / 2 == x / 16;
  }

  lemma Shr12(x: nat)
    ensures Shr(x, 12) == x / 4096
  {
    Shr4(x, 8);
    Shr4(x / 16, 4);
    Shr4(x / 16 / 16, 0);
    assert x / 16 / 16 / 16 == x / 4096;
  }

  /** Each bit of the hash is the exclusive-or of two bits of the word. */
  lemma HashBits(f: nat, i: nat)
    requires f < TWO32 && i < 12
    ensures Bit(Hash(f), i) == (Bit(f, i) + Bit(f, i + 12)) % 2
  {
    var x := Xor(f / 4096, f);
    assert Shl(1, 12) == 4096;
    assert x % 4096 % 4096 == x % 4096;
    SameRemainder(Hash(f), x, 12);
    XorBit(f / 4096, f, i);
    Shr12(f);
    BitShift(f, 12, i);
  }

  // ------------------------------------------------------------------ the table

  /** What the table holds: a row of slots and a counter for each hash value. */
  datatype Content = Content(rows: seq<seq<int>>, counts: seq<byte>)

  ghost predicate Sized(t: Content) {
    && |t.rows| == HASH_VALUES && |t.counts| == HASH_VALUES
    && forall h :: 0 <= h < HASH_VALUES ==> |t.rows[h]| == POINTERS
  }

  /** Position p recorded under hash h: the slots are used round robin. */
  ghost function Recorded(t: Content, h: int, p: int): (r: Content)
    requires Sized(t) && 0 <= h < HASH_VALUES
    ensures Sized(r)
  {
    var c := t.counts[h];
    Content(t.rows[h := t.rows[h][c % POINTERS := p]], t.counts[h := (c + 1) % 256])
  }

  /** The positions src+1 up to src+n-1 recorded, each under the hash of its bytes. */
  ghost function RecordedRun(t: Content, s: seq<byte>, src: nat, n: nat): (r: Content)
    requires Sized(t) && (n <= 1 || src + n + 3 <= |s|)
    ensures Sized(r)
  {
    if n <= 1 then t
    else Recorded(RecordedRun(t, s, src, n - 1), Hash(FastRead(s, src + n - 1)), src + n - 1)
  }

  /** `now` is the table after a run of recordings; sealed, see Unseal. */
  ghost predicate AfterRun(t: Content, s: seq<byte>, src: nat, u: nat, now: Content)
    requires Sized(t) && (u <= 1 || src + u + 3 <= |s|)
  {
    forall k {:trigger Unseal(k)} :: Unseal(k) ==> now == RecordedRun(t, s, src, u)
  }

  lemma RunStep(t: Content, s: seq<byte>, src: nat, u: nat, before: Content, after: Content)
    requires Sized(t) && Sized(before) && 1 <= u && src + u + 4 <= |s| && AfterRun(t, s, src, u, before)
    requires after == Recorded(before, Hash(FastRead(s, src + u)), src + u)
    ensures AfterRun(t, s, src, u + 1, after)
  {
    assert Unseal(0);
  }

  /** Positions recorded so far.  Slots at or above the counter hold nothing usable. */
  class Table {
    const slots: array2<int>
    const counter: array<byte>

    ghost predicate Shape() {
      && slots.Length0 == HASH_VALUES && slots.Length1 == POINTERS
      && counter.Length == HASH_VALUES
    }

    /** Every usable slot points before position p. */
    ghost predicate Below(p: int)
      reads slots, counter
      requires Shape()
    {
      forall h, k :: 0 <= h < HASH_VALUES && 0 <= k < POINTERS && k < counter[h] ==> 0 <= slots[h, k] < p
    }

    /** The slots of one hash value. */
    ghost function Row(h: int): (r: seq<int>)
      reads slots
      requires Shape() && 0 <= h < HASH_VALUES
      ensures |r| == POINTERS && forall k :: 0 <= k < POINTERS ==> r[k] == slots[h, k]
    {
      seq(POINTERS, k reads slots requires 0 <= k < POINTERS => slots[h, k])
    }

    ghost function Value(): (t: Content)
      reads slots, counter
      requires Shape()
      ensures Sized(t)
    {
      Content(seq(HASH_VALUES, h reads slots requires 0 <= h < HASH_VALUES && Shape() => Row(h)), counter[..])
    }

    constructor ()
      ensures Shape() && fresh(slots) && fresh(counter)
    {
      slots := new int[HASH_VALUES, POINTERS];
      counter := new byte[HASH_VALUES];
    }

    /** `reset_table_compress`: the slots keep whatever they held. */
    method Reset()
      requires Shape()
      modifies counter
      ensures Below(0) && forall h :: 0 <= h < HASH_VALUES ==> counter[h] == 0
    {
      for i := 0 to HASH_VALUES
        invariant forall h :: 0 <= h < i ==> counter[h] == 0
      {
        counter[i] := 0;
      }
    }

    /** Record position p under hash h; the counter is an unsigned char. */
    method Insert(h: int, p: nat)
      requires Shape() && 0 <= h < HASH_VALUES && Below(p)
      modifies slots, counter
      ensures Below(p + 1) && Value() == Recorded(old(Value()), h, p)
    {
      ghost var before := Value();
      var c := counter[h];
      slots[h, c % POINTERS] := p;
      counter[h] := (c + 1) % 256;
      SameRows(before, h, p);
    }

    lemma SameRows(before: Content, h: int, p: int)
      requires Shape() && Sized(before) && 0 <= h < HASH_VALUES
      requires counter[..] == Recorded(before, h, p).counts
      requires forall i, k :: 0 <= i < HASH_VALUES && 0 <= k < POINTERS ==>
                 slots[i, k] == Recorded(before, h, p).rows[i][k]
      ensures Value() == Recorded(before, h, p)
    {
      var now, want := Value(), Recorded(before, h, p);
      forall i | 0 <= i < HASH_VALUES
        ensures now.rows[i] == want.rows[i]
      {
        assert now.rows[i] == Row(i);
      }
      assert now.rows == want.rows;
    }

    /** The bytes of a match are recorded too, position by position. */
    method InsertRun(s: seq<byte>, src: nat, matchlen: nat)
      requires Shape() && 1 <= matchlen && src + matchlen + 3 <= |s| && Below(src + 1)
      modifies slots, counter
      ensures Below(src + matchlen) && Value() == RecordedRun(old(Value()), s, src, matchlen)
    {
      ghost var t := Value();
      for u := 1 to matchlen
        invariant Below(src + u) && AfterRun(t, s, src, u, Value())
      {
        ghost var before := Value();
        Insert(Hash(FastRead(s, src + u)), src + u);
        RunStep(t, s, src, u, before, Value());
      }
      assert Unseal(0);
    }
  }

  // ------------------------------------------------------------------ the search

  /** The longest match considered at src: at most 255, ending before the last four bytes. */
  function Remaining(s: seq<byte>, src: nat): (n: nat)
    requires src + 11 <= |s|
    ensures 7 <= n <= 255 && src + n + 4 <= |s| && (n == 255 || src + n + 4 == |s|)
  {
    if |s| - 1 - 4 - src + 1 > 255 then 255 else |s| - 1 - 4 - src + 1
  }

  /** What position p is worth as a source for the bytes at src: the length of the match,
      or zero if it is too near or fewer than three bytes agree. */
  function Score(s: seq<byte>, src: nat, p: int): (n: nat)
    requires src + 11 <= |s|
    ensures n == 0 || (0 <= p && p + 3 <= src && 3 <= n <= Remaining(s, src))
    ensures n > 0 ==> s[p..p + n] == s[src..src + n]
  {
    if 0 <= p && p + 3 <= src && Common(s, p, src, 3) == 3 then
      CommonMonotone(s, p, src, 3, Remaining(s, src));
      CommonAgrees(s, p, src, Remaining(s, src));
      Common(s, p, src, Remaining(s, src))
    else 0
  }

  /** A position is worth something if and only if it lies three bytes back or more and its
      three bytes agree; it is then worth the bytes that agree, as far as a match may go. */
  lemma ScoreMeans(s: seq<byte>, src: nat, p: int)
    requires src + 11 <= |s|
    ensures var n := Score(s, src, p);
            && (n > 0 <==> 0 <= p && p + 3 <= src && s[p..p + 3] == s[src..src + 3])
            && (n > 0 ==> n == Remaining(s, src) || s[p + n] != s[src + n])
  {
    if 0 <= p && p + 3 <= src {
      if s[p..p + 3] == s[src..src + 3] {
        CommonIs(s, p, src, 3, 3);
      }
      CommonAgrees(s, p, src, 3);
      CommonAgrees(s, p, src, Remaining(s, src));
    }
  }

  lemma {:induction false} CommonMonotone(s: seq<byte>, a: nat, b: nat, m: nat, n: nat)
    requires a <= b && m <= n && b + n <= |s|
    ensures Common(s, a, b, m) <= Common(s, a, b, n)
    decreases m
  {
    if m > 0 && s[a] == s[b] {
      CommonMonotone(s, a + 1, b + 1, m - 1, n - 1);
    }
  }

  ghost function Scores(s: seq<byte>, src: nat, row: seq<int>): (r: seq<nat>)
    requires src + 11 <= |s|
    ensures |r| == |row|
  {
    seq(|row|, k requires 0 <= k < |row| => Score(s, src, row[k]))
  }

  /** (o, len) is the best of the first n slots: none is worth more, and none worth the
      same is nearer.  A length of zero says that none is worth anything. */
  ghost predicate Best(row: seq<int>, scores: seq<nat>, n: nat, o: int, len: nat)
    requires n <= |row| == |scores|
  {
    && (len > 0 ==> exists k :: 0 <= k < n && row[k] == o && scores[k] == len)
    && (forall k :: 0 <= k < n ==> scores[k] < len || (scores[k] == len && (len == 0 || row[k] <= o)))
  }

  lemma BestStep(row: seq<int>, scores: seq<nat>, n: nat, o: int, len: nat)
    requires n < |row| == |scores| && Best(row, scores, n, o, len)
    ensures var p, m := row[n], scores[n];
            if m > 0 && (m > len || (m == len && p > o)) then Best(row, scores, n + 1, p, m)
            else Best(row, scores, n + 1, o, len)
  {
    var p, m := row[n], scores[n];
    if m > 0 && (m > len || (m == len && p > o)) {
      assert row[n] == p && scores[n] == m;
    } else if len > 0 {
      var k :| 0 <= k < n && row[k] == o && scores[k] == len;
      assert 0 <= k < n + 1;
    }
  }

  /** Extend a match of m0 bytes as far as it goes. */
  method Extend(s: seq<byte>, o: nat, src: nat, m0: nat, remaining: nat) returns (m: nat)
    requires o < src && src + remaining < |s| && m0 <= remaining
    requires s[o..o + m0] == s[src..src + m0]
    ensures m == Common(s, o, src, remaining)
  {
    m := m0;
    while s[o + m] == s[src + m] && m < remaining
      invariant m0 <= m <= remaining
      invariant s[o..o + m] == s[src..src + m]
    {
      SliceSnoc(s, o, m);
      SliceSnoc(s, src, m);
      m := m + 1;
    }
    CommonIs(s, o, src, remaining, m);
  }

  /** The first slot of the row, of which a fourth byte is compared before the loop. */
  method ProbeFirst(s: seq<byte>, src: nat, o: int, c: nat) returns (matchlen: nat)
    requires src + 11 <= |s| && (c > 0 ==> 0 <= o < src)
    ensures matchlen == if c > 0 then Score(s, src, o) else 0
  {
    matchlen := 0;
    if o < src - 2 && c > 0 {
      LowBytes(s, o, src);
      if FastRead(s, o) % 0x100_0000 == FastRead(s, src) % 0x100_0000 {
        CommonAgrees(s, o, src, 3);
        matchlen := 3;
        if s[o + matchlen] == s[src + matchlen] {
          SliceSnoc(s, o, 3);
          SliceSnoc(s, src, 3);
          matchlen := Extend(s, o, src, 4, Remaining(s, src));
        } else {
          CommonIs(s, o, src, Remaining(s, src), 3);
        }
      }
    }
  }

  /** The other slots. */
  method Probe(s: seq<byte>, src: nat, o: int) returns (m: nat)
    requires src + 11 <= |s| && 0 <= o < src
    ensures m == Score(s, src, o)
  {
    m := 0;
    LowBytes(s, o, src);
    if FastRead(s, o) % 0x100_0000 == FastRead(s, src) % 0x100_0000 && o < src - 2 {
      CommonAgrees(s, o, src, 3);
      m := Extend(s, o, src, 3, Remaining(s, src));
    }
  }

  function Min(a: nat, b: nat): nat {
    if a < b then a else b
  }

  /** The search at src: the best of the usable slots.  No byte outside s is read,
      whatever the unused slots hold. */
  method FindMatch(s: seq<byte>, src: nat, table: Table, h: int) returns (o: int, matchlen: nat)
    requires table.Shape() && src + 11 <= |s| && table.Below(src) && 0 <= h < HASH_VALUES
    ensures var row := table.Row(h); Best(row, Scores(s, src, row), Min(POINTERS, table.counter[h]), o, matchlen)
  {
    var c := table.counter[h];
    ghost var row := table.Row(h);
    ghost var scores := Scores(s, src, row);
    o := table.slots[h, 0];
    matchlen := ProbeFirst(s, src, o, c);
    if c > 0 {
      assert row[0] == o && scores[0] == matchlen;
    }
    var k := 1;
    while k < POINTERS && c > k
      invariant 1 <= k <= POINTERS && (c > 0 ==> k <= c)
      invariant Best(row, scores, Min(k, c), o, matchlen)
    {
      var p := table.slots[h, k];
      var m := Probe(s, src, p);
      BestStep(row, scores, k, o, matchlen);
      if m > 0 && (m > matchlen || (m == matchlen && p > o)) {
        o, matchlen := p, m;
      }
      k := k + 1;
    }
  }

  /** Search at src, and whether the best match is used. */
  method Choose(s: seq<byte>, src: nat, table: Table) returns (use: bool, o: int, matchlen: nat)
    requires table.Shape() && src + 11 <= |s| && table.Below(src)
    ensures var h := Hash(FastRead(s, src));
            var row := table.Row(h);
            Best(row, Scores(s, src, row), Min(POINTERS, table.counter[h]), o, matchlen)
    ensures use == (matchlen > 2 && src - o < 131071)
    ensures use ==> 3 <= matchlen <= Remaining(s, src) && 0 <= o && o + 3 <= src
    ensures use ==> s[o..o + matchlen] == s[src..src + matchlen]
  {
    o, matchlen := FindMatch(s, src, table, Hash(FastRead(s, src)));
    use := matchlen > 2 && src - o < 131071;
  }

  /** Record src and, if a match is used, every position it covers. */
  method Record(s: seq<byte>, src: nat, table: Table, use: bool, matchlen: nat)
    requires table.Shape() && src + 11 <= |s| && table.Below(src) && (use ==> 3 <= matchlen <= Remaining(s, src))
    modifies table.slots, table.counter
    ensures table.Below(src + if use then matchlen else 1)
    ensures var t := Recorded(old(table.Value()), Hash(FastRead(s, src)), src);
            table.Value() == if use then RecordedRun(t, s, src, matchlen) else t
  {
    table.Insert(Hash(FastRead(s, src)), src);
    if use {
      table.InsertRun(s, src, matchlen);
    }
  }

  /** (o, len) is the best that the table offers at src; sealed, see Unseal. */
  ghost predicate Offers(t: Content, s: seq<byte>, src: nat, o: int, len: nat)
    requires Sized(t) && src + 11 <= |s|
  {
    forall k {:trigger Unseal(k)} :: Unseal(k) ==>
      var h := Hash(FastRead(s, src)); var row := t.rows[h];
      Best(row, Scores(s, src, row), Min(POINTERS, t.counts[h]), o, len)
  }

  /** `now` is the table with src recorded and, if a match is used, every position it
      covers; sealed, see Unseal. */
  ghost predicate Grown(t: Content, s: seq<byte>, src: nat, use: bool, matchlen: nat, now: Content)
    requires Sized(t) && src + 11 <= |s| && (use ==> matchlen <= Remaining(s, src))
  {
    forall k {:trigger Unseal(k)} :: Unseal(k) ==>
      var t' := Recorded(t, Hash(FastRead(s, src)), src);
      now == if use then RecordedRun(t', s, src, matchlen) else t'
  }

  /** The finder at src: search, then record. */
  method Search(s: seq<byte>, src: nat, table: Table) returns (use: bool, o: int, matchlen: nat)
    requires table.Shape() && src + 11 <= |s| && table.Below(src)
    modifies table.slots, table.counter
    ensures Offers(old(table.Value()), s, src, o, matchlen)
    ensures use == (matchlen > 2 && src - o < 131071)
    ensures use ==> 3 <= matchlen <= Remaining(s, src) && 0 <= o && o + 3 <= src
    ensures use ==> s[o..o + matchlen] == s[src..src + matchlen]
    ensures table.Below(src + if use then matchlen else 1)
    ensures Grown(old(table.Value()), s, src, use, matchlen, table.Value())
  {
    ghost var t := table.Value();
    assert t.rows[Hash(FastRead(s, src))] == table.Row(Hash(FastRead(s, src)));
    use, o, matchlen := Choose(s, src, table);
    assert Offers(t, s, src, o, matchlen);
    Record(s, src, table, use, matchlen);
  }
}
