/** QuickLZ packets: the header, `qlz_compress` and `qlz_decompress`, and the round trip. */
module QlzPacket {
  import opened Bytes
  import opened QlzTokens
  import opened QlzStream
  import opened QlzDecoder
  import opened QlzDecodeMachine
  import opened QlzFinder
  import opened QlzChoice
  import opened QlzCompressor

  const MAX_SIZE: nat := 0xffffffff - 400

  // ------------------------------------------------------------------ the header

  /** Bit 1 of the first byte selects four-byte length fields. */
  predicate Wide(b0: byte) {
    b0 / 2 % 2 == 1
  }

  function SizeHeader(p: seq<byte>): (n: nat)
    requires |p| >= 1
  {
    if Wide(p[0]) then 9 else 3
  }

  /** The header functions may read nine bytes whatever the field width. */
  function SizeCompressed(p: seq<byte>): (n: nat)
    requires |p| >= 9
    ensures n < TWO32
  {
    if Wide(p[0]) then FastRead(p, 1) else FastRead(p, 1) % 256
  }

  function SizeDecompressed(p: seq<byte>): (n: nat)
    requires |p| >= 9
    ensures n < TWO32
  {
    if Wide(p[0]) then FastRead(p, 5) else FastRead(p, 2) % 256
  }

  /** The two widths: length of the packet, then of the text, each in one byte or in four,
      least significant first. */
  lemma HeaderFields(p: seq<byte>, r: nat, size: nat)
    requires |p| >= 9 && r < TWO32 && size < TWO32
    ensures p[0] in {0x4c, 0x4d} && p[1] == r && p[2] == size ==>
              SizeHeader(p) == 3 && SizeCompressed(p) == r && SizeDecompressed(p) == size
    ensures p[0] in {0x4e, 0x4f} && p[1..5] == LeBytes(r, 4) && p[5..9] == LeBytes(size, 4) ==>
              SizeHeader(p) == 9 && SizeCompressed(p) == r && SizeDecompressed(p) == size
  {
    LowByte(p, 1);
    LowByte(p, 2);
    if p[1..5] == LeBytes(r, 4) && p[5..9] == LeBytes(size, 4) {
      ReadWord(p, 1, r);
      ReadWord(p, 5, size);
    }
  }

  /** The lengths in the header stay inside the packet's buffer and the output buffer. */
  predicate Fits(p: seq<byte>, capacity: nat) {
    && |p| >= 9
    && SizeDecompressed(p) <= capacity
    && (if p[0] % 2 == 1 then SizeCompressed(p) <= |p| else SizeHeader(p) + SizeDecompressed(p) <= |p|)
  }

  /** The bytes that a stored packet has copied lie inside it if and only if its header and the
      size in it make no more than its length; nothing compares them. */
  lemma StoredInside(p: seq<byte>)
    requires |p| >= 9 && p[0] % 2 == 0
    ensures (forall i :: SizeHeader(p) <= i < SizeHeader(p) + SizeDecompressed(p) ==> Inside(p, i)) <==>
            SizeHeader(p) + SizeDecompressed(p) <= |p|
  {
    var end := SizeHeader(p) + SizeDecompressed(p);
    if end > |p| {
      assert !Inside(p, end - 1);
    }
  }

  /** A stored packet of nine bytes that claims a text of 200. */
  lemma StoredOverruns()
    ensures var p: seq<byte> := [64 + 12, 9, 200, 0, 0, 0, 0, 0, 0];
            SizeCompressed(p) == |p| && SizeHeader(p) + SizeDecompressed(p) > |p|
  {
  }

  /** What a packet stands for; None for compressed data that do not decode. */
  function Decompressed(p: seq<byte>): (r: Option<seq<byte>>)
    requires Fits(p, TWO32)
    ensures r.Some? ==> |r.value| == SizeDecompressed(p)
  {
    if p[0] % 2 == 1 then Decode(p[..SizeCompressed(p)], SizeDecompressed(p), Cursor(SizeHeader(p), 1), [])
    else Some(p[SizeHeader(p)..SizeHeader(p) + SizeDecompressed(p)])
  }

  /** `memcpy`. */
  method CopyBytes(s: seq<byte>, p: nat, dst: array<byte>, d: nat, n: nat)
    requires p + n <= |s| && d + n <= dst.Length
    modifies dst
    ensures dst[d..d + n] == s[p..p + n]
    ensures dst[..d] == old(dst[..d]) && dst[d + n..] == old(dst[d + n..])
  {
    for i := 0 to n
      invariant dst[d..d + i] == s[p..p + i]
      invariant dst[..d] == old(dst[..d]) && dst[d + n..] == old(dst[d + n..])
    {
      dst[d + i] := s[p + i];
      assert dst[d..d + i + 1] == dst[d..d + i] + [s[p + i]];
      assert s[p..p + i + 1] == s[p..p + i] + [s[p + i]];
    }
  }

  /** `qlz_decompress`: writes the text and returns its size, or returns zero; nothing
      past the declared size is written. */
  method Decompress(p: seq<byte>, dst: array<byte>) returns (r: nat)
    requires Fits(p, dst.Length)
    modifies dst
    ensures match Decompressed(p)
            case Some(text) => r == |text| == SizeDecompressed(p) && dst[..r] == text
            case None => r == 0
    ensures dst[SizeDecompressed(p)..] == old(dst[SizeDecompressed(p)..])
  {
    r := SizeDecompressed(p);
    var header := SizeHeader(p);
    if p[0] % 2 == 1 {
      r := DecompressCore(p[..SizeCompressed(p)], header, dst, r);
    } else {
      CopyBytes(p, header, dst, 0, r);
    }
  }

  // ------------------------------------------------------------------ compression

  lemma SmallStream(xs: seq<Item>, text: seq<byte>)
    requires Stands(xs, text) && |text| < 216
    ensures |Encode(xs)| <= 243
  {
    assert Opened(0);
    EncodeBound(xs);
    PayloadBound(xs);
  }

  /** A stream whose tokens stand for the text decodes to the text. */
  lemma StreamDecodes(s: seq<byte>, base: nat, xs: seq<Item>, text: seq<byte>)
    requires 0 < |text| < TWO32 && base + 9 <= |s|
    requires Stands(xs, text) && Holds(s, base, Encode(xs))
    ensures Decode(s, |text|, Cursor(base, 1), []) == Some(text)
  {
    var end := StreamPending(s, base, xs, text);
    DecodeReads(s, Cursor(base, 1), Tokens(xs), end, [], text);
    assert Opened(0);
  }

  lemma StreamPending(s: seq<byte>, base: nat, xs: seq<Item>, text: seq<byte>) returns (end: Cursor)
    requires base <= |s| && Stands(xs, text) && Holds(s, base, Encode(xs))
    ensures Pending(s, Cursor(base, 1), Tokens(xs), end, [], text)
  {
    assert Opened(0) && Unseal(0);
    end := ReadsEncode(s, base, xs);
  }

  /** A finished packet for a text: `01SSLLHC` with level 3 and no streaming buffer in
      the first byte, its own length and the text's length in the header, and contents
      that decode to the text. */
  ghost predicate IsPacket(p: seq<byte>, text: seq<byte>) {
    && Fits(p, TWO32)
    && p[0] / 4 == 19
    && SizeCompressed(p) == |p| && SizeDecompressed(p) == |text|
    && Decompressed(p) == Some(text)
  }

  /** The header fields, as the header functions read them. */
  ghost predicate HeaderSays(p: seq<byte>, compressed: bool, wide: bool, r: nat, size: nat) {
    && |p| >= 9
    && p[0] == 64 + 12 + (if wide then 2 else 0) + (if compressed then 1 else 0)
    && SizeCompressed(p) == r && SizeDecompressed(p) == size
  }

  lemma HeaderPrefix(p: seq<byte>, compressed: bool, wide: bool, r: nat, size: nat, n: nat)
    requires HeaderSays(p, compressed, wide, r, size) && 9 <= n <= |p|
    ensures HeaderSays(p[..n], compressed, wide, r, size)
  {
  }

  lemma LowByte(p: seq<byte>, i: nat)
    requires i + 4 <= |p|
    ensures FastRead(p, i) % 256 == p[i]
  {
    DivMod(FastRead(p, i), 256, p[i + 1] + 0x100 * p[i + 2] as int + 0x1_0000 * p[i + 3] as int, p[i]);
  }

  method WriteHeader(dst: array<byte>, compressed: bool, base: nat, r: nat, size: nat)
    requires dst.Length >= 9 && (base == 3 || base == 9)
    requires r < TWO32 && size < TWO32 && (base == 3 ==> r < 256 && size < 256)
    modifies dst
    ensures HeaderSays(dst[..], compressed, base == 9, r, size)
    ensures dst[base..] == old(dst[base..])
  {
    var c := if compressed then 1 else 0;
    if base == 3 {
      dst[0] := 64 + 12 + c;
      dst[1] := r;
      dst[2] := size;
      LowByte(dst[..], 1);
      LowByte(dst[..], 2);
    } else {
      WriteWord(dst, 1, r);
      WriteWord(dst, 5, size);
      dst[0] := 64 + 12 + 2 + c;
    }
  }

  method WriteWord(dst: array<byte>, p: nat, f: nat)
    requires f < TWO32 && p + 4 <= dst.Length
    modifies dst
    ensures Le32(dst[..], p) == f
    ensures dst[..p] == old(dst[..p]) && dst[p + 4..] == old(dst[p + 4..])
  {
    dst[p], dst[p + 1] := f % 256, f / 256 % 256;
    dst[p + 2], dst[p + 3] := f / 0x1_0000 % 256, f / 0x100_0000 % 256;
    WordSum(f);
  }

  lemma HoldsPrefix(a: seq<byte>, n: nat, pos: nat, e: seq<byte>)
    requires Holds(a, pos, e) && pos + |e| <= n <= |a|
    ensures Holds(a[..n], pos, e)
  {
    assert Unseal(0);
    SliceSlice(a, 0, n, pos, pos + |e|);
    assert a[0..n] == a[..n];
  }

  lemma HoldsAbove(a: seq<byte>, b: seq<byte>, n: nat, pos: nat, e: seq<byte>)
    requires n <= |a| == |b| && n <= pos && a[n..] == b[n..] && Holds(a, pos, e) && pos + |e| <= |a|
    ensures Holds(b, pos, e)
  {
    assert a[n..|a|] == a[n..] && b[n..|a|] == b[n..];
    assert Agree(a, b, n, |a|);
    HoldsKept(a, b, n, |a|, pos, e);
  }

  lemma CompressedPacket(p: seq<byte>, base: nat, xs: seq<Item>, text: seq<byte>)
    requires 0 < |text| < TWO32 && (base == 3 || base == 9) && |p| >= base + 9
    requires HeaderSays(p, true, base == 9, |p|, |text|)
    requires Stands(xs, text) && Holds(p, base, Encode(xs))
    ensures IsPacket(p, text)
  {
    StreamDecodes(p, base, xs, text);
    assert SizeHeader(p) == base && p[0] % 2 == 1;
    assert p[..SizeCompressed(p)] == p;
  }

  lemma StoredPacket(p: seq<byte>, base: nat, text: seq<byte>)
    requires |text| < TWO32 && (base == 3 || base == 9) && |p| == base + |text|
    requires HeaderSays(p, false, base == 9, |p|, |text|) && p[base..] == text
    ensures IsPacket(p, text)
  {
    assert SizeHeader(p) == base && p[0] % 2 == 0;
    assert p[base..base + |text|] == p[base..];
  }

  lemma Fit(before: seq<byte>, now: seq<byte>, base: nat, limit: nat, end: nat)
    requires |before| == |now| && Framed(before, now, base, limit) && limit <= end <= |before|
    ensures now[end..] == before[end..]
  {
    AgreePart(before, now, limit, |before|, end, |before|);
    assert Unseal(0);
    assert now[end..] == now[end..|before|] && before[end..] == before[end..|before|];
  }

  /** The compressed body, or the text itself when compression gave up. */
  method WriteBody(text: seq<byte>, dst: array<byte>, table: Table, base: nat)
    returns (compressed: bool, r: nat, ghost xs: seq<Item>)
    requires 1 <= |text| && (base == 3 || base == 9) && |text| + 400 <= dst.Length
    requires table.Shape() && table.Below(0) && dst != table.counter && Knows(table.Value(), text, 0)
    modifies dst, table.slots, table.counter
    ensures compressed <==> !GivesUp(text)
    ensures compressed ==> base + 9 <= r <= base + |text| + 178
    ensures compressed ==> Tokens(xs) == Tokenize(text, 0) && r == base + if |Encode(xs)| < 9 then 9 else |Encode(xs)|
    ensures compressed ==> Stands(xs, text) && Holds(dst[..], base, Encode(xs))
    ensures compressed && |text| < 216 ==> r <= base + 243
    ensures !compressed ==> r == base + |text| && dst[base..r] == text
    ensures dst[|text| + 400..] == old(dst[|text| + 400..])
  {
    ghost var before := dst[..];
    var n;
    n, xs := CompressCore(text, dst, table, base);
    Fit(before, dst[..], base, base + |text| + 391, |text| + 400);
    r := base + n;
    compressed := r != base;
    if compressed {
      if |text| < 216 {
        SmallStream(xs, text);
      }
    } else {
      ghost var now := dst[..];
      CopyBytes(text, 0, dst, base, |text|);
      assert dst[|text| + 400..] == dst[base + |text|..][400 - base..] == now[base + |text|..][400 - base..];
      r := |text| + base;
      assert text[0..|text|] == text;
    }
  }

  /** What follows the header: the stream of the tokens chosen, or the text itself if they
      gain too little. */
  ghost function Body(text: seq<byte>): (b: seq<byte>) {
    TokenizeMeans(text, 0);
    if GivesUp(text) then text else Stream(Tokenize(text, 0))
  }

  /** A packet holds that and is no longer, except that a stream takes at least nine bytes. */
  ghost predicate Carries(p: seq<byte>, text: seq<byte>)
    requires |p| >= 9
  {
    && (p[0] % 2 == 1 <==> !GivesUp(text))
    && Holds(p, SizeHeader(p), Body(text))
    && |p| == SizeHeader(p) + if GivesUp(text) || |Body(text)| >= 9 then |Body(text)| else 9
  }

  lemma CarriesStream(p: seq<byte>, base: nat, text: seq<byte>)
    requires !GivesUp(text) && |p| >= 9 && HeaderSays(p, true, base == 9, |p|, |text|) && (base == 3 || base == 9)
    requires |p| == base + if |Body(text)| < 9 then 9 else |Body(text)|
    requires Holds(p, base, Body(text))
    ensures Carries(p, text)
  {
    assert SizeHeader(p) == base;
  }

  lemma CarriesText(p: seq<byte>, base: nat, text: seq<byte>)
    requires GivesUp(text) && |p| >= 9 && HeaderSays(p, false, base == 9, |p|, |text|) && (base == 3 || base == 9)
    requires |p| == base + |text| && p[base..] == text
    ensures Carries(p, text)
  {
    assert p[base..base + |text|] == text;
  }

  lemma StandsOk(xs: seq<Item>, text: seq<byte>)
    requires Stands(xs, text)
    ensures AllOk(xs)
  {
    assert Opened(0);
  }

  lemma BodyIs(text: seq<byte>, xs: seq<Item>)
    requires !GivesUp(text) && AllOk(xs) && Tokens(xs) == Tokenize(text, 0)
    ensures Body(text) == Encode(xs)
  {
    ItemsOf(xs);
  }

  /** `qlz_compress`: refuses only the empty and the oversized text; otherwise the first
      r bytes of the buffer are a packet that decompresses to the text and carries the
      tokens chosen, whatever the table held, and nothing past size + 400 is written. */
  method Compress(text: seq<byte>, dst: array<byte>, table: Table) returns (r: nat)
    requires table.Shape() && dst != table.counter && |text| + 400 <= dst.Length
    modifies dst, table.slots, table.counter
    ensures r == 0 <==> |text| == 0 || |text| > 0xffffffff - 400
    ensures r > 0 ==> r <= |text| + 187 && IsPacket(dst[..r], text) && Carries(dst[..r], text)
    ensures r > 0 ==> SizeHeader(dst[..r]) == if |text| < 216 then 3 else 9
    ensures dst[|text| + 400..] == old(dst[|text| + 400..])
  {
    if |text| == 0 || |text| > MAX_SIZE {
      return 0;
    }
    var base := if |text| < 216 then 3 else 9;
    table.Reset();
    KnowsNothing(table.Value(), text);
    var compressed;
    ghost var xs;
    compressed, r, xs := WriteBody(text, dst, table, base);
    if compressed {
      StandsOk(xs, text);
      BodyIs(text, xs);
    } else {
      GivesUpLong(text);
    }
    ghost var now := dst[..];
    WriteHeader(dst, compressed, base, r, |text|);
    assert dst[|text| + 400..] == dst[base..][|text| + 400 - base..] == now[base..][|text| + 400 - base..];
    HeaderPrefix(dst[..], compressed, base == 9, r, |text|, r);
    ghost var p := dst[..][..r];
    assert dst[..r] == p;
    if compressed {
      HoldsAbove(now, dst[..], base, base, Encode(xs));
      HoldsPrefix(dst[..], r, base, Encode(xs));
      CompressedPacket(p, base, xs, text);
      CarriesStream(p, base, text);
    } else {
      assert p[base..] == dst[base..][..|text|] == now[base..][..|text|] == now[base..r];
      StoredPacket(p, base, text);
      CarriesText(p, base, text);
    }
  }

  // ------------------------------------------------------------------ round trip

  /** Bytes after a packet do not matter. */
  lemma PacketExtended(p: seq<byte>, text: seq<byte>, after: seq<byte>)
    requires IsPacket(p, text)
    ensures Fits(p + after, TWO32) && Decompressed(p + after) == Some(text)
  {
    var q := p + after;
    HeaderSame(p, q);
    if p[0] % 2 == 1 {
      assert q[..|p|] == p == p[..|p|];
    } else {
      var h, n := SizeHeader(p), |text|;
      assert q[h..h + n] == p[h..h + n];
    }
  }

  lemma HeaderSame(p: seq<byte>, q: seq<byte>)
    requires |p| >= 9 && p <= q
    ensures p[0] == q[0] && SizeCompressed(p) == SizeCompressed(q) && SizeDecompressed(p) == SizeDecompressed(q)
  {
    assert forall i :: 0 <= i < 9 ==> p[i] == q[i];
    assert Le32(p, 1) == Le32(q, 1) && Le32(p, 2) == Le32(q, 2) && Le32(p, 5) == Le32(q, 5);
  }

  /** Compress, then decompress: the text comes back with its size. */
  method RoundTrip(text: seq<byte>, packet: array<byte>, dst: array<byte>, table: Table) returns (r: nat)
    requires 1 <= |text| <= MAX_SIZE && |text| <= dst.Length
    requires |text| + 400 <= packet.Length && table.Shape()
    requires packet != table.counter && dst != packet && dst != table.counter
    modifies packet, dst, table.slots, table.counter
    ensures r == |text| && dst[..r] == text
  {
    var n := Compress(text, packet, table);
    r := Decompress(packet[..n], dst);
  }
}
