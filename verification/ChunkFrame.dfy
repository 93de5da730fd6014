/** Chunks as the decompression server receives them: a QuickLZ packet, bare or behind a
    nine-byte header with a checksum and a length. */
module ChunkFrame {
  import opened Bytes
  import opened QlzPacket
  import opened QlzFinder
  import Checksum

  const CHUNK_MAGIC1: byte := 0xff
  const CHUNK_MAGIC2: byte := 0xfe
  const CHECKSUM_OFFSET := 1
  const LEN_OFFSET := 5
  const HEADER_SIZE := 9

  const ERR_OK := 0
  const ERR_CHECKSUM := -1
  const ERR_DECOMPRESS := -2
  const ERR_BADINPUT := -3

  function Octets(s: seq<byte>): (r: seq<bv8>)
    ensures |r| == |s|
  {
    seq(|s|, i requires 0 <= i < |s| => s[i] as bv8)
  }

  /** The part of the hash that is stored: its first half, truncated to 32 bits. */
  function Truncate(h: bv64): (n: nat)
    ensures n < TWO32
  {
    (h & 0xffff_ffff) as bv32 as int
  }

  function Sum32(s: seq<byte>): (n: nat)
    ensures n < TWO32
  {
    Truncate(Checksum.Digest(Octets(s)).h1)
  }

  predicate Framed(chunk: seq<byte>) {
    |chunk| >= 1 && (chunk[0] == CHUNK_MAGIC1 || chunk[0] == CHUNK_MAGIC2)
  }

  /** The length test is made on 32-bit unsigned numbers. */
  predicate TooShort(chunk: seq<byte>)
    requires |chunk| >= HEADER_SIZE
  {
    |chunk| < (FastRead(chunk, LEN_OFFSET) + HEADER_SIZE) % TWO32
  }

  /** What the source takes for granted: the packet's own header stays inside its
      buffer and the output buffer, and a length to be checksummed does not wrap. */
  predicate Trusted(chunk: seq<byte>, capacity: nat) {
    if Framed(chunk) then
      |chunk| >= HEADER_SIZE && !TooShort(chunk) ==>
        && Fits(chunk[HEADER_SIZE..], capacity)
        && (chunk[0] == CHUNK_MAGIC2 ==> FastRead(chunk, LEN_OFFSET) + HEADER_SIZE < TWO32)
    else |chunk| >= 1 ==> Fits(chunk, capacity)
  }

  /** Return code and text of a packet. */
  function Unpacked(p: seq<byte>): (r: (int, seq<byte>))
    requires Fits(p, TWO32)
    ensures r.0 == ERR_OK <==> r.1 != []
  {
    match Decompressed(p)
    case None => (ERR_DECOMPRESS, [])
    case Some(text) => if |text| == 0 then (ERR_DECOMPRESS, []) else (ERR_OK, text)
  }

  /** Return code and text of a chunk, given the checksum function. */
  function Uncompressed(sum32: seq<byte> -> nat, chunk: seq<byte>): (r: (int, seq<byte>))
    requires Trusted(chunk, TWO32)
    ensures r.0 == ERR_OK <==> r.1 != []
  {
    if |chunk| < 1 then (ERR_BADINPUT, [])
    else if !Framed(chunk) then Unpacked(chunk)
    else if |chunk| < HEADER_SIZE || TooShort(chunk) then (ERR_BADINPUT, [])
    else if chunk[0] == CHUNK_MAGIC2
         && FastRead(chunk, CHECKSUM_OFFSET) != sum32(chunk[HEADER_SIZE..HEADER_SIZE + FastRead(chunk, LEN_OFFSET)])
      then (ERR_CHECKSUM, [])
    else Unpacked(chunk[HEADER_SIZE..])
  }

  method Unpack(p: seq<byte>, out: array<byte>) returns (rc: int, outLen: nat)
    requires Fits(p, out.Length) && out.Length < TWO31
    modifies out
    ensures rc == Unpacked(p).0 && outLen == |Unpacked(p).1| && outLen <= out.Length
    ensures out[..outLen] == Unpacked(p).1
  {
    var qlzrc := Decompress(p, out);
    if qlzrc == 0 {
      rc, outLen := ERR_DECOMPRESS, 0;
    } else {
      rc, outLen := ERR_OK, qlzrc;
    }
  }

  /** sum32 is the checksum function, kept out of sight where its arithmetic is not needed. */
  ghost predicate IsSum(sum32: seq<byte> -> nat) {
    forall k {:trigger Unseal(k)} :: Unseal(k) ==> forall s :: sum32(s) == Sum32(s)
  }

  method ComputeSum(s: seq<byte>, ghost sum32: seq<byte> -> nat) returns (n: nat)
    requires IsSum(sum32)
    ensures n == sum32(s)
  {
    assert Unseal(0);
    var h := Checksum.Hash(Octets(s));
    n := Truncate(h);
  }

  method UncompressChunk(chunk: seq<byte>, out: array<byte>, ghost sum32: seq<byte> -> nat)
                         returns (rc: int, outLen: nat)
    requires Trusted(chunk, out.Length) && out.Length < TWO31 && IsSum(sum32)
    modifies out
    ensures rc == Uncompressed(sum32, chunk).0 && outLen == |Uncompressed(sum32, chunk).1| && outLen <= out.Length
    ensures out[..outLen] == Uncompressed(sum32, chunk).1
    ensures rc == ERR_BADINPUT || rc == ERR_CHECKSUM ==> out[..] == old(out[..])
  {
    outLen := 0;
    if |chunk| < 1 {
      return ERR_BADINPUT, 0;
    }
    var magic := chunk[0];
    if magic == CHUNK_MAGIC1 || magic == CHUNK_MAGIC2 {
      if |chunk| < HEADER_SIZE {
        return ERR_BADINPUT, 0;
      }
      var storedChecksum := FastRead(chunk, CHECKSUM_OFFSET);
      var storedLen := FastRead(chunk, LEN_OFFSET);
      if |chunk| < (storedLen + HEADER_SIZE) % TWO32 {
        return ERR_BADINPUT, 0;
      }
      if magic == CHUNK_MAGIC2 {
        var realChecksum := ComputeSum(chunk[HEADER_SIZE..HEADER_SIZE + storedLen], sum32);
        if storedChecksum != realChecksum {
          return ERR_CHECKSUM, 0;
        }
      }
      rc, outLen := Unpack(chunk[HEADER_SIZE..], out);
    } else {
      rc, outLen := Unpack(chunk, out);
    }
  }

  /** `uncompressBlock`.  The output buffer is untouched when the frame is rejected. */
  method UncompressBlock(chunk: seq<byte>, out: array<byte>) returns (rc: int, outLen: nat)
    requires Trusted(chunk, out.Length) && out.Length < TWO31
    modifies out
    ensures rc == Uncompressed(Sum32, chunk).0 && outLen == |Uncompressed(Sum32, chunk).1| && outLen <= out.Length
    ensures out[..outLen] == Uncompressed(Sum32, chunk).1
    ensures rc == ERR_BADINPUT || rc == ERR_CHECKSUM ==> out[..] == old(out[..])
  {
    rc, outLen := UncompressChunk(chunk, out, Sum32);
  }

  // ------------------------------------------------------------------ the length test

  /** For a chunk that passes the length test, the bytes to be checksummed lie inside it if and
      only if the stored length does not wrap around with the header's. */
  lemma LengthTestExactly(chunk: seq<byte>)
    requires HEADER_SIZE <= |chunk| < TWO32 && !TooShort(chunk)
    ensures var n := FastRead(chunk, LEN_OFFSET);
            (forall i :: HEADER_SIZE <= i < HEADER_SIZE + n ==> Inside(chunk, i)) <==> n + HEADER_SIZE < TWO32
  {
    var n := FastRead(chunk, LEN_OFFSET);
    if n + HEADER_SIZE < TWO32 {
      assert (n + HEADER_SIZE) % TWO32 == n + HEADER_SIZE;
    } else {
      assert !Inside(chunk, HEADER_SIZE + n - 1);
    }
  }

  /** Nine bytes that pass the test with a stored length of 0xffff_fff8. */
  lemma LengthWraps()
    ensures var chunk: seq<byte> := [CHUNK_MAGIC2, 0, 0, 0, 0, 0xf8, 0xff, 0xff, 0xff];
            !TooShort(chunk) && FastRead(chunk, LEN_OFFSET) == 0xffff_fff8 && HEADER_SIZE + 0xffff_fff8 > |chunk|
  {
  }

  /** A chunk is empty, or has a header's first byte, 0xff or 0xfe, and is shorter than a header
      or than the length stored in it says. */
  predicate Bad(chunk: seq<byte>) {
    || |chunk| == 0
    || (chunk[0] in {0xff, 0xfe} && (|chunk| < 9 || |chunk| < (FastRead(chunk, 5) + 9) % 0x1_0000_0000))
  }

  /** The checksum stored behind a first byte of 0xfe is not that of the bytes after the header. */
  predicate Mismatched(sum32: seq<byte> -> nat, chunk: seq<byte>)
    requires Trusted(chunk, TWO32) && !Bad(chunk)
  {
    chunk[0] == 0xfe && FastRead(chunk, 1) != sum32(chunk[9..9 + FastRead(chunk, 5)])
  }

  /** Which chunk gets which return code. */
  lemma CodesExactly(sum32: seq<byte> -> nat, chunk: seq<byte>)
    requires Trusted(chunk, TWO32)
    ensures var rc := Uncompressed(sum32, chunk).0;
            && (rc == -3 <==> Bad(chunk))
            && (rc == -1 <==> !Bad(chunk) && Mismatched(sum32, chunk))
            && (!Bad(chunk) && !Mismatched(sum32, chunk) ==>
                  var text := Decompressed(if chunk[0] in {0xff, 0xfe} then chunk[9..] else chunk);
                  if text.Some? && text.value != [] then Uncompressed(sum32, chunk) == (0, text.value) else rc == -2)
  {
  }

  // ------------------------------------------------------------------ recovery

  /** A chunk with a header in front of its packet. */
  function Frame(magic: byte, sum: nat, p: seq<byte>): (c: seq<byte>)
    requires sum < TWO32 && |p| < TWO32
    ensures |c| == HEADER_SIZE + |p|
  {
    [magic] + LeBytes(sum, 4) + LeBytes(|p|, 4) + p
  }

  lemma FrameFields(magic: byte, sum: nat, p: seq<byte>, after: seq<byte>)
    requires sum < TWO32 && |p| < TWO32
    ensures var c := Frame(magic, sum, p) + after;
            && c[0] == magic && FastRead(c, 1) == sum && FastRead(c, 5) == |p|
            && c[9..] == p + after && c[9..9 + |p|] == p
  {
    var c := Frame(magic, sum, p) + after;
    assert c[1..5] == LeBytes(sum, 4);
    ReadWord(c, 1, sum);
    assert c[5..9] == LeBytes(|p|, 4);
    ReadWord(c, 5, |p|);
  }

  /** A chunk with these fields is trusted and has its checksum, if any, taken from p. */
  lemma FieldsTrusted(c: seq<byte>, magic: byte, p: seq<byte>, text: seq<byte>, after: seq<byte>)
    requires IsPacket(p, text) && |p| + HEADER_SIZE < TWO32 && (magic == CHUNK_MAGIC1 || magic == CHUNK_MAGIC2)
    requires |c| == HEADER_SIZE + |p| + |after| && c[0] == magic && FastRead(c, LEN_OFFSET) == |p|
    requires c[HEADER_SIZE..] == p + after
    ensures Trusted(c, TWO32) && Framed(c) && !TooShort(c) && Decompressed(c[HEADER_SIZE..]) == Some(text)
  {
    PacketExtended(p, text, after);
  }

  /** A framed packet gives back its text, if the checksum is right or not looked at. */
  lemma FramedRecovered(sum32: seq<byte> -> nat, magic: byte, sum: nat, p: seq<byte>, text: seq<byte>, after: seq<byte>)
    requires IsPacket(p, text) && text != [] && sum < TWO32 && |p| + HEADER_SIZE < TWO32
    requires magic == 0xff || (magic == 0xfe && sum == sum32(p))
    ensures var c := Frame(magic, sum, p) + after;
            Trusted(c, TWO32) && Uncompressed(sum32, c) == (ERR_OK, text)
  {
    FrameFields(magic, sum, p, after);
    FieldsTrusted(Frame(magic, sum, p) + after, magic, p, text, after);
  }

  /** A framed packet with any other stored checksum is refused, if it is looked at. */
  lemma WrongSumRefused(sum32: seq<byte> -> nat, sum: nat, p: seq<byte>, text: seq<byte>, after: seq<byte>)
    requires IsPacket(p, text) && sum < TWO32 && |p| + HEADER_SIZE < TWO32 && sum != sum32(p)
    ensures var c := Frame(CHUNK_MAGIC2, sum, p) + after;
            Trusted(c, TWO32) && Uncompressed(sum32, c) == (ERR_CHECKSUM, [])
  {
    FrameFields(CHUNK_MAGIC2, sum, p, after);
    FieldsTrusted(Frame(CHUNK_MAGIC2, sum, p) + after, CHUNK_MAGIC2, p, text, after);
  }

  /** The checksum stored for a single zero byte. */
  lemma SumOfZero()
    ensures Sum32([0]) == 0x6eff5cb5
  {
    Checksum.DigestOfZero();
    assert Octets([0]) == [0];
    assert Truncate(0x4610abe56eff5cb5) == 0x6eff5cb5;
  }

  /** A bare packet is never mistaken for a framed one. */
  lemma BareRecovered(sum32: seq<byte> -> nat, p: seq<byte>, text: seq<byte>, after: seq<byte>)
    requires IsPacket(p, text) && text != []
    ensures Trusted(p + after, TWO32) && Uncompressed(sum32, p + after) == (ERR_OK, text)
  {
    PacketExtended(p, text, after);
  }

  /** The whole path: a text that fits the server's buffer is compressed, framed with its
      checksum, and recovered exactly. */
  method Recover(text: seq<byte>, packet: array<byte>, table: Table, out: array<byte>) returns (rc: int, outLen: nat)
    requires 1 <= |text| <= out.Length < TWO31 && |text| + 400 <= packet.Length
    requires table.Shape() && packet != table.counter && out != packet && out != table.counter
    modifies packet, table.slots, table.counter, out
    ensures rc == ERR_OK && outLen == |text| && out[..outLen] == text
  {
    var r := Compress(text, packet, table);
    var p := packet[..r];
    var sum := ComputeSum(p, Sum32);
    var chunk := Frame(CHUNK_MAGIC2, sum, p);
    assert chunk + [] == chunk;
    FramedRecovered(Sum32, CHUNK_MAGIC2, sum, p, text, []);
    FrameFields(CHUNK_MAGIC2, sum, p, []);
    HeaderSame(p, p + []);
    rc, outLen := UncompressBlock(chunk, out);
  }
}
