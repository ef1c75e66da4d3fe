/** The PNG files that the acceptance seeder writes: signature, chunks with their checksums,
    and a reader of chunks that is independent of the writer. */
module PngWriter {
  import opened Wrappers
  import opened Words
  import opened ByteReading
  import Crc32
  import CrcTheory

  const SIGNATURE: seq<byte> := [137, 80, 78, 71, 13, 10, 26, 10]
  const IHDR: seq<byte> := [73, 72, 68, 82]
  const IDAT: seq<byte> := [73, 68, 65, 84]
  const IEND: seq<byte> := [73, 69, 78, 68]

  function Flatten(parts: seq<seq<byte>>): seq<byte> {
    if parts == [] then [] else Flatten(parts[..|parts| - 1]) + parts[|parts| - 1]
  }

  function Contents(parts: seq<array<byte>>): (s: seq<seq<byte>>)
    reads parts
    ensures |s| == |parts|
  {
    seq(|parts|, i requires 0 <= i < |parts| reads parts => parts[i][..])
  }

  /** Length, type, data and the checksum over type and data. */
  function Chunk(kind: seq<byte>, data: seq<byte>): seq<byte> {
    Uint32Bytes(|data|) + kind + data + Uint32Bytes(Crc32.Number(kind + data))
  }

  function Header(width: int, height: int): (h: seq<byte>)
    ensures |h| == 13
  {
    Uint32Bytes(width) + Uint32Bytes(height) + [8, 6, 0, 0, 0]
  }

  /** The whole file; `pixels` is the deflated pixel data. */
  function Png(width: int, height: int, pixels: seq<byte>): seq<byte> {
    SIGNATURE + Chunk(IHDR, Header(width, height)) + Chunk(IDAT, pixels) + Chunk(IEND, [])
  }

  // ---------- the buffers ----------

  function Splice(s: seq<byte>, at: nat, part: seq<byte>): (r: seq<byte>)
    requires at + |part| <= |s|
    ensures |r| == |s|
  {
    s[..at] + part + s[at + |part|..]
  }

  /** TypedArray.set: copy `part` into the buffer from `at` on. */
  method SetBytes(output: array<byte>, part: array<byte>, at: nat)
    requires at + part.Length <= output.Length && output != part
    modifies output
    ensures output[..] == Splice(old(output[..]), at, part[..])
  {
    for i := 0 to part.Length
      invariant output[..at] == old(output[..at])
      invariant output[at..at + i] == part[..i]
      invariant output[at + i..] == old(output[at + i..])
    {
      output[at + i] := part[i];
      assert output[at..at + i + 1] == output[at..at + i] + [part[i]];
      assert part[..i + 1] == part[..i] + [part[i]];
    }
    assert part[..part.Length] == part[..];
  }

  method SetUint32(output: array<byte>, at: nat, v: int)
    requires at + 4 <= output.Length
    modifies output
    ensures output[..] == Splice(old(output[..]), at, Uint32Bytes(v))
  {
    var b := Uint32Bytes(v);
    output[at], output[at + 1], output[at + 2], output[at + 3] := b[0], b[1], b[2], b[3];
    assert output[at..at + 4] == b;
  }

  function TotalLength(parts: seq<array<byte>>): nat {
    if parts == [] then 0 else TotalLength(parts[..|parts| - 1]) + parts[|parts| - 1].Length
  }

  lemma {:induction false} FlattenLength(parts: seq<array<byte>>)
    ensures |Flatten(Contents(parts))| == TotalLength(parts)
  {
    if parts != [] {
      FlattenLength(parts[..|parts| - 1]);
      assert Contents(parts)[..|parts| - 1] == Contents(parts[..|parts| - 1]);
    }
  }

  lemma SplicePrefix(s: seq<byte>, at: nat, part: seq<byte>)
    requires at + |part| <= |s|
    ensures Splice(s, at, part)[..at + |part|] == s[..at] + part
  {
  }

  lemma FlattenNext(parts: seq<array<byte>>, i: nat)
    requires i < |parts|
    ensures Flatten(Contents(parts[..i + 1])) == Flatten(Contents(parts[..i])) + parts[i][..]
    ensures TotalLength(parts[..i + 1]) == TotalLength(parts[..i]) + parts[i].Length
  {
    assert parts[..i + 1][..i] == parts[..i];
    assert Contents(parts[..i + 1])[..i] == Contents(parts[..i]);
  }

  method ConcatBytes(parts: seq<array<byte>>) returns (output: array<byte>)
    ensures fresh(output) && output[..] == Flatten(Contents(parts))
  {
    hide Splice, Flatten, TotalLength, Contents;
    var total := SumLengths(parts);
    output := new byte[total](_ => 0);
    var offset := 0;
    NothingFlattened(parts);
    for i := 0 to |parts|
      invariant offset == TotalLength(parts[..i]) <= total
      invariant output[..offset] == Flatten(Contents(parts[..i]))
    {
      FlattenNext(parts, i);
      LengthMonotone(parts, i + 1);
      SplicePrefix(output[..], offset, parts[i][..]);
      SetBytes(output, parts[i], offset);
      offset := offset + parts[i].Length;
    }
    assert parts[..|parts|] == parts;
    FlattenLength(parts);
  }

  lemma NothingFlattened(parts: seq<array<byte>>)
    ensures TotalLength(parts[..0]) == 0 && Flatten(Contents(parts[..0])) == []
  {
  }

  method SumLengths(parts: seq<array<byte>>) returns (total: nat)
    ensures total == TotalLength(parts)
  {
    total := 0;
    for i := 0 to |parts|
      invariant total == TotalLength(parts[..i])
    {
      assert parts[..i + 1][..i] == parts[..i];
      total := total + parts[i].Length;
    }
    assert parts[..|parts|] == parts;
  }

  lemma {:induction false} LengthMonotone(parts: seq<array<byte>>, i: nat)
    requires i <= |parts|
    ensures TotalLength(parts[..i]) <= TotalLength(parts)
    decreases |parts| - i
  {
    if i == |parts| {
      assert parts[..i] == parts;
    } else {
      LengthMonotone(parts, i + 1);
      assert parts[..i + 1][..i] == parts[..i];
    }
  }

  lemma FlattenTwo(a: seq<byte>, b: seq<byte>)
    ensures Flatten([a, b]) == a + b
  {
    assert [a, b][..1] == [a] && [a][..0] == [];
    assert Flatten([a]) == a;
  }

  lemma FlattenFour(a: seq<byte>, b: seq<byte>, c: seq<byte>, d: seq<byte>)
    ensures Flatten([a, b, c, d]) == a + b + c + d
  {
    assert [a, b, c, d][..3] == [a, b, c] && [a, b, c][..2] == [a, b];
    FlattenTwo(a, b);
  }

  function Zeroed(n: nat): (z: seq<byte>)
    ensures |z| == n
  {
    seq(n, i => 0)
  }

  lemma ChunkLayout(z: seq<byte>, length: seq<byte>, kind: seq<byte>, data: seq<byte>, sum: seq<byte>)
    requires |length| == |kind| == |sum| == 4 && |z| == 12 + |data|
    ensures Splice(Splice(Splice(Splice(z, 0, length), 4, kind), 8, data), 8 + |data|, sum)
         == length + kind + data + sum
  {
  }

  method PngChunk(kind: array<byte>, data: array<byte>) returns (output: array<byte>)
    requires kind.Length == 4
    ensures fresh(output) && output[..] == Chunk(kind[..], data[..])
  {
    hide Flatten, Crc32.Number, Splice;
    output := new byte[12 + data.Length](_ => 0);
    assert output[..] == Zeroed(12 + data.Length);
    SetUint32(output, 0, data.Length);
    SetBytes(output, kind, 4);
    SetBytes(output, data, 8);
    var covered := ConcatBytes([kind, data]);
    FlattenTwo(kind[..], data[..]);
    assert Contents([kind, data]) == [kind[..], data[..]];
    var sum := Crc32.Compute(covered);
    SetUint32(output, 8 + data.Length, sum);
    ChunkLayout(Zeroed(12 + data.Length), Uint32Bytes(data.Length), kind[..], data[..], Uint32Bytes(sum));
  }

  method FromBytes(bytes: seq<byte>) returns (a: array<byte>)
    ensures fresh(a) && a[..] == bytes
  {
    a := new byte[|bytes|](i requires 0 <= i < |bytes| => bytes[i]);
  }

  method HeaderBytes(width: int, height: int) returns (ihdr: array<byte>)
    ensures fresh(ihdr) && ihdr[..] == Header(width, height)
  {
    ihdr := new byte[13](_ => 0);
    SetUint32(ihdr, 0, width);
    SetUint32(ihdr, 4, height);
    var depth := FromBytes([8, 6, 0, 0, 0]);
    SetBytes(ihdr, depth, 8);
  }

  method CreatePng(width: int, height: int, deflated: array<byte>) returns (png: array<byte>)
    ensures fresh(png) && png[..] == Png(width, height, deflated[..])
  {
    hide Chunk, Header, Flatten;
    var signature := FromBytes(SIGNATURE);
    var ihdr := HeaderBytes(width, height);
    var kind := FromBytes(IHDR);
    var header := PngChunk(kind, ihdr);
    kind := FromBytes(IDAT);
    var body := PngChunk(kind, deflated);
    kind := FromBytes(IEND);
    var empty := FromBytes([]);
    var end := PngChunk(kind, empty);
    png := ConcatBytes([signature, header, body, end]);
    FlattenFour(signature[..], header[..], body[..], end[..]);
    assert Contents([signature, header, body, end]) == [signature[..], header[..], body[..], end[..]];
  }

  // ---------- the independent reader of section 3.2 of RFC 2083 ----------

  datatype PngChunkData = PngChunkData(kind: seq<byte>, data: seq<byte>)

  /** The chunks of a byte string, or nothing when a length or a checksum is wrong. */
  function ReadChunks(s: seq<byte>): Option<seq<PngChunkData>>
    decreases |s|
  {
    if s == [] then Some([])
    else if |s| < 12 then None
    else
      var n := BigEndian32(s, 0);
      if |s| < 12 + n || BigEndian32(s, 8 + n) != Crc32.Number(s[4..8 + n]) then None
      else
        match ReadChunks(s[12 + n..])
        case None => None
        case Some(rest) => Some([PngChunkData(s[4..8], s[8..8 + n])] + rest)
  }

  function ReadPng(s: seq<byte>): Option<seq<PngChunkData>> {
    if |s| >= 8 && s[..8] == SIGNATURE then ReadChunks(s[8..]) else None
  }

  lemma ChecksumFits(bytes: seq<byte>)
    ensures Crc32.Number(bytes) < 0x1_0000_0000
  {
    NumberBound(Crc32.Crc(bytes));
    assert Power2(8) == 0x100;
    assert Power2(16) == 0x1_0000;
    assert Power2(24) == 0x100_0000;
    assert Power2(32) == 0x1_0000_0000;
  }

  lemma FourPieces(s: seq<byte>, a: seq<byte>, body: seq<byte>, c: seq<byte>, rest: seq<byte>)
    requires |a| == |c| == 4 && s == a + body + c + rest
    ensures |s| == 8 + |body| + |rest|
    ensures s[..4] == a && s[4..4 + |body|] == body
    ensures s[4 + |body|..8 + |body|] == c && s[8 + |body|..] == rest
  {
  }

  /** The layout of a stored chunk whose type and data are `body`. */
  lemma StoredChunk(s: seq<byte>, body: seq<byte>, sum: nat, rest: seq<byte>)
    requires 4 <= |body| < 0x1_0000_0000 + 4 && sum < 0x1_0000_0000
    requires s == Uint32Bytes(|body| - 4) + body + Uint32Bytes(sum) + rest
    ensures |s| == 8 + |body| + |rest| && BigEndian32(s, 0) == |body| - 4
    ensures BigEndian32(s, 4 + |body|) == sum
    ensures s[4..4 + |body|] == body && s[8 + |body|..] == rest
  {
    hide Uint32Bytes, BigEndian32;
    FourPieces(s, Uint32Bytes(|body| - 4), body, Uint32Bytes(sum), rest);
    BigEndianSlice(s, 0);
    BigEndianSlice(s, 4 + |body|);
  }

  lemma ChunkReadsBack(kind: seq<byte>, data: seq<byte>, rest: seq<byte>)
    requires |kind| == 4 && |data| < 0x1_0000_0000 && ReadChunks(rest).Some?
    ensures ReadChunks(Chunk(kind, data) + rest) == Some([PngChunkData(kind, data)] + ReadChunks(rest).value)
  {
    hide Crc32.Number;
    var s := Chunk(kind, data) + rest;
    var body := kind + data;
    ChecksumFits(body);
    StoredChunk(s, body, Crc32.Number(body), rest);
    assert s[4..8] == body[..4] && s[8..8 + |data|] == body[4..];
  }

  lemma NothingToRead()
    ensures ReadChunks([]) == Some([])
  {
  }

  /** The reader recovers exactly the chunks that were written, checksums included. */
  lemma PngReadsBack(width: int, height: int, pixels: seq<byte>)
    requires |pixels| < 0x1_0000_0000
    ensures ReadPng(Png(width, height, pixels))
         == Some([PngChunkData(IHDR, Header(width, height)), PngChunkData(IDAT, pixels), PngChunkData(IEND, [])])
  {
    hide Crc32.Number, ReadChunks, Chunk, Header;
    NothingToRead();
    var end := Chunk(IEND, []);
    var body := Chunk(IDAT, pixels) + end;
    ChunkReadsBack(IEND, [], []);
    assert end + [] == end;
    ChunkReadsBack(IDAT, pixels, end);
    ChunkReadsBack(IHDR, Header(width, height), body);
    var s := Png(width, height, pixels);
    assert s[..8] == SIGNATURE && s[8..] == Chunk(IHDR, Header(width, height)) + body;
    var h, d, e := PngChunkData(IHDR, Header(width, height)), PngChunkData(IDAT, pixels), PngChunkData(IEND, []);
    assert [h] + ([d] + ([e] + [])) == [h, d, e];
  }

  /** What these three chunks say: the header holds both sides, eight bits for each sample, true colour with alpha, and
      the plain compression, filter and interlace methods, as section 4.1.1 of RFC 2083 numbers them. */
  lemma HeaderSays(width: int, height: int)
    ensures Ascii(IHDR, 0, 4) == "IHDR" && Ascii(IDAT, 0, 4) == "IDAT" && Ascii(IEND, 0, 4) == "IEND"
    ensures var h := Header(width, height);
            && BigEndian32(h, 0) == width % 0x1_0000_0000 && BigEndian32(h, 4) == height % 0x1_0000_0000
            && h[8] == 8 && h[9] == 6 && h[10] == 0 && h[11] == 0 && h[12] == 0
  {
    var h := Header(width, height);
    hide Uint32Bytes, BigEndian32, Ascii;
    HeaderSlices(h, Uint32Bytes(width), Uint32Bytes(height));
    BigEndianSlice(h, 0);
    BigEndianSlice(h, 4);
    KindText(IHDR, "IHDR");
    KindText(IDAT, "IDAT");
    KindText(IEND, "IEND");
  }

  lemma HeaderSlices(h: seq<byte>, width: seq<byte>, height: seq<byte>)
    requires |width| == |height| == 4 && h == width + height + [8, 6, 0, 0, 0]
    ensures h[0..4] == width && h[4..8] == height
  {
  }

  lemma KindText(kind: seq<byte>, text: string)
    requires |kind| == |text| == 4 && forall i :: 0 <= i < 4 ==> kind[i] as char == text[i]
    ensures Ascii(kind, 0, 4) == text
  {
    assert Ascii(kind, 3, 4) == [text[3]];
    assert Ascii(kind, 2, 4) == [text[2], text[3]];
    assert Ascii(kind, 1, 4) == [text[1], text[2], text[3]];
    assert text == [text[0], text[1], text[2], text[3]];
  }

  /** A chunk whose type or data changed inside a window of four bytes is refused. */
  lemma DamagedChunkRefused(before: seq<byte>, u: seq<byte>, v: seq<byte>, after: seq<byte>, rest: seq<byte>)
    requires |u| == |v| <= 4 && u != v
    requires 4 <= |before + u + after| < 0x1_0000_0000 + 4
    ensures ReadChunks(Uint32Bytes(|before + u + after| - 4) + (before + v + after)
                       + Uint32Bytes(Crc32.Number(before + u + after)) + rest) == None
  {
    hide Crc32.Number;
    var sum := Crc32.Number(before + u + after);
    var s := Uint32Bytes(|before + u + after| - 4) + (before + v + after) + Uint32Bytes(sum) + rest;
    ChecksumFits(before + u + after);
    StoredChunk(s, before + v + after, sum, rest);
    CrcTheory.ChangedBytesDetected(before, u, v, after);
  }
}
