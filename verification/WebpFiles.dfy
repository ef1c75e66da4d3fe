/** WebP files as section 2 of RFC 9649 lays them out, what the image check makes of them,
    and which bytes its reader of sizes looks at. */
module WebpFiles {
  import opened Wrappers
  import opened Words
  import opened ByteReading
  import opened ImageHeaders
  import opened ImageInspection

  function Little16(n: nat): (s: seq<byte>)
    requires n < 0x1_0000
    ensures |s| == 2 && LittleEndian16(s, 0) == n
  {
    [n % 0x100, n / 0x100]
  }

  function Little24(n: nat): (s: seq<byte>)
    requires n < 0x100_0000
    ensures |s| == 3 && LittleEndian24(s, 0) == n
  {
    [n % 0x100, n / 0x100 % 0x100, n / 0x1_0000]
  }

  function Little32(n: nat): (s: seq<byte>)
    requires n < 0x1_0000_0000
    ensures |s| == 4 && LittleEndian32(s, 0) == n
  {
    Little16(n % 0x1_0000) + Little16(n / 0x1_0000)
  }

  /** A chunk: four characters, the length of the payload, the payload, and a byte of padding when its length is odd. */
  datatype Chunk = Chunk(kind: seq<byte>, payload: seq<byte>) {
    predicate Valid() {
      |kind| == 4 && |payload| < 0x1_0000_0000
    }

    function Print(): (s: seq<byte>)
      requires Valid()
      ensures |s| == 8 + |payload| + |payload| % 2
    {
      kind + Little32(|payload|) + payload + (if |payload| % 2 == 1 then [0] else [])
    }
  }

  function PrintAll(chunks: seq<Chunk>): seq<byte>
    requires forall c :: c in chunks ==> c.Valid()
  {
    if chunks == [] then [] else chunks[0].Print() + PrintAll(chunks[1..])
  }

  /** The first chunk. An extended file starts with a header of ten bytes, of which the first four are flags and
      reserved bits, and everything else is in the chunks behind it. In a simple file the header is followed by image
      data: lossless with its signature, or a key frame with its tag, start code and dimensions with scale bits. */
  datatype FirstChunk =
    | Extended(flags: seq<byte>, width: nat, height: nat)
    | Lossless(width: nat, height: nat, hints: nat, data: seq<byte>)
    | KeyFrame(tag: seq<byte>, width: nat, height: nat, widthScale: nat, heightScale: nat, data: seq<byte>)
  {
    predicate Valid() {
      match this
      case Extended(flags, w, h) => |flags| == 4 && 1 <= w <= 0x100_0000 && 1 <= h <= 0x100_0000
      case Lossless(w, h, f, _) => 1 <= w <= 0x4000 && 1 <= h <= 0x4000 && f < 16
      case KeyFrame(tag, w, h, sw, sh, _) => |tag| == 3 && w < 0x4000 && h < 0x4000 && sw < 4 && sh < 4
    }

    function Kind(): (s: seq<byte>)
      ensures |s| == 4
    {
      match this
      case Extended(_, _, _) => [86, 80, 56, 88]
      case Lossless(_, _, _, _) => [86, 80, 56, 76]
      case KeyFrame(_, _, _, _, _, _) => [86, 80, 56, 32]
    }

    function Header(): (s: seq<byte>)
      requires Valid()
      ensures 5 <= |s| <= 10
    {
      match this
      case Extended(f, w, h) => f + Little24(w - 1) + Little24(h - 1)
      case Lossless(w, h, f, _) => [0x2f] + Little32((w - 1) + (h - 1) * 0x4000 + f * 0x1000_0000)
      case KeyFrame(tag, w, h, sw, sh, _) =>
        tag + [0x9d, 0x01, 0x2a] + Little16(w + sw * 0x4000) + Little16(h + sh * 0x4000)
    }

    function ToChunk(): Chunk
      requires Valid()
    {
      Chunk(Kind(), Header() + if Extended? then [] else data)
    }

    function FrameSize(): Size {
      Size(width, height)
    }
  }

  /** The container: RIFF, the size of everything that belongs to the file behind these eight bytes, WEBP, and
      chunks. */
  ghost predicate ValidFile(first: FirstChunk, others: seq<Chunk>) {
    && first.Valid() && first.ToChunk().Valid()
    && (forall c :: c in others ==> c.Valid())
    && 4 + |first.ToChunk().Print()| + |PrintAll(others)| < 0x1_0000_0000
  }

  ghost function File(first: FirstChunk, others: seq<Chunk>): seq<byte>
    requires ValidFile(first, others)
  {
    var chunks := first.ToChunk().Print() + PrintAll(others);
    [82, 73, 70, 70] + Little32(4 + |chunks|) + [87, 69, 66, 80] + chunks
  }

  lemma FileBytes(first: FirstChunk, others: seq<Chunk>) returns (length: seq<byte>, data: seq<byte>, pad: seq<byte>)
    requires ValidFile(first, others)
    ensures |length| == 4
    ensures 12 + |first.Header()| + |data| + |pad| + |PrintAll(others)| < 0x1_0000_0000
    ensures File(first, others)
         == [82, 73, 70, 70] + Little32(12 + |first.Header()| + |data| + |pad| + |PrintAll(others)|) + [87, 69, 66, 80]
            + (first.Kind() + length + (first.Header() + data) + pad + PrintAll(others))
  {
    hide Little32, FirstChunk.Header, FirstChunk.Kind, PrintAll;
    var c := first.ToChunk();
    length := Little32(|c.payload|);
    data := if first.Extended? then [] else first.data;
    pad := if |c.payload| % 2 == 1 then [0] else [];
  }

  /** Where the container's fields and the header of the first chunk lie. */
  ghost predicate LaidOut(s: seq<byte>, header: seq<byte>, kind: seq<byte>) {
    && 20 + |header| <= |s| < 0x1_0000_0008
    && s[..4] == [82, 73, 70, 70] && s[4..8] == Little32(|s| - 8) && s[8..12] == [87, 69, 66, 80]
    && s[12..16] == kind && s[20..20 + |header|] == header
  }

  lemma FileLayout(first: FirstChunk, others: seq<Chunk>)
    requires ValidFile(first, others)
    ensures LaidOut(File(first, others), first.Header(), first.Kind())
  {
    var length, data, pad := FileBytes(first, others);
    var header, kind, rest := first.Header(), first.Kind(), PrintAll(others);
    hide Little32, FirstChunk.Header, FirstChunk.Kind, FirstChunk.ToChunk, FirstChunk.Valid, PrintAll, File, ValidFile;
    hide LaidOut;
    LaysOut(File(first, others), 12 + |header| + |data| + |pad| + |rest|, kind, length, header, data, pad, rest);
  }

  lemma LaysOut(s: seq<byte>, n: nat, kind: seq<byte>, length: seq<byte>, header: seq<byte>, data: seq<byte>,
                pad: seq<byte>, others: seq<byte>)
    requires |kind| == |length| == 4 && n == 12 + |header| + |data| + |pad| + |others| < 0x1_0000_0000
    requires s == [82, 73, 70, 70] + Little32(n) + [87, 69, 66, 80] + (kind + length + (header + data) + pad + others)
    ensures LaidOut(s, header, kind)
  {
    hide Little32;
    Containers([82, 73, 70, 70], Little32(n), [87, 69, 66, 80], kind, length, header, data, pad, others);
  }

  lemma Containers(riff: seq<byte>, size: seq<byte>, webp: seq<byte>, kind: seq<byte>, length: seq<byte>,
                   header: seq<byte>, data: seq<byte>, pad: seq<byte>, others: seq<byte>)
    requires |riff| == |size| == |webp| == |kind| == |length| == 4
    ensures var s := riff + size + webp + (kind + length + (header + data) + pad + others);
            && |s| == 20 + |header| + |data| + |pad| + |others|
            && s[..4] == riff && s[4..8] == size && s[8..12] == webp && s[12..16] == kind
            && s[20..20 + |header|] == header
  {
  }

  /** The container is recognised as long as nothing of the size it declares is missing. */
  lemma Detected(s: seq<byte>, size: nat)
    requires |s| >= 16 && size < 0x1_0000_0000
    requires s[..4] == [82, 73, 70, 70] && s[4..8] == Little32(size) && s[8..12] == [87, 69, 66, 80]
    ensures DetectImageType(s) == if size + 8 <= |s| then Some(WebpImage) else None
  {
    hide Ascii, Little32;
    FourCharacters(s, 0);
    FourCharacters(s, 8);
    assert s[0..4] == s[..4];
    LittleSlice(s, 4);
    assert s[..8][0] == 82 && s[..3][0] == 82;
  }

  lemma LittleSlice(s: seq<byte>, at: nat)
    requires at + 4 <= |s|
    ensures LittleEndian32(s, at) == LittleEndian32(s[at..at + 4], 0)
  {
  }

  lemma ScaleBits(n: nat, scale: nat)
    requires n < 0x4000
    ensures (n + scale * 0x4000) % 0x4000 == n
  {
  }

  /** The bytes hold the header of this first chunk where the file keeps it. */
  ghost predicate StartsWith(s: seq<byte>, first: FirstChunk) {
    && first.Valid() && |s| >= 20 + |first.Header()|
    && s[12..16] == first.Kind() && s[20..20 + |first.Header()|] == first.Header()
  }

  /** Each of the three layouts is read by its own branch, to the size it was written with. */
  lemma ChunkIsRead(s: seq<byte>, first: FirstChunk)
    requires StartsWith(s, first)
    ensures WebpSize(s) == Some(first.FrameSize())
  {
    FourCharacters(s, 12);
    var header := first.Header();
    forall i | 0 <= i < |header|
      ensures s[20 + i] == header[i]
    {
      assert s[20..20 + |header|][i] == header[i];
    }
    match first
    case Extended(_, w, h) => ExtendedIsRead(s, w, h, header);
    case Lossless(w, h, f, _) =>
      LosslessWord(s, header, (w - 1) + (h - 1) * 0x4000 + f * 0x1000_0000);
      hide WebpSize, LittleEndian32, Little32;
      LosslessReadsBack(s, w, h, f);
    case KeyFrame(tag, w, h, sw, sh, _) => KeyFrameIsRead(s, first);
  }

  lemma ExtendedIsRead(s: seq<byte>, w: nat, h: nat, bytes: seq<byte>)
    requires 1 <= w <= 0x100_0000 && 1 <= h <= 0x100_0000 && |bytes| == 10 && |s| >= 30
    requires bytes[4..7] == Little24(w - 1) && bytes[7..10] == Little24(h - 1)
    requires Ascii(s, 12, 16) == "VP8X" && forall i :: 0 <= i < 10 ==> s[20 + i] == bytes[i]
    ensures WebpSize(s) == Some(Size(w, h))
  {
    hide Ascii, Little24;
    assert s[24] == bytes[4] && s[25] == bytes[5] && s[26] == bytes[6];
    assert s[27] == bytes[7] && s[28] == bytes[8] && s[29] == bytes[9];
    assert LittleEndian24(s, 24) == LittleEndian24(bytes[4..7], 0);
    assert LittleEndian24(s, 27) == LittleEndian24(bytes[7..10], 0);
  }

  lemma LosslessWord(s: seq<byte>, bytes: seq<byte>, word: nat)
    requires word < 0x1_0000_0000 && bytes == [0x2f] + Little32(word) && |s| >= 25
    requires forall i :: 0 <= i < 5 ==> s[20 + i] == bytes[i]
    ensures s[20] == 0x2f && LittleEndian32(s, 21) == word
  {
    hide Little32;
    assert bytes[1..5] == Little32(word);
    assert s[20] == bytes[0] && s[21] == bytes[1] && s[22] == bytes[2] && s[23] == bytes[3] && s[24] == bytes[4];
    assert s[21..25] == bytes[1..5];
    LittleSlice(s, 21);
  }

  lemma KeyFrameIsRead(s: seq<byte>, first: FirstChunk)
    requires first.KeyFrame? && first.Valid() && |s| >= 30
    requires Ascii(s, 12, 16) == "VP8 " && forall i :: 0 <= i < 10 ==> s[20 + i] == first.Header()[i]
    ensures WebpSize(s) == Some(first.FrameSize())
  {
    hide Ascii, Little16;
    var bytes := first.Header();
    ScaleBits(first.width, first.widthScale);
    ScaleBits(first.height, first.heightScale);
    assert bytes[6..8] == Little16(first.width + first.widthScale * 0x4000);
    assert bytes[8..10] == Little16(first.height + first.heightScale * 0x4000);
    assert s[23] == bytes[3] && s[24] == bytes[4] && s[25] == bytes[5];
    assert s[26] == bytes[6] && s[27] == bytes[7] && s[28] == bytes[8] && s[29] == bytes[9];
    assert LittleEndian16(s, 26) == LittleEndian16(bytes[6..8], 0);
    assert LittleEndian16(s, 28) == LittleEndian16(bytes[8..10], 0);
    assert "VP8 "[3] != "VP8X"[3] && "VP8 "[3] != "VP8L"[3];
  }

  lemma InspectWebp(s: seq<byte>)
    requires DetectImageType(s) == Some(WebpImage) && WebpSize(s).Some?
    ensures Inspect(s) == if ValidSize(WebpSize(s).value) then Some((WebpImage, WebpSize(s).value)) else None
  {
    hide DetectImageType, WebpSize, ValidSize;
  }

  /** A file of any of the three layouts, with any chunks behind the first, is accepted exactly when both sides are
      between 1 and 10000, with the size it was written with. Data behind the declared size makes no difference. */
  lemma FileInspected(first: FirstChunk, others: seq<Chunk>, trailing: seq<byte>)
    requires ValidFile(first, others)
    ensures Inspect(File(first, others) + trailing)
         == if ValidSize(first.FrameSize()) then Some((WebpImage, first.FrameSize())) else None
  {
    hide Inspect, DetectImageType, WebpSize, ValidSize, Little32, File;
    FileLayout(first, others);
    var file := File(first, others);
    var s := file + trailing;
    SlicesOf(file, s, |first.Header()|);
    Detected(s, |file| - 8);
    ChunkIsRead(s, first);
    InspectWebp(s);
  }

  lemma SlicesOf(file: seq<byte>, s: seq<byte>, n: nat)
    requires file <= s && |file| >= 20 + n
    ensures s[..4] == file[..4] && s[4..8] == file[4..8] && s[8..12] == file[8..12] && s[12..16] == file[12..16]
    ensures s[20..20 + n] == file[20..20 + n]
  {
  }

  /** A file of which the end is missing, however little, is refused. */
  lemma TruncatedFileRefused(first: FirstChunk, others: seq<Chunk>, k: nat)
    requires ValidFile(first, others) && k < |File(first, others)|
    ensures Inspect(File(first, others)[..k]) == None
  {
    FileLayout(first, others);
    var file := File(first, others);
    hide Ascii, LittleEndian32, Little32, File, ValidFile, ImageDimensions, ValidSize;
    TruncatedUndetected(file, k, first.Header(), first.Kind());
  }

  lemma TruncatedUndetected(file: seq<byte>, k: nat, header: seq<byte>, kind: seq<byte>)
    requires LaidOut(file, header, kind) && k < |file|
    ensures DetectImageType(file[..k]) == None
  {
    hide DetectImageType, Little32;
    var s := file[..k];
    if k >= 16 {
      assert s[..4] == file[..4] && s[4..8] == file[4..8] && s[8..12] == file[8..12];
      Detected(s, |file| - 8);
    } else {
      TooShort(s);
    }
  }

  lemma TooShort(s: seq<byte>)
    requires |s| < 16
    ensures DetectImageType(s) == None
  {
  }

  // ---------- no other bytes are read ----------

  lemma Little16Of(s: seq<byte>, at: nat)
    requires at + 2 <= |s|
    ensures Little16(LittleEndian16(s, at)) == s[at..at + 2]
  {
    TwoDigits(s[at], s[at + 1]);
  }

  lemma TwoDigits(low: nat, high: nat)
    requires low < 0x100
    ensures (low + high * 0x100) % 0x100 == low && (low + high * 0x100) / 0x100 == high
  {
  }

  lemma Little24Of(s: seq<byte>, at: nat)
    requires at + 3 <= |s|
    ensures Little24(LittleEndian24(s, at)) == s[at..at + 3]
  {
    var n := LittleEndian24(s, at);
    TwoDigits(s[at], s[at + 1] as int + s[at + 2] as int * 0x100);
    TwoDigits(s[at + 1], s[at + 2]);
    assert n == s[at] as int + (s[at + 1] as int + s[at + 2] as int * 0x100) * 0x100;
    assert n / 0x1_0000 == n / 0x100 / 0x100;
  }

  lemma Little32Of(s: seq<byte>, at: nat)
    requires at + 4 <= |s|
    ensures Little32(LittleEndian32(s, at)) == s[at..at + 4]
  {
    hide Little16, LittleEndian16;
    Little16Of(s, at);
    Little16Of(s, at + 2);
    TwoWords(LittleEndian16(s, at), LittleEndian16(s, at + 2));
    assert s[at..at + 2] + s[at + 2..at + 4] == s[at..at + 4];
  }

  lemma TwoWords(low: nat, high: nat)
    requires low < 0x1_0000
    ensures (low + high * 0x1_0000) % 0x1_0000 == low && (low + high * 0x1_0000) / 0x1_0000 == high
  {
  }

  lemma KindRead(s: seq<byte>)
    requires |s| >= 16
    ensures Ascii(s, 12, 16) == "VP8X" ==> s[12..16] == [86, 80, 56, 88]
    ensures Ascii(s, 12, 16) == "VP8L" ==> s[12..16] == [86, 80, 56, 76]
    ensures Ascii(s, 12, 16) == "VP8 " ==> s[12..16] == [86, 80, 56, 32]
  {
    FourCharacters(s, 12);
    hide Ascii;
    var four := s[12..16];
    assert four == [four[0], four[1], four[2], four[3]];
    assert 'V' as int == 86 && 'P' as int == 80 && '8' as int == 56;
    assert 'X' as int == 88 && 'L' as int == 76 && ' ' as int == 32;
  }

  lemma ExtendedRead(s: seq<byte>, first: FirstChunk)
    requires |s| >= 30 && s[12..16] == [86, 80, 56, 88]
    requires first == Extended(s[20..24], 1 + LittleEndian24(s, 24), 1 + LittleEndian24(s, 27))
    ensures StartsWith(s, first)
  {
    hide LittleEndian24, Little24;
    Little24Of(s, 24);
    Little24Of(s, 27);
    assert s[20..30] == s[20..24] + s[24..27] + s[27..30];
  }

  lemma LosslessRead(s: seq<byte>, word: nat, first: FirstChunk)
    requires |s| >= 25 && s[12..16] == [86, 80, 56, 76] && s[20] == 0x2f && word == LittleEndian32(s, 21)
    requires first == Lossless(1 + word % 0x4000, 1 + word / 0x4000 % 0x4000, word / 0x1000_0000, [])
    ensures StartsWith(s, first)
  {
    hide LittleEndian32, Little32;
    Little32Of(s, 21);
    PackedBack(word);
    assert s[20..25] == [s[20]] + s[21..25];
  }

  lemma KeyFrameRead(s: seq<byte>, w: nat, h: nat, first: FirstChunk)
    requires |s| >= 30 && s[12..16] == [86, 80, 56, 32] && s[23..26] == [0x9d, 0x01, 0x2a]
    requires w == LittleEndian16(s, 26) && h == LittleEndian16(s, 28)
    requires first == KeyFrame(s[20..23], w % 0x4000, h % 0x4000, w / 0x4000, h / 0x4000, [])
    ensures StartsWith(s, first)
  {
    hide LittleEndian16, Little16;
    Little16Of(s, 26);
    Little16Of(s, 28);
    assert s[20..30] == s[20..23] + s[23..26] + s[26..28] + s[28..30];
  }

  /** The first chunk that was read. */
  lemma ChunkRead(s: seq<byte>, size: Size) returns (first: FirstChunk)
    requires |s| >= 16 && WebpSize(s) == Some(size)
    ensures StartsWith(s, first) && first.FrameSize() == size
  {
    hide Ascii, LittleEndian16, LittleEndian24, LittleEndian32, StartsWith;
    KindRead(s);
    if Ascii(s, 12, 16) == "VP8X" && |s| >= 30 {
      first := Extended(s[20..24], size.width, size.height);
      ExtendedRead(s, first);
    } else if Ascii(s, 12, 16) == "VP8L" && |s| >= 25 && s[20] == 0x2f {
      var word := LittleEndian32(s, 21);
      LosslessFields(s);
      first := Lossless(size.width, size.height, word / 0x1000_0000, []);
      LosslessRead(s, word, first);
    } else {
      var w, h := LittleEndian16(s, 26), LittleEndian16(s, 28);
      first := KeyFrame(s[20..23], size.width, size.height, w / 0x4000, h / 0x4000, []);
      assert s[23..26] == [s[23], s[24], s[25]];
      KeyFrameRead(s, w, h, first);
    }
  }

  lemma PackedBack(word: nat)
    requires word < 0x1_0000_0000
    ensures word / 0x1000_0000 < 16
    ensures word == word % 0x4000 + word / 0x4000 % 0x4000 * 0x4000 + word / 0x1000_0000 * 0x1000_0000
  {
    assert word / 0x4000 / 0x4000 == word / 0x1000_0000;
  }

  /** A size is read exactly when the bytes hold the header of a first chunk of that size. */
  lemma SizeIsExact(s: seq<byte>, size: Size)
    requires |s| >= 16
    ensures WebpSize(s) == Some(size) <==> exists first :: StartsWith(s, first) && first.FrameSize() == size
  {
    hide WebpSize;
    if WebpSize(s) == Some(size) {
      var first := ChunkRead(s, size);
    }
    forall first | StartsWith(s, first) && first.FrameSize() == size
      ensures WebpSize(s) == Some(size)
    {
      ChunkIsRead(s, first);
    }
  }

  // ---------- exactly what is accepted ----------

  /** A container that declares no more than there is, with the header of a first chunk of this size. */
  ghost predicate IsWebp(s: seq<byte>, size: Size) {
    && |s| >= 16 && s[..4] == [82, 73, 70, 70] && s[8..12] == [87, 69, 66, 80]
    && (exists declared: nat :: declared < 0x1_0000_0000 && s[4..8] == Little32(declared) && declared + 8 <= |s|)
    && exists first :: StartsWith(s, first) && first.FrameSize() == size
  }

  lemma FourBytes(s: seq<byte>, at: nat, text: string, bytes: seq<byte>)
    requires at + 4 <= |s| && |text| == |bytes| == 4 && forall i :: 0 <= i < 4 ==> bytes[i] as char == text[i]
    ensures Ascii(s, at, at + 4) == text <==> s[at..at + 4] == bytes
  {
    FourCharacters(s, at);
    hide Ascii;
    var four := s[at..at + 4];
    assert text == [text[0], text[1], text[2], text[3]];
    assert four == [four[0], four[1], four[2], four[3]];
  }

  lemma WebpRecognised(s: seq<byte>)
    ensures DetectImageType(s) == Some(WebpImage) <==>
              && |s| >= 16 && s[..4] == [82, 73, 70, 70] && s[8..12] == [87, 69, 66, 80]
              && LittleEndian32(s, 4) + 8 <= |s|
  {
    hide Ascii, LittleEndian32;
    if |s| >= 16 {
      FourBytes(s, 0, "RIFF", [82, 73, 70, 70]);
      FourBytes(s, 8, "WEBP", [87, 69, 66, 80]);
      assert s[0..4] == s[..4];
      if s[0] == 82 {
        assert |s| >= 33 ==> s[..8][0] == 82;
        assert s[..3][0] == 82;
      } else {
        assert s[..4][0] != 82;
      }
    }
  }

  /** A WebP file is accepted, with this size, exactly when it is such a container and the size is valid. */
  lemma WebpAcceptedExactly(s: seq<byte>, size: Size)
    ensures Inspect(s) == Some((WebpImage, size)) <==> IsWebp(s, size) && ValidSize(size)
  {
    WebpRecognised(s);
    hide Inspect, DetectImageType, LittleEndian32, Little32, WebpSize, StartsWith, ValidSize;
    if Inspect(s) == Some((WebpImage, size)) {
      InspectedType(s, WebpImage, size);
    }
    if DetectImageType(s) == Some(WebpImage) {
      InspectedAs(s, WebpImage, size);
    }
    if |s| >= 16 {
      SizeIsExact(s, size);
      Little32Of(s, 4);
      forall declared: nat | declared < 0x1_0000_0000 && s[4..8] == Little32(declared)
        ensures declared == LittleEndian32(s, 4)
      {
        LittleSlice(s, 4);
      }
    }
  }

  /** Whatever is uploaded: it is accepted with a type and a size exactly when it is an image of that type with that
      size, from 1 to 10000 each way. */
  lemma InspectedExactly(s: seq<byte>, kind: ImageType, size: Size)
    ensures Inspect(s) == Some((kind, size)) <==>
              && 1 <= size.width <= 10_000 && 1 <= size.height <= 10_000
              && match kind
                 case PngImage => IsPng(s, size)
                 case JpegImage => IsJpeg(s, size)
                 case WebpImage => IsWebp(s, size)
  {
    hide Inspect, IsPng, IsJpeg, IsWebp;
    match kind
    case PngImage => PngAcceptedExactly(s, size);
    case JpegImage => JpegAcceptedExactly(s, size);
    case WebpImage => WebpAcceptedExactly(s, size);
  }
}
