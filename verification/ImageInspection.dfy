/** The check an uploaded image must pass before it is stored: a known format, and a width and
    a height between 1 and 10000. */
module ImageInspection {
  import opened Wrappers
  import opened Words
  import opened ByteReading
  import opened ImageHeaders
  import JpegScan
  import PngWriter

  function ImageDimensions(s: seq<byte>, kind: ImageType): Option<Size>
    requires kind.PngImage? ==> |s| >= 24
  {
    match kind
    case PngImage => Some(PngSize(s))
    case JpegImage => JpegScan.Scan(s, 2)
    case WebpImage => WebpSize(s)
  }

  /** The type and size of an acceptable image, or nothing. */
  function Inspect(s: seq<byte>): Option<(ImageType, Size)> {
    match DetectImageType(s)
    case None => None
    case Some(kind) =>
      match ImageDimensions(s, kind)
      case Some(size) => if ValidSize(size) then Some((kind, size)) else None
      case None => None
  }

  lemma InspectPng(s: seq<byte>)
    requires DetectImageType(s) == Some(PngImage) && |s| >= 24
    ensures Inspect(s) == if ValidSize(PngSize(s)) then Some((PngImage, PngSize(s))) else None
  {
    hide DetectImageType, PngSize, JpegScan.Scan, WebpSize, ValidSize;
  }

  lemma InspectJpeg(s: seq<byte>)
    requires DetectImageType(s) == Some(JpegImage) && JpegScan.Scan(s, 2).Some?
    ensures var size := JpegScan.Scan(s, 2).value;
            Inspect(s) == if ValidSize(size) then Some((JpegImage, size)) else None
  {
    hide DetectImageType, PngSize, JpegScan.Scan, WebpSize, ValidSize;
  }

  /** The validator accepts a written PNG exactly when both sides are between 1 and 10000,
      and then reports the size it was written with. */
  lemma WrittenPngInspected(width: nat, height: nat, pixels: seq<byte>)
    requires width < 0x1_0000_0000 && height < 0x1_0000_0000
    ensures Inspect(PngWriter.Png(width, height, pixels))
         == if 1 <= width <= 10_000 && 1 <= height <= 10_000 then Some((PngImage, Size(width, height))) else None
  {
    hide PngWriter.Png, DetectImageType, PngSize, Inspect;
    WrittenPngReadsBack(width, height, pixels);
    InspectPng(PngWriter.Png(width, height, pixels));
  }

  /** A JPEG laid out by section B.2 of ITU-T T.81 and closed by EOI is accepted exactly when its frame's
      size is valid, and with that size. */
  lemma StandardJpegInspected(parts: seq<JpegScan.Part>, frame: JpegScan.Part, rest: seq<byte>)
    requires forall p :: p in parts && p.Segment? ==>
               JpegScan.MayPrecedeFrame(p.marker) && |p.payload| + 2 < 0x1_0000
    requires JpegScan.IsFrame(frame) && |rest| >= 5
    requires rest[|rest| - 2] == 0xff && rest[|rest| - 1] == 0xd9
    ensures forall p :: p in parts ==> JpegScan.Skippable(p)
    ensures Inspect([0xff, 0xd8] + JpegScan.PrintAll(parts) + JpegScan.Print(frame) + rest)
         == if ValidSize(JpegScan.FrameSize(frame)) then Some((JpegImage, JpegScan.FrameSize(frame))) else None
  {
    hide JpegScan.Scan, JpegScan.PrintAll, JpegScan.Print, JpegScan.FrameSize, DetectImageType, Inspect;
    JpegScan.StandardFileScans(parts, frame, rest);
    JpegScan.StartsWithMarker(parts, frame, rest);
    var body := JpegScan.PrintAll(parts) + (JpegScan.Print(frame) + rest);
    var s: seq<byte> := [0xff, 0xd8] + JpegScan.PrintAll(parts) + JpegScan.Print(frame) + rest;
    assert s == [0xff, 0xd8] + body;
    JpegDetected(s, body, JpegScan.PrintAll(parts) + JpegScan.Print(frame), rest);
    InspectJpeg(s);
  }

  lemma JpegDetected(s: seq<byte>, body: seq<byte>, front: seq<byte>, rest: seq<byte>)
    requires s == [0xff, 0xd8] + body && body == front + rest && |body| >= 14
    requires |rest| >= 5 && rest[|rest| - 2] == 0xff && rest[|rest| - 1] == 0xd9 && body[0] == 0xff
    ensures DetectImageType(s) == Some(JpegImage)
  {
    hide Ascii, LittleEndian32;
    assert s[0] == 0xff && s[2] == body[0];
    assert s[|s| - 2] == rest[|rest| - 2] && s[|s| - 1] == rest[|rest| - 1];
    assert s[..3] == [0xff, 0xd8, 0xff];
    assert s[..8][0] == 0xff;
  }

  // ---------- exactly what is accepted ----------

  /** The signature, IHDR as the type of the first chunk, and the sides in its first eight bytes. */
  predicate IsPng(s: seq<byte>, size: Size) {
    && |s| >= 33 && s[..8] == PngWriter.SIGNATURE && s[12..16] == PngWriter.IHDR
    && size.width < 0x1_0000_0000 && size.height < 0x1_0000_0000
    && s[16..20] == Uint32Bytes(size.width) && s[20..24] == Uint32Bytes(size.height)
  }

  /** SOI, parts that may be skipped, a frame header with this size, and EOI at the end of the bytes. */
  ghost predicate IsJpeg(s: seq<byte>, size: Size) {
    |s| >= 16 && s[..2] == [0xff, 0xd8] && s[|s| - 2..] == [0xff, 0xd9] && JpegScan.HoldsFrame(s, size)
  }

  lemma Uint32Back(s: seq<byte>, at: nat, n: nat)
    requires at + 4 <= |s| && n < 0x1_0000_0000
    ensures s[at..at + 4] == Uint32Bytes(n) <==> BigEndian32(s, at) == n
  {
    BigEndianSlice(s, at);
    var t, b := s[at..at + 4], Uint32Bytes(n);
    assert BigEndian32(b, 0) == n;
    hide Uint32Bytes, BigEndian32;
    if BigEndian32(s, at) == n {
      FourDigits(t, b);
    }
  }

  lemma FourDigits(t: seq<byte>, b: seq<byte>)
    requires |t| == |b| == 4 && BigEndian32(t, 0) == BigEndian32(b, 0)
    ensures t == b
  {
    assert BigEndian16(t, 0) == BigEndian16(b, 0) && BigEndian16(t, 2) == BigEndian16(b, 2);
    assert t[0] == b[0] && t[1] == b[1] && t[2] == b[2] && t[3] == b[3];
  }

  lemma PngDetected(s: seq<byte>)
    requires |s| >= 33
    ensures DetectImageType(s) == Some(PngImage) <==> s[..8] == PngWriter.SIGNATURE && s[12..16] == PngWriter.IHDR
  {
    FourCharacters(s, 12);
    hide Ascii, LittleEndian32;
    var four := s[12..16];
    assert four == [four[0], four[1], four[2], four[3]];
    assert 'I' as int == 73 && 'H' as int == 72 && 'D' as int == 68 && 'R' as int == 82;
    assert "IHDR" == ['I', 'H', 'D', 'R'];
  }

  lemma PngIsLong(s: seq<byte>)
    requires DetectImageType(s) == Some(PngImage)
    ensures |s| >= 33
  {
    hide Ascii, LittleEndian32;
  }

  /** The type comes first, then the size that its reader finds, then the limits. */
  lemma InspectedAs(s: seq<byte>, kind: ImageType, size: Size)
    requires DetectImageType(s) == Some(kind) && (kind.PngImage? ==> |s| >= 24)
    ensures Inspect(s) == Some((kind, size)) <==> ImageDimensions(s, kind) == Some(size) && ValidSize(size)
  {
    hide DetectImageType, ImageDimensions, ValidSize;
  }

  lemma InspectedType(s: seq<byte>, kind: ImageType, size: Size)
    requires Inspect(s) == Some((kind, size))
    ensures DetectImageType(s) == Some(kind)
  {
    hide DetectImageType, ImageDimensions, ValidSize;
  }

  lemma PngSides(s: seq<byte>, size: Size)
    requires |s| >= 24 && size.width < 0x1_0000_0000 && size.height < 0x1_0000_0000
    ensures PngSize(s) == size <==>
              s[16..20] == Uint32Bytes(size.width) && s[20..24] == Uint32Bytes(size.height)
  {
    hide Uint32Bytes, BigEndian32;
    Uint32Back(s, 16, size.width);
    Uint32Back(s, 20, size.height);
  }

  /** A PNG is accepted, with this size, exactly when it starts like one, and the size is valid. Nothing behind the
      sides is looked at. */
  lemma PngAcceptedExactly(s: seq<byte>, size: Size)
    ensures Inspect(s) == Some((PngImage, size)) <==> IsPng(s, size) && ValidSize(size)
  {
    hide Inspect, DetectImageType, Uint32Bytes, PngSize;
    if Inspect(s) == Some((PngImage, size)) {
      InspectedType(s, PngImage, size);
      PngIsLong(s);
    }
    if |s| >= 33 && DetectImageType(s) == Some(PngImage) {
      InspectedAs(s, PngImage, size);
    }
    if |s| >= 33 {
      PngDetected(s);
      if ValidSize(size) {
        PngSides(s, size);
      }
    }
  }

  lemma JpegRecognised(s: seq<byte>)
    ensures DetectImageType(s) == Some(JpegImage) <==>
              |s| >= 16 && s[0] == 0xff && s[1] == 0xd8 && s[2] == 0xff && s[|s| - 2] == 0xff && s[|s| - 1] == 0xd9
  {
    hide Ascii, LittleEndian32;
    if |s| >= 16 {
      assert s[..3] == [s[0], s[1], s[2]];
      assert |s| >= 33 ==> s[..8][0] == s[0];
    }
  }

  /** A JPEG is accepted, with this size, exactly when its bytes are those of the grammar, from SOI to EOI, and the size
      is valid. */
  lemma JpegAcceptedExactly(s: seq<byte>, size: Size)
    ensures Inspect(s) == Some((JpegImage, size)) <==> IsJpeg(s, size) && ValidSize(size)
  {
    JpegRecognised(s);
    hide Inspect, DetectImageType, JpegScan.Scan, JpegScan.HoldsFrame, ValidSize;
    if Inspect(s) == Some((JpegImage, size)) {
      InspectedType(s, JpegImage, size);
    }
    if DetectImageType(s) == Some(JpegImage) {
      InspectedAs(s, JpegImage, size);
    }
    if |s| >= 16 {
      JpegScan.ScanIsExact(s, size);
      assert s[..2] == [s[0], s[1]] && s[|s| - 2..] == [s[|s| - 2], s[|s| - 1]];
      if JpegScan.HoldsFrame(s, size) {
        MarkerFollows(s, size);
      }
    }
  }

  lemma MarkerFollows(s: seq<byte>, size: Size)
    requires |s| >= 3 && JpegScan.HoldsFrame(s, size)
    ensures s[2] == 0xff
  {
    var parts, frame, rest :|
      (forall p :: p in parts ==> JpegScan.Skippable(p)) && JpegScan.IsFrame(frame)
      && JpegScan.FrameSize(frame) == size && s[2..] == JpegScan.PrintAll(parts) + (JpegScan.Print(frame) + rest);
    JpegScan.StartsWithMarker(parts, frame, rest);
    assert s[2] == s[2..][0];
  }
}
