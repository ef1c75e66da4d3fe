/** Finding the frame header of a JPEG file. */
module JpegScan {
  import opened Wrappers
  import opened Words
  import opened ByteReading
  import opened ImageHeaders

  predicate IsStartOfFrame(marker: byte) {
    0xc0 <= marker <= 0xcf && marker !in {0xc4, 0xc8, 0xcc}
  }

  /** The markers that table B.1 of ITU-T T.81 names SOF, for each combination of coding and process; C4, C8 and CC mean
      DHT, JPG and DAC. */
  lemma FrameMarkers(marker: byte)
    ensures IsStartOfFrame(marker) <==>
              marker in {0xc0, 0xc1, 0xc2, 0xc3, 0xc5, 0xc6, 0xc7, 0xc9, 0xca, 0xcb, 0xcd, 0xce, 0xcf}
  {
  }

  /** The scan from `offset` on. */
  function Scan(s: seq<byte>, offset: nat): Option<Size>
    decreases |s| - offset
  {
    if offset + 8 >= |s| || s[offset] != 0xff then None
    else
      var marker := s[offset + 1];
      if marker == 0xd9 || marker == 0xda then None
      else if marker == 0xff then Scan(s, offset + 1)
      else if marker == 0x01 then Scan(s, offset + 2)
      else
        var length := BigEndian16(s, offset + 2);
        if length < 2 || offset + length + 2 > |s| then None
        else if IsStartOfFrame(marker) && length >= 7 then
          Some(Size(BigEndian16(s, offset + 7), BigEndian16(s, offset + 5)))
        else Scan(s, offset + length + 2)
  }

  method JpegDimensions(bytes: array<byte>) returns (size: Option<Size>)
    ensures size == Scan(bytes[..], 2)
  {
    var offset := 2;
    while offset + 8 < bytes.Length
      invariant offset >= 2 && Scan(bytes[..], offset) == Scan(bytes[..], 2)
      decreases bytes.Length - offset
    {
      if bytes[offset] != 0xff {
        return None;
      }
      var marker := bytes[offset + 1];
      if marker == 0xd9 || marker == 0xda {
        return None;
      }
      if marker == 0xff || marker == 0x01 {
        offset := offset + if marker == 0xff then 1 else 2;
        continue;
      }
      var length := BigEndian16(bytes[..], offset + 2);
      if length < 2 || offset + length + 2 > bytes.Length {
        return None;
      }
      if IsStartOfFrame(marker) && length >= 7 {
        return Some(Size(BigEndian16(bytes[..], offset + 7), BigEndian16(bytes[..], offset + 5)));
      }
      offset := offset + length + 2;
    }
    return None;
  }

  // ---------- what precedes a frame header ----------

  /** A fill byte, a TEM marker without a length, or a marker with a length and a payload. */
  datatype Part = Fill | Tem | Segment(marker: byte, payload: seq<byte>)

  function Print(part: Part): seq<byte>
    requires part.Segment? ==> |part.payload| + 2 < 0x1_0000
    ensures |Print(part)| >= 1
  {
    match part
    case Fill => [0xff]
    case Tem => [0xff, 0x01]
    case Segment(marker, payload) => [0xff, marker] + Uint16Bytes(|payload| + 2) + payload
  }

  /** Parts that the scan steps over. */
  predicate Skippable(part: Part) {
    part.Segment? ==>
      && |part.payload| + 2 < 0x1_0000
      && part.marker !in {0x01, 0xd9, 0xda, 0xff}
      && !(IsStartOfFrame(part.marker) && |part.payload| >= 5)
  }

  predicate IsFrame(part: Part) {
    part.Segment? && IsStartOfFrame(part.marker) && 5 <= |part.payload| && |part.payload| + 2 < 0x1_0000
  }

  function PrintAll(parts: seq<Part>): seq<byte>
    requires forall p :: p in parts ==> Skippable(p)
  {
    if parts == [] then []
    else
      assert parts[0] in parts && Skippable(parts[0]);
      Print(parts[0]) + PrintAll(parts[1..])
  }

  /** Sample precision, then the number of lines, then the number of samples per line. */
  function FrameSize(frame: Part): Size
    requires IsFrame(frame)
  {
    Size(BigEndian16(frame.payload, 3), BigEndian16(frame.payload, 1))
  }

  lemma SegmentPieces(t: seq<byte>, marker: byte, length: seq<byte>, payload: seq<byte>, rest: seq<byte>)
    requires |length| == 2 && t == [0xff, marker] + length + payload + rest
    ensures |t| == 4 + |payload| + |rest| && t[0] == 0xff && t[1] == marker
    ensures t[2..4] == length && t[4..4 + |payload|] == payload && t[4 + |payload|..] == rest
  {
  }

  lemma Shifted(s: seq<byte>, offset: nat, a: nat, b: nat)
    requires offset <= |s| && a <= b <= |s| - offset
    ensures s[offset..][a..b] == s[offset + a..offset + b]
  {
  }

  lemma SegmentFields(s: seq<byte>, offset: nat, part: Part, rest: seq<byte>)
    requires part.Segment? && |part.payload| + 2 < 0x1_0000 && offset <= |s|
    requires s[offset..] == Print(part) + rest
    ensures |s| == offset + 4 + |part.payload| + |rest|
    ensures s[offset] == 0xff && s[offset + 1] == part.marker
    ensures BigEndian16(s, offset + 2) == |part.payload| + 2
    ensures s[offset + 4..offset + 4 + |part.payload|] == part.payload
    ensures s[offset + 4 + |part.payload|..] == rest
  {
    var t, length := s[offset..], Uint16Bytes(|part.payload| + 2);
    hide Uint16Bytes;
    SegmentPieces(t, part.marker, length, part.payload, rest);
    Shifted(s, offset, 2, 4);
    Shifted(s, offset, 4, 4 + |part.payload|);
    Shifted(s, offset, 4 + |part.payload|, |t|);
    assert t[0] == s[offset] && t[1] == s[offset + 1];
    assert length[0] == s[offset + 2] && length[1] == s[offset + 3];
  }

  lemma ScanOfFrame(s: seq<byte>, offset: nat, frame: Part, rest: seq<byte>)
    requires IsFrame(frame) && offset <= |s| && s[offset..] == Print(frame) + rest
    ensures Scan(s, offset) == Some(FrameSize(frame))
  {
    SegmentFields(s, offset, frame, rest);
    forall i | 0 <= i < 5
      ensures s[offset + 4 + i] == frame.payload[i]
    {
      assert s[offset + 4..offset + 4 + |frame.payload|][i] == frame.payload[i];
    }
  }

  lemma ShortStep(s: seq<byte>, offset: nat, part: Part, after: seq<byte>)
    requires !part.Segment? && offset <= |s| && s[offset..] == Print(part) + after
    requires |after| >= 9 && after[0] == 0xff
    ensures var next := offset + |Print(part)|;
            next <= |s| && s[next..] == after && Scan(s, offset) == Scan(s, next)
  {
    var next := offset + |Print(part)|;
    assert s[next..] == s[offset..][|Print(part)|..];
    assert s[offset] == s[offset..][0] && s[offset + 1] == s[offset..][1];
  }

  lemma SegmentStep(s: seq<byte>, offset: nat, part: Part, after: seq<byte>)
    requires part.Segment? && Skippable(part) && offset <= |s| && s[offset..] == Print(part) + after
    requires |after| >= 9
    ensures var next := offset + |Print(part)|;
            next <= |s| && s[next..] == after && Scan(s, offset) == Scan(s, next)
  {
    hide BigEndian16;
    SegmentFields(s, offset, part, after);
  }

  /** One skippable part, followed by another marker, is stepped over. */
  lemma ScanStep(s: seq<byte>, offset: nat, part: Part, after: seq<byte>)
    requires Skippable(part) && offset <= |s| && s[offset..] == Print(part) + after
    requires |after| >= 9 && after[0] == 0xff
    ensures var next := offset + |Print(part)|;
            next <= |s| && s[next..] == after && Scan(s, offset) == Scan(s, next)
  {
    hide Scan, Print;
    if part.Segment? {
      SegmentStep(s, offset, part, after);
    } else {
      ShortStep(s, offset, part, after);
    }
  }

  lemma StartsWithMarker(parts: seq<Part>, frame: Part, rest: seq<byte>)
    requires (forall p :: p in parts ==> Skippable(p)) && IsFrame(frame)
    ensures var t := PrintAll(parts) + (Print(frame) + rest); |t| >= 9 + |rest| && t[0] == 0xff
  {
    if parts != [] {
      assert parts[0] in parts;
    }
  }

  /** Whatever may be stepped over is stepped over. */
  lemma {:induction false} ScanSkips(s: seq<byte>, offset: nat, parts: seq<Part>, frame: Part, rest: seq<byte>)
    requires (forall p :: p in parts ==> Skippable(p)) && IsFrame(frame) && offset <= |s|
    requires s[offset..] == PrintAll(parts) + (Print(frame) + rest)
    ensures Scan(s, offset) == Some(FrameSize(frame))
    decreases |parts|
  {
    hide Scan, Print;
    var tail := Print(frame) + rest;
    if parts == [] {
      assert s[offset..] == tail;
      ScanOfFrame(s, offset, frame, rest);
    } else {
      var after := PrintAll(parts[1..]) + tail;
      assert parts[0] in parts;
      assert s[offset..] == Print(parts[0]) + after;
      StartsWithMarker(parts[1..], frame, rest);
      ScanStep(s, offset, parts[0], after);
      ScanSkips(s, offset + |Print(parts[0])|, parts[1..], frame, rest);
    }
  }

  lemma SegmentAt(s: seq<byte>, offset: nat) returns (first: Part)
    requires Scan(s, offset).Some? && s[offset + 1] != 0x01 && s[offset + 1] != 0xff
    ensures first.Segment? && first.marker == s[offset + 1] && first.marker !in {0x01, 0xd9, 0xda, 0xff}
    ensures |first.payload| + 2 == BigEndian16(s, offset + 2)
    ensures offset + |Print(first)| <= |s| && s[offset..] == Print(first) + s[offset + |Print(first)|..]
  {
    var length := BigEndian16(s, offset + 2);
    first := Segment(s[offset + 1], s[offset + 4..offset + length + 2]);
    var field := Uint16Bytes(length);
    assert field[0] == s[offset + 2] && field[1] == s[offset + 3];
    assert s[offset..offset + 4] == [0xff, first.marker] + field;
    assert s[offset..] == s[offset..offset + 4] + first.payload + s[offset + 4 + |first.payload|..];
  }

  /** The part that the scan has just read. */
  lemma FirstPart(s: seq<byte>, offset: nat) returns (first: Part)
    requires Scan(s, offset).Some?
    ensures first.Segment? ==> |first.payload| + 2 < 0x1_0000
    ensures offset + |Print(first)| <= |s| && s[offset..] == Print(first) + s[offset + |Print(first)|..]
    ensures IsFrame(first) || (Skippable(first) && Scan(s, offset) == Scan(s, offset + |Print(first)|))
  {
    hide BigEndian16;
    if s[offset + 1] == 0xff {
      first := Fill;
    } else if s[offset + 1] == 0x01 {
      first := Tem;
    } else {
      first := SegmentAt(s, offset);
    }
  }

  /** Whatever the scan returns was printed by the grammar. */
  lemma {:induction false} ScanExplains(s: seq<byte>, offset: nat)
    returns (parts: seq<Part>, frame: Part, rest: seq<byte>)
    requires Scan(s, offset).Some?
    ensures (forall p :: p in parts ==> Skippable(p)) && IsFrame(frame) && offset <= |s|
    ensures s[offset..] == PrintAll(parts) + (Print(frame) + rest)
    ensures Scan(s, offset) == Some(FrameSize(frame))
    decreases |s| - offset
  {
    var first := FirstPart(s, offset);
    var next := offset + |Print(first)|;
    hide Scan;
    if IsFrame(first) {
      parts, frame, rest := [], first, s[next..];
      ScanOfFrame(s, offset, frame, rest);
    } else {
      var others;
      others, frame, rest := ScanExplains(s, next);
      parts := [first] + others;
      assert parts[1..] == others;
      var tail := Print(frame) + rest;
      assert Print(first) + (PrintAll(others) + tail) == (Print(first) + PrintAll(others)) + tail;
    }
  }

  /** The bytes after the first two are skippable parts followed by a frame header of this size. */
  ghost predicate HoldsFrame(s: seq<byte>, size: Size)
    requires |s| >= 2
  {
    exists parts, frame, rest ::
      (forall p :: p in parts ==> Skippable(p)) && IsFrame(frame) && FrameSize(frame) == size
      && s[2..] == PrintAll(parts) + (Print(frame) + rest)
  }

  /** The scan answers with a size exactly when the bytes are of this form, and then the size is the one in that
      header. */
  lemma ScanIsExact(s: seq<byte>, size: Size)
    requires |s| >= 2
    ensures Scan(s, 2) == Some(size) <==> HoldsFrame(s, size)
  {
    if Scan(s, 2) == Some(size) {
      var parts, frame, rest := ScanExplains(s, 2);
      assert s[2..] == PrintAll(parts) + (Print(frame) + rest);
    }
    if parts, frame, rest :|
      (forall p :: p in parts ==> Skippable(p)) && IsFrame(frame) && FrameSize(frame) == size
      && s[2..] == PrintAll(parts) + (Print(frame) + rest)
    {
      ScanSkips(s, 2, parts, frame, rest);
    }
  }

  /** The markers of table B.1 of ITU-T T.81 that carry a length and may precede the frame header:
      reserved, DHT, JPG, DAC, DQT to EXP, APPn, JPGn and COM. */
  predicate MayPrecedeFrame(marker: byte) {
    0x02 <= marker <= 0xbf || marker in {0xc4, 0xc8, 0xcc} || 0xdb <= marker <= 0xfe
  }

  lemma PrecedingIsSkippable(marker: byte)
    requires MayPrecedeFrame(marker)
    ensures !IsStartOfFrame(marker) && marker !in {0x01, 0xd9, 0xda, 0xff}
  {
  }

  /** A file laid out as section B.2 of ITU-T T.81 prescribes, with any fill bytes, yields its frame's size. */
  lemma StandardFileScans(parts: seq<Part>, frame: Part, rest: seq<byte>)
    requires forall p :: p in parts && p.Segment? ==> MayPrecedeFrame(p.marker) && |p.payload| + 2 < 0x1_0000
    requires IsFrame(frame)
    ensures forall p :: p in parts ==> Skippable(p)
    ensures Scan([0xff, 0xd8] + PrintAll(parts) + Print(frame) + rest, 2) == Some(FrameSize(frame))
  {
    hide Scan, Print, PrintAll, FrameSize;
    forall p | p in parts
      ensures Skippable(p)
    {
      if p.Segment? {
        PrecedingIsSkippable(p.marker);
      }
    }
    var s: seq<byte> := [0xff, 0xd8] + PrintAll(parts) + Print(frame) + rest;
    assert s[2..] == PrintAll(parts) + (Print(frame) + rest);
    ScanSkips(s, 2, parts, frame, rest);
  }
}
