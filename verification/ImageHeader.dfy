/** Reading width and height out of PNG, JPEG and WebP headers in src/main.rs. */
module ImageHeader {
  import opened Prelude

  const MAX_IMAGE_CLIP_SIZE: nat := 10 * 1024 * 1024
  const MAX_DIMENSION: nat := 8192
  const PREVIEW: nat := 1024

  datatype Kind = Png | Jpeg | WebP
  datatype Image = Image(kind: Kind, width: nat, height: nat)
  datatype Refusal = Empty | TooLarge | Markup | BadHeader | NoDimensions | TooBig | Unsupported

  // ------------------------------------------------------------------- markup check

  function Lower(b: byte): byte {
    if 65 <= b <= 90 then b + 32 else b
  }

  predicate WindowMatches(data: Bytes, i: nat, n: nat, pattern: Bytes)
    requires i + n <= |data|
  {
    EqIgnoreCase(data[i..i + n], pattern, Lower)
  }

  /** Some window of `n` bytes equals the pattern. */
  predicate AnyWindow(data: Bytes, n: nat, pattern: Bytes) {
    exists i :: 0 <= i <= |data| - n && WindowMatches(data, i, n, pattern)
  }

  const SVG: Bytes := [60, 115, 118, 103]                       // <svg
  const XML: Bytes := [60, 63, 120, 109, 108]                   // <?xml
  const HTML: Bytes := [60, 104, 116, 109, 108]                 // <html
  const SCRIPT: Bytes := [60, 115, 99, 114, 105, 112, 116]      // <script

  /** The window widths are the source's: 11 for a pattern of five bytes. */
  predicate LooksLikeMarkup(data: Bytes) {
    var preview := data[..Min(|data|, PREVIEW)];
    || AnyWindow(preview, 4, SVG) || AnyWindow(preview, 5, XML)
    || AnyWindow(preview, 11, HTML) || AnyWindow(preview, 7, SCRIPT)
  }

  /** So HTML alone is never what a payload is refused for. */
  lemma HtmlWindowNeverMatches(data: Bytes)
    ensures !AnyWindow(data, 11, HTML)
    ensures LooksLikeMarkup(data) <==>
            var preview := data[..Min(|data|, PREVIEW)];
            AnyWindow(preview, 4, SVG) || AnyWindow(preview, 5, XML) || AnyWindow(preview, 7, SCRIPT)
  {
    assert |HTML| == 5;
  }

  // ---------------------------------------------------------------------- numbers

  function Le16(b: Bytes, i: nat): nat
    requires i + 2 <= |b|
  {
    (b[i + 1] as int) * 0x100 + (b[i] as int)
  }

  function Be32(b: Bytes, i: nat): nat
    requires i + 4 <= |b|
  {
    Word(b, i) * 0x1_0000 + Word(b, i + 2)
  }

  function Le24(b: Bytes, i: nat): nat
    requires i + 3 <= |b|
  {
    (b[i + 2] as int) * 0x1_0000 + Le16(b, i)
  }

  function Le32(b: Bytes, i: nat): nat
    requires i + 4 <= |b|
  {
    (b[i + 3] as int) * 0x100_0000 + Le24(b, i)
  }

  // ------------------------------------------------------------------------- JPEG

  predicate Standalone(marker: byte) {
    marker == 0xFF || marker == 0x00 || marker == 0xD8 || marker == 0xD9 || 0xD0 <= marker <= 0xD7
  }

  predicate IsFrame(marker: byte) {
    0xC0 <= marker <= 0xC3 || 0xC5 <= marker <= 0xC7 || 0xC9 <= marker <= 0xCB || 0xCD <= marker <= 0xCF
  }

  datatype Size = Size(width: nat, height: nat)

  const NOTHING := Size(0, 0)

  /** The frame size found from the front of `b` on; 0 by 0 if the scan gives up. */
  function JpegScan(b: Bytes): Size
    decreases |b|
  {
    if |b| <= 3 then NOTHING
    else if b[0] != 0xFF then JpegScan(b[1..])
    else
      var c := b[2..];
      if Standalone(b[1]) then JpegScan(c)
      else if b[1] == 0xDA then NOTHING
      else
        var len := Word(c, 0);
        if len < 2 || len > |c| then NOTHING
        else if IsFrame(b[1]) && len >= 7 then Size(Word(c, 5), Word(c, 3))
        else JpegScan(c[len..])
  }

  method ScanJpeg(data: Bytes) returns (size: Size)
    requires |data| >= 2
    ensures size == JpegScan(data[2..])
  {
    hide JpegScan, Word;
    var offset := 2;
    var len := |data|;
    while offset + 3 < len
      invariant 2 <= offset <= len
      invariant JpegScan(data[offset..]) == JpegScan(data[2..])
      decreases len - offset
    {
      if data[offset] != 0xFF {
        SkipsByte(data, offset);
        offset := offset + 1;
        continue;
      }
      var marker := data[offset + 1];
      if marker == 0xFF || marker == 0x00 {
        SkipsMarker(data, offset);
        offset := offset + 2;
        continue;
      }
      if marker == 0xD8 || marker == 0xD9 || 0xD0 <= marker <= 0xD7 {
        SkipsMarker(data, offset);
        offset := offset + 2;
        continue;
      }
      if marker == 0xDA || marker == 0xD9 {
        GivesUp(data, offset);
        return NOTHING;
      }
      offset := offset + 2;
      if offset + 2 > len {
        return NOTHING;
      }
      var segLen := Word(data, offset);
      if segLen < 2 || offset + segLen > len {
        GivesUp(data, offset - 2);
        return NOTHING;
      }
      if IsFrame(marker) && segLen >= 7 && offset + 7 <= len {
        FindsFrame(data, offset - 2);
        return Size(Word(data, offset + 5), Word(data, offset + 3));
      }
      SkipsSegment(data, offset - 2);
      offset := offset + segLen;
    }
    RunsOut(data, offset);
    size := NOTHING;
  }

  lemma RunsOut(data: Bytes, o: nat)
    requires o <= |data| <= o + 3
    ensures JpegScan(data[o..]) == NOTHING
  {
  }

  lemma SkipsByte(data: Bytes, o: nat)
    requires o + 3 < |data| && data[o] != 0xFF
    ensures JpegScan(data[o..]) == JpegScan(data[o + 1..])
  {
    assert data[o..][1..] == data[o + 1..];
  }

  lemma SkipsMarker(data: Bytes, o: nat)
    requires o + 3 < |data| && data[o] == 0xFF && Standalone(data[o + 1])
    ensures JpegScan(data[o..]) == JpegScan(data[o + 2..])
  {
    assert data[o..][2..] == data[o + 2..];
  }

  /** A marker that is followed by a length. */
  predicate AtSegment(data: Bytes, o: nat) {
    o + 3 < |data| && data[o] == 0xFF && !Standalone(data[o + 1])
  }

  lemma SegmentLength(data: Bytes, o: nat)
    requires AtSegment(data, o)
    ensures data[o..][2..] == data[o + 2..] && Word(data[o + 2..], 0) == Word(data, o + 2)
  {
  }

  lemma GivesUp(data: Bytes, o: nat)
    requires AtSegment(data, o)
    requires data[o + 1] == 0xDA || Word(data, o + 2) < 2 || o + 2 + Word(data, o + 2) > |data|
    ensures JpegScan(data[o..]) == NOTHING
  {
    SegmentLength(data, o);
  }

  lemma FindsFrame(data: Bytes, o: nat)
    requires AtSegment(data, o) && IsFrame(data[o + 1])
    requires 7 <= Word(data, o + 2) && o + 2 + Word(data, o + 2) <= |data|
    ensures JpegScan(data[o..]) == Size(Word(data, o + 7), Word(data, o + 5))
  {
    SegmentLength(data, o);
    assert Word(data[o + 2..], 5) == Word(data, o + 7) && Word(data[o + 2..], 3) == Word(data, o + 5);
  }

  lemma SkipsSegment(data: Bytes, o: nat)
    requires AtSegment(data, o) && data[o + 1] != 0xDA
    requires 2 <= Word(data, o + 2) && o + 2 + Word(data, o + 2) <= |data|
    requires !(IsFrame(data[o + 1]) && Word(data, o + 2) >= 7)
    ensures JpegScan(data[o..]) == JpegScan(data[o + 2 + Word(data, o + 2)..])
  {
    var len := Word(data, o + 2);
    SegmentLength(data, o);
    assert data[o + 2..][len..] == data[o + 2 + len..];
  }

  // --------------------------------------------------------------- the whole check

  function Checked(kind: Kind, size: Size, none: Refusal): Result<Image, Refusal> {
    if size.width == 0 || size.height == 0 then Err(none)
    else if size.width > MAX_DIMENSION || size.height > MAX_DIMENSION then Err(TooBig)
    else Ok(Image(kind, size.width, size.height))
  }

  predicate StartsWith(data: Bytes, magic: Bytes) {
    |data| >= |magic| && data[..|magic|] == magic
  }

  const PNG_MAGIC: Bytes := [0x89, 0x50, 0x4E, 0x47, 0x0D, 0x0A, 0x1A, 0x0A]
  const IHDR: Bytes := [0x49, 0x48, 0x44, 0x52]
  const JPEG_MAGIC: Bytes := [0xFF, 0xD8, 0xFF]
  const RIFF: Bytes := [0x52, 0x49, 0x46, 0x46]
  const WEBP: Bytes := [0x57, 0x45, 0x42, 0x50]
  const VP8_LOSSY: Bytes := [0x56, 0x50, 0x38, 0x20]
  const VP8_LOSSLESS: Bytes := [0x56, 0x50, 0x38, 0x4C]
  const VP8_EXTENDED: Bytes := [0x56, 0x50, 0x38, 0x58]

  function WebPSize(data: Bytes): Size
    requires |data| >= 16
  {
    var chunk := data[12..16];
    if chunk == VP8_LOSSY then
      if |data| >= 30 && data[23] == 0x9D && data[24] == 0x01 && data[25] == 0x2A
      then Size(Le16(data, 26) % 0x4000, Le16(data, 28) % 0x4000) else NOTHING
    else if chunk == VP8_LOSSLESS then
      if |data| >= 25 && data[20] == 0x2F
      then Size(Le32(data, 21) % 0x4000 + 1, Le32(data, 21) / 0x4000 % 0x4000 + 1) else NOTHING
    else if chunk == VP8_EXTENDED && |data| >= 30 then Size(Le24(data, 24) + 1, Le24(data, 27) + 1)
    else NOTHING
  }

  /** The verdict, with the JPEG scan as specified above. */
  function Verdict(data: Bytes): Result<Image, Refusal> {
    if data == [] then Err(Empty)
    else if |data| > MAX_IMAGE_CLIP_SIZE then Err(TooLarge)
    else if LooksLikeMarkup(data) then Err(Markup)
    else if StartsWith(data, PNG_MAGIC) then
      if |data| < 24 || data[12..16] != IHDR then Err(BadHeader)
      else Checked(Png, Size(Be32(data, 16), Be32(data, 20)), NoDimensions)
    else if StartsWith(data, JPEG_MAGIC) then Checked(Jpeg, JpegScan(data[2..]), NoDimensions)
    else if |data| >= 16 && data[0..4] == RIFF && data[8..12] == WEBP then Checked(WebP, WebPSize(data), NoDimensions)
    else Err(Unsupported)
  }

  method ValidateImageHeader(data: Bytes) returns (r: Result<Image, Refusal>)
    ensures r == Verdict(data)
    ensures r.Ok? ==> 1 <= r.value.width <= MAX_DIMENSION && 1 <= r.value.height <= MAX_DIMENSION
  {
    if data == [] {
      return Err(Empty);
    }
    if |data| > MAX_IMAGE_CLIP_SIZE {
      return Err(TooLarge);
    }
    if LooksLikeMarkup(data) {
      return Err(Markup);
    }
    if StartsWith(data, PNG_MAGIC) {
      if |data| < 24 {
        return Err(BadHeader);
      }
      if data[12..16] != IHDR {
        return Err(BadHeader);
      }
      return Checked(Png, Size(Be32(data, 16), Be32(data, 20)), NoDimensions);
    }
    if StartsWith(data, JPEG_MAGIC) {
      var size := ScanJpeg(data);
      return Checked(Jpeg, size, NoDimensions);
    }
    if |data| >= 16 && data[0..4] == RIFF && data[8..12] == WEBP {
      return Checked(WebP, WebPSize(data), NoDimensions);
    }
    return Err(Unsupported);
  }

  // -------------------------------------------------- what the scan finds in a JPEG

  /** A marker segment: pairs of fill bytes, the marker, its length and its payload. */
  datatype Segment = Segment(fillPairs: nat, marker: byte, payload: Bytes) {
    predicate Plain() {
      !Standalone(marker) && marker != 0xDA && !IsFrame(marker) && |payload| + 2 < 0x1_0000
    }

    /** A frame header: precision, height, width and the components. */
    predicate Frame() {
      IsFrame(marker) && 5 <= |payload| < 0xFFFE
    }
  }

  function Fill(n: nat): Bytes {
    if n == 0 then [] else [0xFF] + Fill(n - 1)
  }

  function Layout(s: Segment): Bytes
    requires s.Plain() || s.Frame()
  {
    Fill(2 * s.fillPairs) + [0xFF, s.marker] + WordBytes(|s.payload| + 2) + s.payload
  }

  function LayoutAll(segments: seq<Segment>): Bytes
    requires forall i :: 0 <= i < |segments| ==> segments[i].Plain()
  {
    if segments == [] then [] else Layout(segments[0]) + LayoutAll(segments[1..])
  }

  lemma {:induction false} FillPairsAreSkipped(n: nat, b: Bytes)
    requires |b| >= 2
    ensures JpegScan(Fill(2 * n) + b) == JpegScan(b)
  {
    if n == 0 {
      assert Fill(0) + b == b;
    } else {
      var all := Fill(2 * n) + b;
      assert Fill(2 * n) == [0xFF] + ([0xFF] + Fill(2 * (n - 1)));
      assert all[2..] == Fill(2 * (n - 1)) + b;
      FillPairsAreSkipped(n - 1, b);
    }
  }

  lemma SegmentFront(s: Segment, tail: Bytes)
    requires s.Plain() || s.Frame()
    ensures var c := WordBytes(|s.payload| + 2) + s.payload + tail;
            Word(c, 0) == |s.payload| + 2 && c[|s.payload| + 2..] == tail
            && JpegScan(Layout(s) + tail)
               == if s.Frame() then Size(Word(s.payload, 3), Word(s.payload, 1)) else JpegScan(tail)
  {
    var c := WordBytes(|s.payload| + 2) + s.payload + tail;
    var b := [0xFF, s.marker] + c;
    assert Layout(s) + tail == Fill(2 * s.fillPairs) + b;
    FillPairsAreSkipped(s.fillPairs, b);
    hide JpegScan, Layout, Fill;
    MarkerFront(s, tail);
  }

  /** The same without the fill bytes. */
  lemma MarkerFront(s: Segment, tail: Bytes)
    requires s.Plain() || s.Frame()
    ensures var c := WordBytes(|s.payload| + 2) + s.payload + tail;
            Word(c, 0) == |s.payload| + 2 && c[|s.payload| + 2..] == tail
            && JpegScan([0xFF, s.marker] + c)
               == if s.Frame() then Size(Word(s.payload, 3), Word(s.payload, 1)) else JpegScan(tail)
  {
    var len := WordBytes(|s.payload| + 2);
    var c := len + s.payload + tail;
    var b := [0xFF, s.marker] + c;
    assert b[2..] == c && c[0] == len[0] && c[1] == len[1];
    assert c[|s.payload| + 2..] == tail;
    if |s.payload| >= 5 {
      assert c[3..7] == s.payload[1..5];
      assert Word(c, 5) == Word(s.payload, 3) && Word(c, 3) == Word(s.payload, 1);
    }
  }

  lemma {:induction false} PlainSegmentsAreSkipped(segments: seq<Segment>, tail: Bytes)
    requires forall i :: 0 <= i < |segments| ==> segments[i].Plain()
    ensures JpegScan(LayoutAll(segments) + tail) == JpegScan(tail)
  {
    if segments == [] {
      assert LayoutAll(segments) + tail == tail;
    } else {
      var s, more := segments[0], LayoutAll(segments[1..]) + tail;
      assert LayoutAll(segments) + tail == Layout(s) + more;
      SegmentFront(s, more);
      PlainSegmentsAreSkipped(segments[1..], tail);
    }
  }

  function Picture(segments: seq<Segment>, frame: Segment, tail: Bytes): Bytes
    requires (forall i :: 0 <= i < |segments| ==> segments[i].Plain()) && frame.Frame()
  {
    [0xFF, 0xD8] + LayoutAll(segments) + Layout(frame) + tail
  }

  /** Any JPEG of plain marker segments followed by a frame header, whatever comes after, is
      reported with that frame's width and height, if they are within the limits. */
  lemma FrameSizeIsReported(segments: seq<Segment>, frame: Segment, tail: Bytes)
    requires (forall i :: 0 <= i < |segments| ==> segments[i].Plain()) && frame.Frame()
    requires |Picture(segments, frame, tail)| <= MAX_IMAGE_CLIP_SIZE
    requires !LooksLikeMarkup(Picture(segments, frame, tail))
    ensures Verdict(Picture(segments, frame, tail))
            == Checked(Jpeg, Size(Word(frame.payload, 3), Word(frame.payload, 1)), NoDimensions)
  {
    hide LooksLikeMarkup, LayoutAll, Layout, JpegScan;
    var data := Picture(segments, frame, tail);
    var rest := Layout(frame) + tail;
    assert data[2..] == LayoutAll(segments) + rest;
    PlainSegmentsAreSkipped(segments, rest);
    SegmentFront(frame, tail);
    StartsWithMarker(segments, frame, tail);
    assert data[..2] == [0xFF, 0xD8] && data[2] == data[2..][0];
    assert data[..3] == JPEG_MAGIC;
    assert data[0] == 0xFF;
  }

  lemma StartsWithMarker(segments: seq<Segment>, frame: Segment, tail: Bytes)
    requires (forall i :: 0 <= i < |segments| ==> segments[i].Plain()) && frame.Frame()
    ensures var b := LayoutAll(segments) + (Layout(frame) + tail); |b| >= 1 && b[0] == 0xFF
  {
    var first := if segments == [] then frame else segments[0];
    assert Layout(first)[0] == 0xFF by {
      assert first.fillPairs > 0 ==> Fill(2 * first.fillPairs)[0] == 0xFF;
    }
  }

  /** A frame header behind `n` fill bytes. */
  function FilledFrame(n: nat, marker: byte, payload: Bytes, tail: Bytes): Bytes
    requires |payload| < 0xFFFE
  {
    Fill(n) + ([0xFF, marker] + WordBytes(|payload| + 2) + payload + tail)
  }

  /** Fill bytes are only skipped in pairs: where no other byte looks like the start of a
      marker, the frame is found exactly if their number is even. */
  lemma FillBytesAreSkippedExactlyInPairs(segments: seq<Segment>, n: nat, marker: byte, payload: Bytes, tail: Bytes)
    requires forall i :: 0 <= i < |segments| ==> segments[i].Plain()
    requires IsFrame(marker) && 5 <= |payload| < 0xFFFE
    requires 0xFF !in WordBytes(|payload| + 2) + payload + tail
    requires Size(Word(payload, 3), Word(payload, 1)) != NOTHING
    ensures JpegScan(LayoutAll(segments) + FilledFrame(n, marker, payload, tail))
            == Size(Word(payload, 3), Word(payload, 1))
            <==> n % 2 == 0
  {
    hide LayoutAll, JpegScan, FilledFrame, Word;
    PlainSegmentsAreSkipped(segments, FilledFrame(n, marker, payload, tail));
    if n % 2 == 0 {
      EvenFillIsSkipped(n, marker, payload, tail);
    } else {
      OddFillHidesTheFrame(n, marker, payload, tail);
    }
  }

  lemma EvenFillIsSkipped(n: nat, marker: byte, payload: Bytes, tail: Bytes)
    requires n % 2 == 0 && IsFrame(marker) && 5 <= |payload| < 0xFFFE
    ensures JpegScan(FilledFrame(n, marker, payload, tail)) == Size(Word(payload, 3), Word(payload, 1))
  {
    hide JpegScan, Fill, Word;
    var s := Segment(n / 2, marker, payload);
    SegmentFront(s, tail);
    assert 2 * s.fillPairs == n;
    var header := [0xFF, marker] + WordBytes(|payload| + 2) + payload;
    assert Layout(s) == Fill(n) + header;
    assert Fill(n) + header + tail == Fill(n) + (header + tail);
  }

  lemma OddFillHidesTheFrame(n: nat, marker: byte, payload: Bytes, tail: Bytes)
    requires n % 2 == 1 && IsFrame(marker) && |payload| < 0xFFFE
    requires 0xFF !in WordBytes(|payload| + 2) + payload + tail
    ensures JpegScan(FilledFrame(n, marker, payload, tail)) == NOTHING
  {
    var c := WordBytes(|payload| + 2) + payload + tail;
    var b := [0xFF] + ([0xFF, marker] + c);
    FillOneMore(n - 1);
    assert FilledFrame(n, marker, payload, tail) == Fill(2 * (n / 2)) + b;
    hide Fill, FilledFrame, JpegScan;
    FillPairsAreSkipped(n / 2, b);
    FalseStart(marker, c);
  }

  /** A pair of fill bytes that takes the marker's own prefix with it. */
  lemma FalseStart(marker: byte, c: Bytes)
    requires marker != 0xFF && 0xFF !in c && |c| >= 2
    ensures JpegScan([0xFF] + ([0xFF, marker] + c)) == NOTHING
  {
    var b, rest := [0xFF] + ([0xFF, marker] + c), [marker] + c;
    assert b[2..] == rest;
    forall i | 0 <= i < |rest| ensures rest[i] != 0xFF {
      assert i > 0 ==> rest[i] == c[i - 1];
    }
    NoMarkerNoFrame(rest);
    assert |b| > 3 && b[0] == 0xFF && b[1] == 0xFF;
  }

  lemma {:induction false} FillOneMore(n: nat)
    ensures Fill(n + 1) == Fill(n) + [0xFF]
  {
    if n > 0 {
      FillOneMore(n - 1);
    }
  }

  lemma {:induction false} NoMarkerNoFrame(b: Bytes)
    requires forall i :: 0 <= i < |b| ==> b[i] != 0xFF
    ensures JpegScan(b) == NOTHING
    decreases |b|
  {
    if |b| > 3 {
      NoMarkerNoFrame(b[1..]);
    }
  }

  // ------------------------------------------------------- sizes in PNG and WebP

  function LeWord(w: nat): (r: Bytes)
    requires w < 0x1_0000
    ensures |r| == 2 && Le16(r, 0) == w
  {
    [w % 0x100, w / 0x100]
  }

  function Picture4(magic: Bytes, a: Bytes, kind: Bytes, tail: Bytes): Bytes {
    magic + a + kind + tail
  }

  predicate Acceptable(data: Bytes) {
    |data| <= MAX_IMAGE_CLIP_SIZE && !LooksLikeMarkup(data)
  }

  /** A PNG is reported with the width and height of its IHDR chunk. */
  lemma PngSizeIsReported(length: Bytes, width: nat, height: nat, tail: Bytes)
    requires |length| == 4 && width < 0x1_0000_0000 && height < 0x1_0000_0000
    requires Acceptable(Picture4(PNG_MAGIC, length, IHDR, DoubleWord(width) + DoubleWord(height) + tail))
    ensures Verdict(Picture4(PNG_MAGIC, length, IHDR, DoubleWord(width) + DoubleWord(height) + tail))
            == Checked(Png, Size(width, height), NoDimensions)
  {
    hide LooksLikeMarkup, DoubleWord;
    var size := DoubleWord(width) + DoubleWord(height) + tail;
    var data := Picture4(PNG_MAGIC, length, IHDR, size);
    assert data[..8] == PNG_MAGIC && data[12..16] == IHDR;
    assert data[16..20] == DoubleWord(width) && data[20..24] == DoubleWord(height);
    DoubleWordAt(data, 16, width);
    DoubleWordAt(data, 20, height);
  }

  function DoubleWord(w: nat): (r: Bytes)
    requires w < 0x1_0000_0000
    ensures |r| == 4
  {
    WordBytes(w / 0x1_0000) + WordBytes(w % 0x1_0000)
  }

  lemma DoubleWordAt(data: Bytes, i: nat, w: nat)
    requires i + 4 <= |data| && w < 0x1_0000_0000 && data[i..i + 4] == DoubleWord(w)
    ensures Be32(data, i) == w
  {
    var hi, lo := WordBytes(w / 0x1_0000), WordBytes(w % 0x1_0000);
    var d := DoubleWord(w);
    assert data[i] == data[i..i + 4][0] == hi[0] && data[i + 1] == data[i..i + 4][1] == hi[1];
    assert data[i + 2] == data[i..i + 4][2] == lo[0] && data[i + 3] == data[i..i + 4][3] == lo[1];
    hide WordBytes;
  }

  /** A WebP file whose first chunk is of the given kind. */
  function WebPFile(sizes: Bytes, kind: Bytes, chunk: Bytes): Bytes {
    Picture4(RIFF, sizes, WEBP + kind, chunk)
  }

  lemma WebPFront(sizes: Bytes, kind: Bytes, chunk: Bytes)
    requires |sizes| == 4 && |kind| == 4
    ensures var data := WebPFile(sizes, kind, chunk);
            && |data| == 16 + |chunk| && data[0] == RIFF[0] && data[0..4] == RIFF && data[8..12] == WEBP
            && data[12..16] == kind && forall i :: 16 <= i < |data| ==> data[i] == chunk[i - 16]
  {
  }

  lemma WebPVerdict(sizes: Bytes, kind: Bytes, chunk: Bytes)
    requires |sizes| == 4 && |kind| == 4 && Acceptable(WebPFile(sizes, kind, chunk))
    ensures |WebPFile(sizes, kind, chunk)| >= 16
    ensures Verdict(WebPFile(sizes, kind, chunk)) == Checked(WebP, WebPSize(WebPFile(sizes, kind, chunk)), NoDimensions)
  {
    hide LooksLikeMarkup, WebPSize, JpegScan;
    var data := WebPFile(sizes, kind, chunk);
    WebPFront(sizes, kind, chunk);
    OtherMagic(data, PNG_MAGIC);
    OtherMagic(data, JPEG_MAGIC);
  }

  lemma OtherMagic(data: Bytes, magic: Bytes)
    requires data != [] && magic != [] && data[0] != magic[0]
    ensures !StartsWith(data, magic)
  {
    if |data| >= |magic| {
      assert data[..|magic|][0] == data[0];
    }
  }

  /** A lossy WebP is reported with the low fourteen bits of its two size fields, ... */
  lemma LossyWebPSizeIsReported(sizes: Bytes, before: Bytes, width: nat, xScale: nat, height: nat, yScale: nat,
                                  tail: Bytes)
    requires |sizes| == 4 && |before| == 7
    requires width < 0x4000 && height < 0x4000 && xScale < 4 && yScale < 4
    requires Acceptable(WebPFile(sizes, VP8_LOSSY, LossyChunk(before, width, xScale, height, yScale, tail)))
    ensures Verdict(WebPFile(sizes, VP8_LOSSY, LossyChunk(before, width, xScale, height, yScale, tail)))
            == Checked(WebP, Size(width, height), NoDimensions)
  {
    var chunk := LossyChunk(before, width, xScale, height, yScale, tail);
    var w, h := LeWord(width + xScale * 0x4000), LeWord(height + yScale * 0x4000);
    var data := WebPFile(sizes, VP8_LOSSY, chunk);
    WebPVerdict(sizes, VP8_LOSSY, chunk);
    WebPFront(sizes, VP8_LOSSY, chunk);
    hide Verdict, WebPFile, Acceptable;
    assert chunk[10] == w[0] && chunk[11] == w[1] && chunk[12] == h[0] && chunk[13] == h[1];
    assert chunk[7] == 0x9D && chunk[8] == 0x01 && chunk[9] == 0x2A;
    hide LossyChunk, LeWord;
    SameLeWord(data, 26, w);
    SameLeWord(data, 28, h);
    LowFourteenBits(width, xScale);
    LowFourteenBits(height, yScale);
    hide Le16;
  }

  lemma SameLeWord(data: Bytes, i: nat, w: Bytes)
    requires i + 2 <= |data| && |w| == 2 && data[i] == w[0] && data[i + 1] == w[1]
    ensures Le16(data, i) == Le16(w, 0)
  {
  }

  lemma LowFourteenBits(low: nat, high: nat)
    requires low < 0x4000
    ensures (low + high * 0x4000) % 0x4000 == low
  {
  }

  function LossyChunk(before: Bytes, width: nat, xScale: nat, height: nat, yScale: nat, tail: Bytes): Bytes
    requires |before| == 7 && width < 0x4000 && height < 0x4000 && xScale < 4 && yScale < 4
  {
    before + [0x9D, 0x01, 0x2A] + LeWord(width + xScale * 0x4000) + LeWord(height + yScale * 0x4000) + tail
  }

  /** ... a lossless one with the two packed fields, each one less than the size, ... */
  lemma LosslessWebPSizeIsReported(sizes: Bytes, chunkSize: Bytes, width: nat, height: nat, flags: nat, tail: Bytes)
    requires |sizes| == |chunkSize| == 4 && 1 <= width <= 0x4000 && 1 <= height <= 0x4000 && flags < 16
    requires Acceptable(WebPFile(sizes, VP8_LOSSLESS, LosslessChunk(chunkSize, width, height, flags, tail)))
    ensures Verdict(WebPFile(sizes, VP8_LOSSLESS, LosslessChunk(chunkSize, width, height, flags, tail)))
            == Checked(WebP, Size(width, height), NoDimensions)
  {
    var chunk := LosslessChunk(chunkSize, width, height, flags, tail);
    var packed := Packed(width, height, flags);
    var lo, hi := LeWord(packed % 0x1_0000), LeWord(packed / 0x1_0000);
    var data := WebPFile(sizes, VP8_LOSSLESS, chunk);
    WebPVerdict(sizes, VP8_LOSSLESS, chunk);
    WebPFront(sizes, VP8_LOSSLESS, chunk);
    hide Verdict, WebPFile, Acceptable, Packed;
    assert chunk[4] == 0x2F && chunk[5] == lo[0] && chunk[6] == lo[1] && chunk[7] == hi[0] && chunk[8] == hi[1];
    hide LossyChunk, LosslessChunk, LeWord;
    LittleEndian(data, 21, lo, hi);
    PackedFields(width, height, flags);
  }

  lemma LittleEndian(data: Bytes, i: nat, lo: Bytes, hi: Bytes)
    requires i + 4 <= |data| && |lo| == |hi| == 2
    requires data[i] == lo[0] && data[i + 1] == lo[1] && data[i + 2] == hi[0] && data[i + 3] == hi[1]
    ensures Le32(data, i) == Le16(hi, 0) * 0x1_0000 + Le16(lo, 0)
  {
  }

  lemma PackedFields(width: nat, height: nat, flags: nat)
    requires 1 <= width <= 0x4000 && 1 <= height <= 0x4000 && flags < 16
    ensures var p := Packed(width, height, flags); p % 0x4000 == width - 1 && p / 0x4000 % 0x4000 == height - 1
  {
    assert Packed(width, height, flags) / 0x4000 == (height - 1) + flags * 0x4000;
  }

  function Packed(width: nat, height: nat, flags: nat): (p: nat)
    requires 1 <= width <= 0x4000 && 1 <= height <= 0x4000 && flags < 16
    ensures p < 0x1_0000_0000
  {
    (width - 1) + (height - 1) * 0x4000 + flags * 0x1000_0000
  }

  function LosslessChunk(chunkSize: Bytes, width: nat, height: nat, flags: nat, tail: Bytes): Bytes
    requires 1 <= width <= 0x4000 && 1 <= height <= 0x4000 && flags < 16
  {
    var packed := Packed(width, height, flags);
    chunkSize + [0x2F] + LeWord(packed % 0x1_0000) + LeWord(packed / 0x1_0000) + tail
  }

  /** ... and an extended one with its canvas size, likewise stored less one. */
  lemma ExtendedWebPSizeIsReported(sizes: Bytes, before: Bytes, width: nat, height: nat, tail: Bytes)
    requires |sizes| == 4 && |before| == 8 && 1 <= width <= 0x100_0000 && 1 <= height <= 0x100_0000
    requires Acceptable(WebPFile(sizes, VP8_EXTENDED, before + Less1(width) + Less1(height) + tail))
    ensures Verdict(WebPFile(sizes, VP8_EXTENDED, before + Less1(width) + Less1(height) + tail))
            == Checked(WebP, Size(width, height), NoDimensions)
  {
    var w, h := Less1(width), Less1(height);
    var chunk := before + w + h + tail;
    var data := WebPFile(sizes, VP8_EXTENDED, chunk);
    WebPVerdict(sizes, VP8_EXTENDED, chunk);
    WebPFront(sizes, VP8_EXTENDED, chunk);
    hide Verdict, WebPFile, Acceptable, Less1;
    assert chunk[8] == w[0] && chunk[9] == w[1] && chunk[10] == w[2];
    assert chunk[11] == h[0] && chunk[12] == h[1] && chunk[13] == h[2];
    assert Le24(data, 24) == Le24(w, 0) && Le24(data, 27) == Le24(h, 0);
  }

  function Less1(size: nat): (r: Bytes)
    requires 1 <= size <= 0x100_0000
    ensures |r| == 3 && Le24(r, 0) == size - 1
  {
    LeWord((size - 1) % 0x1_0000) + [(size - 1) / 0x1_0000]
  }

  // ---------------------------------------------------------- markup that passes

  /** A PNG of one pixel by one, with `<html` right after the size. */
  const HTML_PICTURE: Bytes := PNG_MAGIC + [0, 0, 0, 13] + IHDR + [0, 0, 0, 1, 0, 0, 0, 1] + HTML

  lemma NoOtherMarkup(data: Bytes, pattern: Bytes)
    requires |data| > 25 && (forall i :: 0 <= i < |data| && i != 24 ==> data[i] != 60) && data[25] == 104
    requires |pattern| >= 2 && pattern[0] == 60 && Lower(pattern[1]) != 104
    ensures !AnyWindow(data, |pattern|, pattern)
  {
    forall i | 0 <= i <= |data| - |pattern| ensures !WindowMatches(data, i, |pattern|, pattern) {
      var w := data[i..i + |pattern|];
      assert w[0] == data[i] && w[1] == data[i + 1];
      assert Lower(pattern[0]) == 60;
    }
  }

  /** It carries the pattern and is accepted. */
  lemma HtmlPictureIsAccepted()
    ensures AnyWindow(HTML_PICTURE[..29], 5, HTML)
    ensures Verdict(HTML_PICTURE) == Ok(Image(Png, 1, 1))
  {
    var data := HTML_PICTURE;
    assert |data| == 29 && data[..Min(|data|, PREVIEW)] == data && data[..29] == data;
    assert data[24..29] == HTML;
    assert WindowMatches(data, 24, 5, HTML);
    assert data[25] == 104 && forall i :: 0 <= i < 29 && i != 24 ==> data[i] != 60;
    HtmlWindowNeverMatches(data);
    NoOtherMarkup(data, SVG);
    NoOtherMarkup(data, XML);
    NoOtherMarkup(data, SCRIPT);
    hide AnyWindow, WindowMatches;
    assert data[..8] == PNG_MAGIC && data[12..16] == IHDR;
    assert Be32(data, 16) == 1 && Be32(data, 20) == 1;
  }
}
