/** `get_image_dimensions`: pixel width and height read from a PNG or JPEG
    header. The PNG signature is that of section 5.2 of the PNG
    specification (ISO/IEC 15948) and the width and height are the first two
    fields of IHDR (section 11.2.2); the JPEG markers are those of ITU-T T.81,
    Annex B, Table B.1, and the frame header layout is that of B.2.2. */
module ImageDimensions {
  import opened Wrappers
  import opened Bytes
  import opened Constants

  datatype DimError = SliceTooShort | InvalidPngIhdr | InvalidJpgMarker | NoSofMarker | UnknownFormat

  /** The first four bytes are 0x89 'P' 'N' 'G'. */
  predicate IsPngHeader(b: seq<byte>)
    requires |b| >= 4
  {
    b[0] == 137 && b[1] == 80 && b[2] == 78 && b[3] == 71
  }

  /** Bytes 12..16 spell `IHDR`. */
  predicate HasIhdr(b: seq<byte>)
    requires |b| >= 16
  {
    b[12] == 73 && b[13] == 72 && b[14] == 68 && b[15] == 82
  }

  predicate IsJpegHeader(b: seq<byte>)
    requires |b| >= 2
  {
    b[0] == 0xFF && b[1] == 0xD8
  }

  /** A start-of-frame marker: C0..CF except DHT (C4), JPG (C8) and DAC (CC). */
  predicate IsSofMarker(m: byte) {
    JpegSofMarkerStart <= m as int <= JpegSofMarkerEnd
    && m as int != JpegMarkerDht && m as int != JpegMarkerJpg && m as int != JpegMarkerDac
  }

  /** A segment header the scan may read: nine bytes past `o` are in range. */
  predicate InScan(b: seq<byte>, o: int) {
    0 <= o && o + JpegMinSegmentSize < |b|
  }

  /** The JPEG segment walk from `offset`: stop at the first segment whose
      first byte is not 0xFF or whose marker is a frame header, else skip
      `length + 2` bytes. */
  function ScanJpeg(b: seq<byte>, offset: nat): (r: Result<(nat, nat), DimError>)
    ensures r.Err? ==> r.error == InvalidJpgMarker || r.error == NoSofMarker
    ensures r.Ok? ==> r.value.0 < 0x1_0000 && r.value.1 < 0x1_0000
    decreases |b| - offset
  {
    if offset + JpegMinSegmentSize >= |b| then Err(NoSofMarker)
    else if b[offset] != 0xFF then Err(InvalidJpgMarker)
    else if IsSofMarker(b[offset + 1]) then Ok((BE16(b, offset + 7), BE16(b, offset + 5)))
    else ScanJpeg(b, offset + BE16(b, offset + 2) + 2)
  }

  /** `o` is a segment start the walk from `offset` reaches: every segment
      start before it is in range, starts with 0xFF, is no frame header, and
      is followed by the next one `length + 2` bytes further on. */
  predicate OnWalk(b: seq<byte>, offset: nat, o: nat)
    decreases |b| - offset
  {
    offset == o
    || (InScan(b, offset) && b[offset] == 0xFF && !IsSofMarker(b[offset + 1])
        && OnWalk(b, offset + BE16(b, offset + 2) + 2, o))
  }

  /** What a walk result means: a size comes from a frame header at a segment
      start the walk reaches, read as height at +5 and width at +7; an
      invalid-marker error points at a segment start the walk reaches that is
      not 0xFF. */
  lemma {:induction false} ScanJpegSound(b: seq<byte>, offset: nat)
    ensures var r := ScanJpeg(b, offset);
            r.Ok? ==> exists o: nat :: OnWalk(b, offset, o) && InScan(b, o) && b[o] == 0xFF && IsSofMarker(b[o + 1])
                                  && r.value == (BE16(b, o + 7), BE16(b, o + 5))
    ensures ScanJpeg(b, offset) == Err(InvalidJpgMarker) ==>
              exists o: nat :: OnWalk(b, offset, o) && InScan(b, o) && b[o] != 0xFF
    decreases |b| - offset
  {
    if offset + JpegMinSegmentSize >= |b| {
    } else if b[offset] != 0xFF {
      assert OnWalk(b, offset, offset) && InScan(b, offset);
    } else if IsSofMarker(b[offset + 1]) {
      assert OnWalk(b, offset, offset) && InScan(b, offset);
    } else {
      var next := offset + BE16(b, offset + 2) + 2;
      ScanJpegSound(b, next);
      var r := ScanJpeg(b, next);
      if r.Ok? {
        var o: nat :| OnWalk(b, next, o) && InScan(b, o) && b[o] == 0xFF && IsSofMarker(b[o + 1])
                 && r.value == (BE16(b, o + 7), BE16(b, o + 5));
        assert OnWalk(b, offset, o);
      } else if r == Err(InvalidJpgMarker) {
        var o: nat :| OnWalk(b, next, o) && InScan(b, o) && b[o] != 0xFF;
        assert OnWalk(b, offset, o);
      }
    }
  }

  /** The converse: every segment start the walk reaches decides the result
      when it is in range and stops the walk. So the walk reports a missing
      frame header only when every segment start it reaches in range is a
      0xFF segment that is no frame header. */
  lemma {:induction false} ScanJpegComplete(b: seq<byte>, offset: nat, o: nat)
    requires OnWalk(b, offset, o) && InScan(b, o)
    ensures b[o] != 0xFF ==> ScanJpeg(b, offset) == Err(InvalidJpgMarker)
    ensures b[o] == 0xFF && IsSofMarker(b[o + 1]) ==>
              ScanJpeg(b, offset) == Ok((BE16(b, o + 7), BE16(b, o + 5)))
    ensures ScanJpeg(b, offset) == Err(NoSofMarker) ==> b[o] == 0xFF && !IsSofMarker(b[o + 1])
    decreases |b| - offset
  {
    if offset != o {
      ScanJpegComplete(b, offset + BE16(b, offset + 2) + 2, o);
    }
  }

  /** `(width, height)` in pixels, or the error the source reports. */
  function GetImageDimensions(b: seq<byte>): (r: Result<(nat, nat), DimError>)
    ensures |b| < MinImageDataLen ==> r == Err(SliceTooShort)
    ensures |b| >= MinImageDataLen && IsPngHeader(b) ==>
              r == (if HasIhdr(b) then Ok((BE32(b, 16), BE32(b, 20))) else Err(InvalidPngIhdr))
    ensures r.Ok? ==> r.value.0 < 0x1_0000_0000 && r.value.1 < 0x1_0000_0000
    ensures |b| >= MinImageDataLen && !IsPngHeader(b) && IsJpegHeader(b) ==> r == ScanJpeg(b, JpegInitialOffset)
    ensures r == Err(UnknownFormat) <==> |b| >= MinImageDataLen && !IsPngHeader(b) && !IsJpegHeader(b)
    ensures r == Err(InvalidJpgMarker) || r == Err(NoSofMarker) ==>
              |b| >= MinImageDataLen && !IsPngHeader(b) && IsJpegHeader(b)
  {
    if |b| < MinImageDataLen then Err(SliceTooShort)
    else if IsPngHeader(b) then
      if HasIhdr(b) then Ok((BE32(b, 16), BE32(b, 20))) else Err(InvalidPngIhdr)
    else if IsJpegHeader(b) then ScanJpeg(b, JpegInitialOffset)
    else Err(UnknownFormat)
  }

  /** The source's `while` loop over JPEG segments, computing the same result
      as the recursive walk. */
  method ScanJpegLoop(b: seq<byte>) returns (r: Result<(nat, nat), DimError>)
    ensures r == ScanJpeg(b, JpegInitialOffset)
  {
    var offset := JpegInitialOffset;
    while offset + JpegMinSegmentSize < |b|
      invariant ScanJpeg(b, offset) == ScanJpeg(b, JpegInitialOffset)
      decreases |b| - offset
    {
      if b[offset] != 0xFF {
        return Err(InvalidJpgMarker);
      }
      var marker := b[offset + 1];
      var segmentLen := BE16(b, offset + 2);
      if IsSofMarker(marker) {
        return Ok((BE16(b, offset + 7), BE16(b, offset + 5)));
      }
      offset := offset + segmentLen + 2;
    }
    return Err(NoSofMarker);
  }

  // ---------------------------------------------------------------------
  // Worked examples

  /** A 24-byte PNG prefix whose IHDR says 800 x 600. */
  lemma PngExample()
    ensures GetImageDimensions([137, 80, 78, 71, 13, 10, 26, 10, 0, 0, 0, 13,
                                73, 72, 68, 82, 0, 0, 3, 32, 0, 0, 2, 88]) == Ok((800, 600))
  {
  }

  /** A JPEG whose first segment is a SOF0 frame header of 640 x 480. */
  lemma JpegExample()
    ensures GetImageDimensions([0xFF, 0xD8, 0xFF, 0xC0, 0, 17, 8, 1, 0xE0, 2, 0x80, 3,
                                0, 0, 0, 0, 0, 0, 0, 0, 0, 0, 0, 0]) == Ok((640, 480))
  {
    var b: seq<byte> := [0xFF, 0xD8, 0xFF, 0xC0, 0, 17, 8, 1, 0xE0, 2, 0x80, 3,
                         0, 0, 0, 0, 0, 0, 0, 0, 0, 0, 0, 0];
    assert !IsPngHeader(b) && IsJpegHeader(b);
    assert IsSofMarker(b[3]);
    assert BE16(b, 7) == 480 && BE16(b, 9) == 640;
    assert ScanJpeg(b, 2) == Ok((640, 480));
  }

  /** A JPEG holding only a DHT (0xC4) segment has no frame header. */
  lemma JpegDhtOnlyExample()
    ensures GetImageDimensions([0xFF, 0xD8, 0xFF, 0xC4, 0, 20, 0, 0, 0, 0, 0, 0,
                                0, 0, 0, 0, 0, 0, 0, 0, 0, 0, 0, 0]) == Err(NoSofMarker)
  {
    var b: seq<byte> := [0xFF, 0xD8, 0xFF, 0xC4, 0, 20, 0, 0, 0, 0, 0, 0,
                         0, 0, 0, 0, 0, 0, 0, 0, 0, 0, 0, 0];
    assert BE16(b, 4) == 20;
    assert ScanJpeg(b, 24) == Err(NoSofMarker);
  }
}
