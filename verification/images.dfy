/** `ImageManager`: the registry of images to embed. A base64 payload is
    decoded, classified by its magic bytes, named after a fresh uuid,
    registered with the relationship allocator, sized in English Metric Units
    and stored; `GenerateXmlDrawingInner` is the inline drawing markup that
    shows it (ECMA-376 Part 1, section 20.4, DrawingML wordprocessing
    drawing). Sizes are computed over `real`; see the README for what that
    idealises. */
module Images {
  import opened Wrappers
  import opened Bytes
  import opened Strings
  import opened Constants
  import ImageDimensions
  import Relationships

  /** The DPI used for sizing and the stored images by file name. */
  datatype ImageManager = ImageManager(dpi: real, images: map<string, seq<byte>>)

  /** `ImageManager::new`: no images yet. */
  function New(dpi: real): (m: ImageManager)
    ensures m.dpi == dpi && m.images == map[]
  {
    ImageManager(dpi, map[])
  }

  // ---------------------------------------------------------------------
  // Classification and naming

  /** The file extension chosen from the first bytes: `png` for the PNG
      signature, `jpg` for the JPEG start-of-image marker followed by 0xFF,
      and `png` for anything else. */
  function Classify(b: seq<byte>): (ext: string)
    ensures ext == ImageExtPng || ext == ImageExtJpeg
    ensures ext == ImageExtJpeg <==>
              !(|b| >= 4 && b[0] == 0x89 && b[1] == 0x50 && b[2] == 0x4E && b[3] == 0x47)
              && |b| >= 3 && b[0] == 0xFF && b[1] == 0xD8 && b[2] == 0xFF
  {
    if |b| >= 4 && b[0] == 0x89 && b[1] == 0x50 && b[2] == 0x4E && b[3] == 0x47 then ImageExtPng
    else if |b| >= 3 && b[0] == 0xFF && b[1] == 0xD8 && b[2] == 0xFF then ImageExtJpeg
    else ImageExtPng
  }

  /** `image_{uuid}.{ext}`: the uuid and the extension read back from the
      name, around a `.`. */
  function ImageFilename(uuid: string, ext: string): (f: string)
    ensures |f| == |ImageFilenamePrefix| + |uuid| + 1 + |ext|
    ensures f[..|ImageFilenamePrefix|] == ImageFilenamePrefix
    ensures f[|ImageFilenamePrefix|..|ImageFilenamePrefix| + |uuid|] == uuid
    ensures f[|ImageFilenamePrefix| + |uuid|] == '.'
    ensures f[|f| - |ext|..] == ext
  {
    ImageFilenamePrefix + uuid + "." + ext
  }

  /** Different uuids give different file names (the extension always has
      three letters). */
  lemma ImageFilenameDistinct(u1: string, e1: string, u2: string, e2: string)
    requires |e1| == |e2| && u1 != u2
    ensures ImageFilename(u1, e1) != ImageFilename(u2, e2)
  {
    var f1 := ImageFilename(u1, e1);
    var f2 := ImageFilename(u2, e2);
    var n := |ImageFilenamePrefix|;
    if |u1| != |u2| {
      assert |f1| != |f2|;
    } else {
      var i :| 0 <= i < |u1| && u1[i] != u2[i];
      assert f1[n + i] == u1[i] && f2[n + i] == u2[i];
    }
  }

  // ---------------------------------------------------------------------
  // Sizes

  function Max(a: real, b: real): real {
    if a >= b then a else b
  }

  /** Pixels at `dpi` dots per inch, in EMU (`px * EMU_PER_INCH * (1 / dpi)`):
      non-negative for a positive DPI, non-positive for a negative one. */
  function PixelsToEmu(px: nat, dpi: real): (emu: real)
    requires dpi != 0.0
    ensures emu * dpi == px as real * EmuPerInch
    ensures dpi > 0.0 ==> emu >= 0.0
    ensures dpi < 0.0 ==> emu <= 0.0
  {
    px as real * EmuPerInch / dpi
  }

  /** The unclamped size for the header reading `d`: the pixel size
      converted at `dpi`, or the default size when the header cannot be
      read. */
  function NaturalSize(d: Result<(nat, nat), ImageDimensions.DimError>, dpi: real): (s: (real, real))
    requires dpi != 0.0
    ensures d.Err? ==> s == (DefaultWidthEmu, DefaultHeightEmu)
    ensures d.Ok? ==> s.0 * dpi == d.value.0 as real * EmuPerInch && s.1 * dpi == d.value.1 as real * EmuPerInch
    ensures dpi > 0.0 ==> s.0 >= 0.0 && s.1 >= 0.0
    ensures dpi < 0.0 && d.Ok? ==> s.0 <= 0.0 && s.1 <= 0.0
  {
    if d.Ok? then
      var ew := PixelsToEmu(d.value.0, dpi);
      var eh := PixelsToEmu(d.value.1, dpi);
      (ew, eh)
    else
      (DefaultWidthEmu, DefaultHeightEmu)
  }

  /** Scale down so that neither side exceeds `MaxEmu`, keeping the aspect
      ratio; a size that already fits is kept. */
  function Clamp(w: real, h: real): (r: (real, real))
    ensures w <= MaxEmu && h <= MaxEmu ==> r == (w, h)
    ensures (w > MaxEmu || h > MaxEmu) ==>
              Max(r.0, r.1) == MaxEmu && r.0 * h == r.1 * w
    ensures r.0 <= MaxEmu && r.1 <= MaxEmu
  {
    var scale := Max(w / MaxEmu, h / MaxEmu);
    if scale > 1.0 then (w / scale, h / scale) else (w, h)
  }

  const U32Max: nat := 0xFFFF_FFFF

  /** `f32::round` (half away from zero) followed by the saturating
      `as u32` cast. */
  function RoundToU32(x: real): (n: nat)
    ensures n <= U32Max
    ensures x <= 0.0 ==> n == 0
    ensures 0.0 <= x && x + 0.5 < U32Max as real ==> n as real - 0.5 <= x < n as real + 0.5
  {
    if x <= 0.0 then 0
    else
      var k := (x + 0.5).Floor;
      if k > U32Max then U32Max else k
  }

  /** A rounded side bounded by `bound` stays at or under that bound. */
  lemma RoundMonotone(x: real, bound: nat)
    requires x <= bound as real && bound <= U32Max
    ensures RoundToU32(x) <= bound
  {
  }

  /** The size `process_base64` reports, in whole EMU: the natural size,
      scaled down to fit `MaxEmu`, rounded and cast to `u32`. The DPI is any
      `f32` the caller set. With a DPI of zero, `1.0 / 0.0` is infinite, so a
      readable side is infinite (NaN for zero pixels); the scale-down then
      multiplies by `1.0 / inf == 0.0`, which leaves NaN, and the saturating
      cast turns NaN into 0. With a negative DPI both sides are at most zero,
      fit already, and the cast turns them into 0. */
  function ReportedSize(b: seq<byte>, dpi: real): (size: (nat, nat))
    ensures size.0 <= 1800000 && size.1 <= 1800000
    ensures ImageDimensions.GetImageDimensions(b).Err? ==> size == (720000, 900000)
    ensures ImageDimensions.GetImageDimensions(b).Ok? && dpi <= 0.0 ==> size == (0, 0)
    ensures dpi != 0.0 ==>
              var n := NaturalSize(ImageDimensions.GetImageDimensions(b), dpi);
              size == (RoundToU32(Clamp(n.0, n.1).0), RoundToU32(Clamp(n.0, n.1).1))
  {
    if ImageDimensions.GetImageDimensions(b).Ok? && dpi == 0.0 then (0, 0)
    else
      var natural := NaturalSize(ImageDimensions.GetImageDimensions(b), if dpi == 0.0 then 1.0 else dpi);
      var c := Clamp(natural.0, natural.1);
      RoundMonotone(c.0, 1800000);
      RoundMonotone(c.1, 1800000);
      assert (720000.0 + 0.5).Floor == 720000;
      assert (900000.0 + 0.5).Floor == 900000;
      (RoundToU32(c.0), RoundToU32(c.1))
  }

  /** An image too large for `MaxEmu` at a positive DPI is reported with its
      larger side exactly 1800000 EMU; one that fits is reported at its
      natural size, rounded. */
  lemma ReportedSizeClamped(b: seq<byte>, dpi: real)
    requires dpi > 0.0
    ensures var n := NaturalSize(ImageDimensions.GetImageDimensions(b), dpi);
            var size := ReportedSize(b, dpi);
            && (n.0 > MaxEmu || n.1 > MaxEmu ==> size.0 == 1800000 || size.1 == 1800000)
            && (n.0 <= MaxEmu && n.1 <= MaxEmu ==> size == (RoundToU32(n.0), RoundToU32(n.1)))
  {
    var n := NaturalSize(ImageDimensions.GetImageDimensions(b), dpi);
    var c := Clamp(n.0, n.1);
    assert (1800000.0 + 0.5).Floor == 1800000;
    if n.0 > MaxEmu || n.1 > MaxEmu {
      assert c.0 == MaxEmu || c.1 == MaxEmu;
    }
  }

  // ---------------------------------------------------------------------
  // Registration

  datatype ImageError = Base64DecodeFailed

  /** What a successful `process_base64` leaves behind and returns. */
  datatype Placed = Placed(
    manager: ImageManager,
    rels: Relationships.RelationshipManager,
    filename: string,
    relId: string,
    imageId: nat,
    width: nat,
    height: nat)

  /** `process_base64`, with the base64 decoder and the uuid of this call as
      parameters: the decoder's failure is the only error and happens before
      anything else; a success allocates one relationship for
      `image_{uuid}.{ext}`, stores the bytes under that name and returns the
      allocated ids with the clamped size. */
  function ProcessBase64(
    m: ImageManager,
    rel: Relationships.RelationshipManager,
    data: string,
    decode: string -> Option<seq<byte>>,
    uuid: string): (r: Result<Placed, ImageError>)
    ensures r.Err? <==> decode(data).None?
    ensures r.Ok? ==>
              var bytes := decode(data).value;
              var p := r.value;
              && p.filename == ImageFilename(uuid, Classify(bytes))
              && p.manager.dpi == m.dpi
              && p.manager.images == m.images[p.filename := bytes]
              && p.imageId == rel.currentRid
              && p.relId == Relationships.RelId(rel.currentRid)
              && p.rels.currentRid == rel.currentRid + 1
              && p.rels.newRels == rel.newRels + [Relationships.RelationshipXml(p.relId, p.filename)]
              && p.rels.originalRelsContent == rel.originalRelsContent
              && (p.width, p.height) == ReportedSize(bytes, m.dpi)
  {
    match decode(data)
    case None => Err(Base64DecodeFailed)
    case Some(bytes) =>
      var filename := ImageFilename(uuid, Classify(bytes));
      var a := Relationships.AddImageRelationship(rel, filename);
      var size := ReportedSize(bytes, m.dpi);
      Ok(Placed(ImageManager(m.dpi, m.images[filename := bytes]), a.manager, filename,
                a.relId, a.imageId, size.0, size.1))
  }

  /** Two registrations in a row hand out consecutive ids, and with different
      uuids they store two different files: the second does not overwrite
      the first. */
  lemma TwoImagesDistinct(m: ImageManager, rel: Relationships.RelationshipManager,
                          d1: string, d2: string, decode: string -> Option<seq<byte>>,
                          u1: string, u2: string)
    requires u1 != u2
    requires ProcessBase64(m, rel, d1, decode, u1).Ok?
    ensures var p1 := ProcessBase64(m, rel, d1, decode, u1).value;
            var r2 := ProcessBase64(p1.manager, p1.rels, d2, decode, u2);
            r2.Ok? ==>
              && r2.value.imageId == p1.imageId + 1
              && r2.value.relId != p1.relId
              && r2.value.filename != p1.filename
              && p1.filename in r2.value.manager.images
              && r2.value.manager.images[p1.filename] == decode(d1).value
              && r2.value.manager.images[r2.value.filename] == decode(d2).value
  {
    var p1 := ProcessBase64(m, rel, d1, decode, u1).value;
    var r2 := ProcessBase64(p1.manager, p1.rels, d2, decode, u2);
    if r2.Ok? {
      Relationships.RelIdsDistinct(p1.imageId, r2.value.imageId);
      var e1 := Classify(decode(d1).value);
      var e2 := Classify(decode(d2).value);
      ImageFilenameDistinct(u1, e1, u2, e2);
    }
  }

  // ---------------------------------------------------------------------
  // Drawing markup

  /** An element `<{elem} cx="{w}" cy="{h}"/>` (`wp:extent` and `a:ext`). */
  function SizeElement(elem: string, w: nat, h: nat): string {
    "<" + elem + " cx=\"" + NatToString(w) + "\" cy=\"" + NatToString(h) + "\"/>"
  }

  /** An element `<{elem} id="{id}" name="{name}" descr="{descr}"/>`
      (`wp:docPr` and `pic:cNvPr`). */
  function PropsElement(elem: string, id: nat, name: string, descr: string): string {
    "<" + elem + " id=\"" + NatToString(id) + "\" name=\"" + name + "\" descr=\"" + descr + "\"/>"
  }

  /** `<a:blip r:embed="{relId}"/>`. */
  function BlipElement(relId: string): string {
    "<a:blip r:embed=\"" + relId + "\"/>"
  }

  const DrawingOpen: string := "<w:r><w:drawing>"
  const DrawingClose: string := "</wp:inline></w:drawing></w:r>"

  /** The fixed pieces between the variable elements. */
  const InlineOpen: string := DrawingOpen + InlineStart

  const InlineStart: string :=
    "<wp:inline distT=\"" + DrawingDistTop + "\" distB=\"" + DrawingDistBottom
    + "\" distL=\"" + DrawingDistLeft + "\" distR=\"" + DrawingDistRight + "\">"

  const EffectExtent: string :=
    "<wp:effectExtent l=\"" + EffectExtentLeft + "\" t=\"" + EffectExtentTop
    + "\" r=\"" + EffectExtentRight + "\" b=\"" + EffectExtentBottom + "\"/>"

  const FrameProps: string :=
    "<wp:cNvGraphicFramePr><a:graphicFrameLocks xmlns:a=\"" + XmlnsDrawingMl
    + "\" noChangeAspect=\"" + NoChangeAspect + "\"/></wp:cNvGraphicFramePr>"

  const GraphicOpen: string :=
    "<a:graphic xmlns:a=\"" + XmlnsDrawingMl + "\"><a:graphicData uri=\"" + XmlnsPicture
    + "\"><pic:pic xmlns:pic=\"" + XmlnsPicture + "\"><pic:nvPicPr>"

  const PictureLocks: string :=
    "<pic:cNvPicPr><a:picLocks noChangeAspect=\"" + NoChangeAspect
    + "\"/></pic:cNvPicPr></pic:nvPicPr><pic:blipFill>"

  const TransformOpen: string :=
    "<a:stretch><a:fillRect/></a:stretch></pic:blipFill><pic:spPr><a:xfrm><a:off x=\""
    + CoordZero + "\" y=\"" + CoordZero + "\"/>"

  const GraphicClose: string := GraphicEnd + DrawingClose

  const GraphicEnd: string :=
    "</a:xfrm><a:prstGeom prst=\"rect\"><a:avLst/></a:prstGeom></pic:spPr></pic:pic>"
    + "</a:graphicData></a:graphic>"

  /** The pieces of the markup, element by element, in the order they are
      written. */
  function DrawingParts(relId: string, imageId: nat, width: nat, height: nat,
                        name: string, descr: string): seq<string>
  {
    [InlineOpen, SizeElement("wp:extent", width, height), EffectExtent,
     PropsElement("wp:docPr", imageId, name, descr), FrameProps, GraphicOpen,
     PropsElement("pic:cNvPr", imageId, name, descr), PictureLocks, BlipElement(relId),
     TransformOpen, SizeElement("a:ext", width, height), GraphicClose]
  }

  /** `generate_xml_drawing_inner`: one run holding one inline picture. The
      size appears both as the `wp:extent` and the `a:ext` of the picture,
      the id both as `wp:docPr` and `pic:cNvPr` id, and the relationship id
      as the blip's `r:embed`. */
  function GenerateXmlDrawingInner(relId: string, imageId: nat, width: nat, height: nat,
                                   name: string, descr: string): (xml: string)
    ensures StartsWith(xml, DrawingOpen)
    ensures EndsWith(xml, DrawingClose)
    ensures Contains(xml, SizeElement("wp:extent", width, height))
    ensures Contains(xml, SizeElement("a:ext", width, height))
    ensures Contains(xml, PropsElement("wp:docPr", imageId, name, descr))
    ensures Contains(xml, PropsElement("pic:cNvPr", imageId, name, descr))
    ensures Contains(xml, BlipElement(relId))
  {
    DrawingContents(relId, imageId, width, height, name, descr);
    Join(DrawingParts(relId, imageId, width, height, name, descr))
  }

  /** The joined pieces hold every variable element. */
  lemma DrawingContents(relId: string, imageId: nat, width: nat, height: nat,
                        name: string, descr: string)
    ensures var xml := Join(DrawingParts(relId, imageId, width, height, name, descr));
            && StartsWith(xml, DrawingOpen)
            && EndsWith(xml, DrawingClose)
            && Contains(xml, SizeElement("wp:extent", width, height))
            && Contains(xml, SizeElement("a:ext", width, height))
            && Contains(xml, PropsElement("wp:docPr", imageId, name, descr))
            && Contains(xml, PropsElement("pic:cNvPr", imageId, name, descr))
            && Contains(xml, BlipElement(relId))
  {
    var parts := DrawingParts(relId, imageId, width, height, name, descr);
    PrefixOfConcat(DrawingOpen, InlineStart);
    SuffixOfConcat(GraphicEnd, DrawingClose);
    JoinBounds(parts, DrawingOpen, DrawingClose);
    PartContained(parts, 1);
    PartContained(parts, 10);
    PartContained(parts, 3);
    PartContained(parts, 6);
    PartContained(parts, 8);
  }

  /** The concatenation starts as its first part starts and ends as its last
      part ends. */
  lemma JoinBounds(parts: seq<string>, first: string, last: string)
    requires |parts| > 0 && StartsWith(parts[0], first) && EndsWith(parts[|parts| - 1], last)
    ensures StartsWith(Join(parts), first) && EndsWith(Join(parts), last)
  {
    PrefixOfConcat(parts[0], Join(parts[1..]));
    StartsWithTrans(Join(parts), parts[0], first);
    JoinEndsWithLast(parts);
    EndsWithTrans(Join(parts), parts[|parts| - 1], last);
  }

  lemma PartContained(parts: seq<string>, k: nat)
    requires k < |parts|
    ensures Contains(Join(parts), parts[k])
  {
    JoinPartAt(parts, k);
  }

  lemma ConcatRight<T>(a: seq<T>, b: seq<T>, c: seq<T>, d: seq<T>, e: seq<T>, r: seq<T>)
    ensures a + b + c + d + e + r == a + (b + (c + (d + (e + r))))
  {
  }

  lemma JoinFirstTwo<T>(parts: seq<seq<T>>)
    requires |parts| >= 2
    ensures Join(parts) == parts[0] + (parts[1] + Join(parts[2..]))
  {
    assert parts[1..][1..] == parts[2..];
  }

  lemma SizeElementSplit(elem: string, width: nat, height: nat, rest: string)
    ensures SizeElement(elem, width, height) + rest
            == ("<" + elem + " cx=\"") + (NatToString(width) + ("\" cy=\"" + (NatToString(height) + ("\"/>" + rest))))
  {
    ConcatRight("<" + elem + " cx=\"", NatToString(width), "\" cy=\"", NatToString(height), "\"/>", rest);
  }

  /** Behind a common lead, a size element followed by anything gives back
      its width and its height. */
  lemma SizeReadBack(lead: string, elem: string, w1: nat, h1: nat, r1: string, w2: nat, h2: nat, r2: string)
    requires lead + (SizeElement(elem, w1, h1) + r1) == lead + (SizeElement(elem, w2, h2) + r2)
    ensures w1 == w2 && h1 == h2
  {
    var x := lead + (SizeElement(elem, w1, h1) + r1);
    var y1 := SizeElement(elem, w1, h1) + r1;
    var y2 := SizeElement(elem, w2, h2) + r2;
    assert y1 == x[|lead|..] == y2;
    SizeElementSplit(elem, w1, h1, r1);
    SizeElementSplit(elem, w2, h2, r2);
    var open := "<" + elem + " cx=\"";
    var u1 := "\"/>" + r1;
    var u2 := "\"/>" + r2;
    var t1 := "\" cy=\"" + (NatToString(h1) + u1);
    var t2 := "\" cy=\"" + (NatToString(h2) + u2);
    assert NatToString(w1) + t1 == y1[|open|..] == NatToString(w2) + t2;
    DigitRunUnique(NatToString(w1), t1, NatToString(w2), t2);
    NatToStringInjective(w1, w2);
    assert NatToString(h1) + u1 == t1[6..] == NatToString(h2) + u2;
    DigitRunUnique(NatToString(h1), u1, NatToString(h2), u2);
    NatToStringInjective(h1, h2);
  }

  /** Two part lists with the same first part and a size element second
      whose concatenations agree were made for the same size. */
  lemma JoinSizeReadBack(p1: seq<string>, p2: seq<string>, elem: string, w1: nat, h1: nat, w2: nat, h2: nat)
    requires |p1| >= 2 && |p2| >= 2 && p1[0] == p2[0]
    requires p1[1] == SizeElement(elem, w1, h1) && p2[1] == SizeElement(elem, w2, h2)
    requires Join(p1) == Join(p2)
    ensures w1 == w2 && h1 == h2
  {
    JoinFirstTwo(p1);
    JoinFirstTwo(p2);
    SizeReadBack(p1[0], elem, w1, h1, Join(p1[2..]), w2, h2, Join(p2[2..]));
  }

  /** The markup determines the size it was made for: the width and the
      height can be read back from the `wp:extent` element. */
  lemma DrawingDeterminesSize(relId1: string, id1: nat, w1: nat, h1: nat, name1: string, descr1: string,
                              relId2: string, id2: nat, w2: nat, h2: nat, name2: string, descr2: string)
    requires GenerateXmlDrawingInner(relId1, id1, w1, h1, name1, descr1)
             == GenerateXmlDrawingInner(relId2, id2, w2, h2, name2, descr2)
    ensures w1 == w2 && h1 == h2
  {
    var p1 := DrawingParts(relId1, id1, w1, h1, name1, descr1);
    var p2 := DrawingParts(relId2, id2, w2, h2, name2, descr2);
    JoinSizeReadBack(p1, p2, "wp:extent", w1, h1, w2, h2);
  }
}
