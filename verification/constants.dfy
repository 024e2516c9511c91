/** The fixed values of `src/core/constant.rs` that the modelled code reads. */
module Constants {

  // Image sizes, in bytes and in English Metric Units (914400 per inch).
  const MinImageDataLen: nat := 24
  const MaxEmu: real := 1800000.0
  const DefaultWidthEmu: real := 720000.0
  const DefaultHeightEmu: real := 900000.0
  const EmuPerInch: real := 914400.0
  const DefaultDpi: real := 96.0

  // WordprocessingML element names (ECMA-376 Part 1, section 17.4).
  const XmlTable: string := "w:tbl"
  const XmlText: string := "w:t"
  const XmlTableRow: string := "w:tr"
  const XmlTableCell: string := "w:tc"
  const XmlTableCellProperties: string := "w:tcPr"
  const XmlTableMergeTag: string := "w:vMerge w:val"

  // Base64 prefixes of a PNG and a JPEG file.
  const PngBase64Signature: string := "iVBORw0KGgo"
  const JpegBase64Signature: string := "/9j/"

  // Values of the `w:val` attribute of `w:vMerge`.
  const MergeTypeRestart: string := "restart"
  const MergeTypeContinue: string := "continue"

  // Image file extensions and the generated file-name prefix.
  const ImageExtPng: string := "png"
  const ImageExtJpeg: string := "jpg"
  const ImageFilenamePrefix: string := "image_"

  // Namespaces and the OPC relationship type of an image (ECMA-376 Part 2, section 9.3).
  const XmlnsDrawingMl: string := "http://schemas.openxmlformats.org/drawingml/2006/main"
  const XmlnsPicture: string := "http://schemas.openxmlformats.org/drawingml/2006/picture"
  const RelTypeImage: string := "http://schemas.openxmlformats.org/officeDocument/2006/relationships/image"

  // Loop markers and the relationship id prefix.
  const LoopStartMarker: string := "{{#"
  const LoopEndMarker: string := "}}"
  const RelIdPrefix: string := "rId"

  // Fixed attribute values of the inline drawing markup.
  const DrawingDistTop: string := "0"
  const DrawingDistBottom: string := "0"
  const DrawingDistLeft: string := "114300"
  const DrawingDistRight: string := "114300"
  const EffectExtentLeft: string := "0"
  const EffectExtentTop: string := "0"
  const EffectExtentRight: string := "24765"
  const EffectExtentBottom: string := "24130"
  const NoChangeAspect: string := "1"
  const CoordZero: string := "0"

  // JPEG markers (ITU-T T.81, Annex B, Table B.1).
  const JpegSofMarkerStart: int := 0xC0
  const JpegSofMarkerEnd: int := 0xCF
  const JpegMarkerDht: int := 0xC4
  const JpegMarkerJpg: int := 0xC8
  const JpegMarkerDac: int := 0xCC
  const JpegInitialOffset: nat := 2
  const JpegMinSegmentSize: nat := 9

  const DefaultImageDescription: string := "Generated Image"
  const ImageNamePrefix: string := "Picture "
}
