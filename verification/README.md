# simple-docx-template core, modelled in Dafny

simple-docx-template fills a `.docx` template with JSON data in one streaming
pass over the document body (`word/document.xml`). This project models that
pass in Dafny and proves properties of the model.

The pass reads XML events and does three things:

- **Text.** Inside a `w:t` element, the text is rendered by a pluggable
  formatting policy (`ValueExt`). The default policy is `DefaultValueHandler`.
- **Images.** A `w:t` element whose rendered text is a base64 PNG or JPEG is
  replaced by an inline picture run. The image is decoded, classified and
  sized from its PNG/JPEG header, then stored under a fresh file name. It is
  registered with a new relationship id.
- **Tables.** A table is captured whole. A row whose text matches the
  placeholder pattern is the data-row template. When the first text of a row
  starts with a loop key `{{#…}}` that names an array, the table is expanded:
  the array's elements are flattened into records, and the template is
  written once per record. Equal neighbouring cell values are merged
  vertically with `w:vMerge` (ECMA-376 Part 1, section 17.4.85).

At the end, the relationship part (OPC relationships, ECMA-376 Part 2,
section 9.3) gets one `<Relationship>` entry per stored image. The entries
are spliced in before its closing tag.

## Modules

| file | module | models |
|---|---|---|
| `wrappers.dfy`, `strings.dfy`, `bytes.dfy` | `Wrappers`, `Strings`, `Bytes` | Option/Result; sequence search and decimal digits; bytes, big-endian reads, UTF-8 encoding and validity |
| `constants.dfy`, `json.dfy`, `value_ext.dfy` | `Constants`, `Json`, `ValueExt` | the crate's constants; `serde_json::Value` and records; the formatting-policy interface |
| `events.dfy` | `Events` | input events and output writes, with their markup/text projections |
| `image_dimensions.dfy`, `rel_ids.dfy`, `flatten.dfy` | `ImageDimensions`, `RelIds`, `Flatten` | the four functions of `utils.rs` |
| `relationships.dfy` | `Relationships` | `RelationshipManager` |
| `images.dfy` | `Images` | `ImageManager` |
| `default_handler.dfy`, `placeholder.dfy` | `DefaultHandler`, `Placeholder` | `DefaultValueHandler`; the placeholder regex |
| `engine.dfy` | `Engine` | the environment and state the pass threads; `process_base64_image` |
| `table_capture.dfy` | `TableCapture` | `collect_table_content`, `process_table_row_internal` |
| `merge.dfy`, `row_writer.dfy` | `Merge`, `RowWriter` | `write_rows_with_merge`, `write_row_with_merge_fixed` |
| `processor.dfy` | `Processor` | `process_xml_events`, `process_table` |

Every operation is a pure function of its inputs. Mutable state becomes
input and output values:

- The image registry and the relationship allocator form `Engine.State`.
- The formatting policy, the placeholder map, the base64 decoder and the uuid
  source form `Engine.Env`.
- The reader's event stream is a sequence. Reading past its end is the
  reader's `Eof`.
- The writer's output is a sequence of writes. A write is an event, a
  picture run, or raw markup.

Rust's `f32` arithmetic is modelled on `real`. The `as u32` cast is modelled
explicitly, including its saturation.

## Model

| member | source | states |
|---|---|---|
| `Bytes.BE16` | src/core/utils.rs:64 | The big-endian `u16` of two bytes is below 2^16; its high byte is the first byte and its low byte the second. |
| `Bytes.BE32` | src/core/utils.rs:44-46 | The big-endian `u32` of four bytes is below 2^32; its high and low halves are the `u16`s of the two byte pairs. |
| `Bytes.EncodeConcat` | src/core/relationship_manager.rs:112-115 | The UTF-8 bytes of a concatenation are the concatenation of the UTF-8 bytes. Writing `rel.as_bytes()` piecewise writes the whole entry. |
| `Bytes.EncodeUtf8Valid` | src/core/relationship_manager.rs:112-115 | Every string's UTF-8 encoding passes the UTF-8 validity check that `from_utf8` performs. |
| `Bytes.ValidConcat` | src/core/relationship_manager.rs:109-117 | Valid UTF-8 followed by valid UTF-8 is valid UTF-8. |
| `Bytes.ValidSplitAtAscii` | src/core/relationship_manager.rs:109-117 | Cutting valid UTF-8 just before an ASCII byte (here the `<` of `</Relationships>`) leaves two valid halves. The splice therefore never cuts a character. |
| `Strings.NatToStringRoundTrip` | src/core/default_handler.rs:88 | The decimal rendering of a number (`to_string`) reads back as that number. |
| `Strings.NatToStringInjective` | src/core/relationship_manager.rs:58-60 | Different numbers have different decimal renderings. |
| `Placeholder.MatchesPlaceholder` | src/core/docx_processor.rs:446-450 | The one-pass scan answers true exactly when `\S(.+?)]` matches somewhere in the text: a non-whitespace character, then at least one character on the same line, then `]`. |
| `DefaultHandler.HandleWithoutQuotes` | src/core/default_handler.rs:24-41 | A string renders without its quotes and null renders as nothing. A number goes through the two-decimal formatter. A boolean, array or object renders as its JSON text. |
| `Strings.RemoveAll` | src/core/default_handler.rs:67 | Deleting one character leaves no occurrence of it, and every other element that occurs stays. A one-element sequence is kept exactly when it is not the deleted character. |
| `Strings.RemoveAllCounts` | src/core/default_handler.rs:67 | Every element other than the deleted one keeps its multiplicity. The length drops by the number of deleted occurrences. |
| `Strings.RemoveAllConcat` | src/core/default_handler.rs:67 | Deleting distributes over concatenation. With the one-element case, this fixes the order of what is kept. |
| `DefaultHandler.CleanKey` | src/core/default_handler.rs:67 | The cleaned key has no brackets. Every other character of the key stays, and nothing is added. A single character is kept exactly when it is not a bracket. |
| `DefaultHandler.CleanKeyCounts` | src/core/default_handler.rs:67 | Every character other than a bracket is kept as often as it occurs in the key. |
| `DefaultHandler.CleanKeyConcat` | src/core/default_handler.rs:67 | Cleaning a concatenation concatenates the cleaned parts, so the kept characters stay in key order. |
| `DefaultHandler.Lookup` | src/core/default_handler.rs:70-76 | A missing key renders as the empty string; a present one as its rendered value. |
| `DefaultHandler.ReplaceInTable` | src/core/default_handler.rs:59-96 | On the cleaned key, the first modifier that applies wins: `^` upper-cases the lookup without the `^`; `@` looks up without the `@`; `$index` renders the row index; anything else is a plain lookup. |
| `DefaultHandler.Replace` | src/core/default_handler.rs:103-111 | Text wrapped in `{{`…`}}` is rendered as a table key for row 0. Any other text comes back unchanged. |
| `DefaultHandler.CleanKeyIdempotent` | src/core/default_handler.rs:67 | Cleaning a cleaned key changes nothing. |
| `DefaultHandler.BracketsIgnored` | src/core/default_handler.rs:59-96 | A key and its bracket-free form render alike, for every row index and record. |
| `DefaultHandler.IndexOnlyMatters` | src/core/default_handler.rs:59-96 | Only a key that cleans to `$index` depends on the row index. |
| `DefaultHandler.MissingKeyIsEmpty` | src/core/default_handler.rs:70-76 | A key without modifiers that is absent from the record renders as the empty string. |
| `DefaultHandler.BracketedIndexKey` | src/core/default_handler.rs:87 | `[$index]` cleans to exactly `$index`. |
| `DefaultHandler.IndexRendersRow` | src/core/default_handler.rs:87-89 | A key that cleans to `$index` renders the row number in decimal, which reads back as that row number. |
| `DefaultHandler.WholePlaceholderLookup` | src/core/default_handler.rs:103-107 | `{{name}}` (no brackets or modifiers in `name`) is looked up under the key `{{name}}`, braces included. A string stored there comes out unquoted. |
| `Flatten.MergeRecordWithPrefix` | src/core/utils.rs:193-215 | Every sub-record entry ends up under `prefix.key`. Base entries that no prefixed key overwrites are kept. No other key appears. |
| `Flatten.PrefixedInjective` | src/core/utils.rs:209-212 | Different sub-record keys get different prefixed keys, so a merge loses no entry of the sub-record. |
| `Flatten.Flatten` | src/core/utils.rs:136-182 | Flattening yields at least one record; a value that is not an object yields one empty record. |
| `Flatten.FlattenCount` | src/core/utils.rs:137-177 | An object flattens into the product, over its fields, of each field's factor. A scalar or empty array has factor 1, an object its own record count, and a non-empty array the sum of its elements' record counts. |
| `Flatten.FlattenLeafObject` | src/core/utils.rs:166-170 | An object whose fields are all scalars or empty arrays flattens into exactly one record holding those fields. |
| `Flatten.MergeEachGrows` | src/core/utils.rs:160-165 | Within one object field, each emitted record keeps all earlier keys: the record keeps accumulating across sub-records. |
| `Flatten.ExpandItemsGrows` | src/core/utils.rs:150-158 | Within one array field, keys set by an earlier element are still present in every later record. |
| `Flatten.TwoElementArray` | src/core/utils.rs:150-158 | A two-element array of single-record elements yields the base merged with the first element, then that merged with the second. An entry only the first element has survives into the second record. |
| `Flatten.FlattenKeys` | src/core/utils.rs:136-182 | Every key of every flattened record is written by a field of the object. That is the key of a scalar field, or `key.sub` for an object or non-empty array field `key`. |
| `Flatten.FlattenKeepsLeafField` | src/core/utils.rs:140-177 | A scalar field's key maps to its value in every flattened record, unless a later field writes that key. |
| `Flatten.FlattenFieldsConcat` | src/core/utils.rs:140-177 | Flattening the fields of a concatenation applies the first part's fields, then the second part's, to the resulting records. |
| `Flatten.MergeEachKeeps` | src/core/utils.rs:193-215 | A merge run under `key` keeps every entry whose key is not of the form `key.sub`. |
| `ImageDimensions.GetImageDimensions` | src/core/utils.rs:24-83 | Under 24 bytes is `SliceTooShort`. A PNG signature yields the IHDR width and height, read big-endian from bytes 16–23, or else `InvalidPngIhdr`. `UnknownFormat` occurs exactly when the data is neither PNG nor JPEG. JPEG data (the `FF D8` signature without the PNG one) yields the segment walk `ScanJpeg` from offset 2. |
| `ImageDimensions.ScanJpeg` | src/core/utils.rs:53-79 | The walk ends only in a size, an invalid-marker error or a missing-SOF error, and a size is two 16-bit values. `ScanJpegSound` and `ScanJpegComplete` say which segment decides it. |
| `ImageDimensions.ScanJpegSound` | src/core/utils.rs:55-79 | A size is only reported from a segment start the walk reaches (the initial offset, then `length + 2` bytes further each time), in range, holding `0xFF` followed by an SOF marker other than DHT, JPG or DAC. Its width is read at offset 7 and its height at offset 5. An invalid-marker error points at a reached, in-range segment start that is not `0xFF`. |
| `ImageDimensions.ScanJpegComplete` | src/core/utils.rs:55-79 | Conversely, a reached, in-range segment start that is not `0xFF` gives the invalid-marker error. One holding a frame header gives that header's size. A missing-SOF error means every reached, in-range segment start is a `0xFF` segment that is not a frame header. |
| `ImageDimensions.ScanJpegLoop` | src/core/utils.rs:55-79 | The source's `while` loop over segments computes the same result as the segment-by-segment reference definition. |
| `ImageDimensions.PngExample` | src/core/utils.rs:32-47 | A 24-byte PNG header with IHDR reports the size stored in it. |
| `ImageDimensions.JpegExample` | src/core/utils.rs:53-75 | A JPEG whose first segment is SOF0 reports the width and height stored in it. |
| `ImageDimensions.JpegDhtOnlyExample` | src/core/utils.rs:67-79 | A DHT segment is stepped over, not mistaken for a frame header. |
| `RelIds.MaxIdFrom` | src/core/utils.rs:99-113 | The result is at least every id number matched from the position on, and it is 0 or one of them. |
| `RelIds.ParseNextRid` | src/core/utils.rs:98-116 | The next id is at least 1 and exceeds every `Id="rIdN"` number present. It is 1, or exactly one more than a number present. |
| `RelIds.MatchesDoNotOverlap` | src/core/utils.rs:102 | No `Id="rId<digits>"` match starts inside another, so a left-to-right non-overlapping scan meets every match. |
| `Relationships.New` | src/core/relationship_manager.rs:22-28 | A new allocator starts at id 1, with no entries and no original part. |
| `Relationships.SetInitialContent` | src/core/relationship_manager.rs:37-43 | The part is kept for the final splice, and existing entries are untouched. For valid UTF-8, the next id is exactly `ParseNextRid` of the part: it exceeds every id the part uses and is one more than an id the part uses, or 1 if there is none. Otherwise the counter is unchanged. |
| `Relationships.AddImageRelationship` | src/core/relationship_manager.rs:55-79 | Hands out the current number and `rId` + that number, advances the counter by one, and appends exactly one `<Relationship>` entry for `media/{filename}`. |
| `Relationships.RelIdsDistinct` | src/core/relationship_manager.rs:58-60 | Different id numbers give different `rId` strings. |
| `Relationships.AllocateAllConsecutive` | src/core/relationship_manager.rs:55-79 | Successive allocations return `rId{c}`, `rId{c+1}`, …, and the counter ends advanced by the number of files. |
| `Relationships.AllocateAllRecords` | src/core/relationship_manager.rs:76 | After successive allocations, the entries are the earlier ones followed by one entry per file, in call order, each with its own id. |
| `Relationships.AllocateAllDistinct` | src/core/relationship_manager.rs:55-79 | All ids handed out by successive allocations are pairwise different. |
| `Relationships.GenerateFinalRelsContent` | src/core/relationship_manager.rs:88-120 | No original part gives nothing. No new entries give the original bytes. Otherwise there is a result exactly when the part is UTF-8 and contains `</Relationships>`. The result is the part with the entries inserted before the last `</Relationships>`. |
| `Relationships.EntriesValid` | src/core/relationship_manager.rs:112-115 | The inserted entries with their separators are valid UTF-8. |
| `Relationships.SpliceFacts` | src/core/relationship_manager.rs:109-117 | Inserting a block and cutting it out again are inverse: the bytes before and after the insertion point are the original's. |
| `Relationships.SpliceValid` | src/core/relationship_manager.rs:96-117 | Splicing the entries into a valid part before its closing tag gives valid UTF-8. |
| `Relationships.SpliceKeepsTag` | src/core/relationship_manager.rs:117 | The closing tag is found again right after the inserted block. |
| `Relationships.FinalContentPreservesOriginal` | src/core/relationship_manager.rs:88-120 | The final part keeps every original byte: cutting the new block out gives the original back. The new entries sit right before `</Relationships>`, and the result is valid UTF-8. |
| `Images.New` | src/core/image_manager.rs:32-37 | A new registry keeps the DPI and holds no image. |
| `Images.Classify` | src/core/image_manager.rs:66-81 | The extension is `jpg` exactly for data starting `FF D8 FF` that does not start with the PNG signature. Everything else, unknown formats included, is `png`. |
| `Images.ImageFilename` | src/core/image_manager.rs:83-89 | The name is `image_`, the uuid, `.` and the extension: the uuid and the extension read back from it. |
| `Images.ImageFilenameDistinct` | src/core/image_manager.rs:84-89 | Different uuids give different file names (for extensions of one length). |
| `Images.PixelsToEmu` | src/core/image_manager.rs:96-101 | For any non-zero DPI, the EMU size times the DPI equals the pixel size times 914400. The size is non-negative for a positive DPI and non-positive for a negative one. |
| `Images.NaturalSize` | src/core/image_manager.rs:95-104 | For a readable header, each side times the DPI is that side's pixel count times 914400. Unreadable dimensions give the default 720000 × 900000 EMU. The sign follows the DPI's sign. |
| `Images.Clamp` | src/core/image_manager.rs:107-112 | A size within 1800000 EMU is kept. A larger one is scaled down by one common factor, so its larger side becomes 1800000. Both sides end up within the bound. |
| `Images.RoundToU32` | src/core/image_manager.rs:120-121 | Rounding to `u32` saturates: non-positive values give 0. In range, the result is the nearest integer. |
| `Images.ReportedSize` | src/core/image_manager.rs:95-122 | For a non-zero DPI, the size is the natural size clamped to 1800000 EMU and rounded to `u32`. Unreadable dimensions give 720000 × 900000 EMU. Readable dimensions at a DPI of zero or below give 0 × 0, the saturating cast of an infinite, NaN or negative size. Both sides are at most 1800000 for every DPI. |
| `Images.ReportedSizeClamped` | src/core/image_manager.rs:106-122 | At a positive DPI, an image that does not fit has its larger side reported as exactly 1800000 EMU. One that fits is reported at its rounded natural size. |
| `Images.ProcessBase64` | src/core/image_manager.rs:56-123 | Fails exactly when the base64 does not decode, for any DPI. On success it stores the bytes under `image_{uuid}.{ext}`, keeps every other image, allocates one relationship for that file, and returns that id with `ReportedSize` of the bytes. |
| `Images.TwoImagesDistinct` | src/core/image_manager.rs:84-115 | Two registrations with different uuids get consecutive ids, different relationship ids and different files, and the second does not overwrite the first. |
| `Images.GenerateXmlDrawingInner` | src/core/image_manager.rs:140-214 | The markup is one `w:r` run holding one drawing. The size appears as the `wp:extent` and as the picture's `a:ext`. The image id and name appear as the `wp:docPr` and `pic:cNvPr` properties, and the relationship id as the blip's `r:embed`. |
| `Images.DrawingDeterminesSize` | src/core/image_manager.rs:163-166 | Equal markup means equal width and height: the size can be read back from the `wp:extent` element. |
| `Engine.PictureXml` | src/core/docx_processor.rs:234-243 | The picture write is one run containing the blip for its relationship id, the `wp:docPr` properties for its id and name, and its size. |
| `Engine.PlaceImage` | src/core/docx_processor.rs:214-246 | Undecodable data writes and changes nothing. Decodable data writes exactly one picture run named `Picture {id}`, with the next relationship id and the size `Images.ReportedSize` gives for the bytes at the registry's DPI. It also registers one relationship and stores the bytes under that image's file name. |
| `Engine.RenderText` | src/core/docx_processor.rs:674-692 | A rendered value that looks like a base64 image becomes a picture run; anything else is written as one text. |
| `TableCapture.LoopKey` | src/core/docx_processor.rs:453-460 | A key exists exactly when the text starts with `{{#` and contains `}}`. The key is then the text's prefix that starts with `{{#` and ends at the first `}}`. |
| `TableCapture.LoopKeyUnique` | src/core/docx_processor.rs:456-458 | Any prefix of the text with those properties is the loop key. |
| `TableCapture.Step` | src/core/docx_processor.rs:426-474 | Each event inside a row that does not close it is stored: exactly one event is appended, and nothing stored earlier changes. |
| `TableCapture.CaptureRow` | src/core/docx_processor.rs:405-480 | A row stores one event per input event it consumes, after what was stored before. |
| `TableCapture.CaptureRowCopies` | src/core/docx_processor.rs:426-474 | Every event read is stored, in order. The only one stored changed is a text that the loop key was removed from. |
| `TableCapture.CaptureRowKeepsKey` | src/core/docx_processor.rs:453-454 | Once the table has a loop key, no later row changes it. |
| `TableCapture.CaptureRowPlaceholder` | src/core/docx_processor.rs:445-450 | A row is flagged as the data template exactly when one of its texts matches the placeholder pattern. |
| `TableCapture.CaptureRowKey` | src/core/docx_processor.rs:452-469 | After a row, the table's key is its earlier key, or else the loop key of the row's first text. |
| `TableCapture.CaptureRowBalanced` | src/core/docx_processor.rs:418-443 | A row that stops before the end of the input stops at a `w:tr` end tag, and its `w:tr` tags balance. |
| `TableCapture.AddRow` | src/core/docx_processor.rs:374-379 | A row with a placeholder replaces the data template. Any other row is appended to the header rows. |
| `TableCapture.CollectFrom` | src/core/docx_processor.rs:339-399 | A captured table ends just after a `w:tbl` end tag. Header rows and other events are only appended to, and a key once set is kept. |
| `TableCapture.CollectFromItems` | src/core/docx_processor.rs:339-399 | The capture is the table's top-level walk, filed by independent filters. The header rows are exactly the rows without a placeholder, in order. The template is what the rows with a placeholder leave behind. The other events are exactly the events outside every row, in order. The errors are the walk's. |
| `TableCapture.LastTemplateIsLast` | src/core/docx_processor.rs:374-379 | The template left behind is the last row with a placeholder. With no such row it is the empty starting template. |
| `TableCapture.NestedTableIffTopLevelStart` | src/core/docx_processor.rs:357-362 | The capture fails as a nested table exactly when a `w:tbl` start tag appears between rows, at a position the capture reads outside every row. |
| `TableCapture.OtherEventsAreNotRows` | src/core/docx_processor.rs:385-388 | No row start tag and no table start or end tag is buffered with the other events. |
| `TableCapture.NoNestedWithoutTableStart` | src/core/docx_processor.rs:357-362 | The nested-table error needs a `w:tbl` start tag in the input. |
| `TableCapture.CollectAsWritten` | src/core/docx_processor.rs:353-391 | The capture loop as written, run for a bounded number of iterations. It never reports an unterminated table. When it returns a table, it stops just after a `w:tbl` end tag within the input. |
| `TableCapture.AsWrittenSpinsAtEnd` | src/core/docx_processor.rs:353-391 | At the end of the input the capture loop as written never returns. |
| `TableCapture.AsWrittenAgrees` | src/core/docx_processor.rs:353-391 | Whenever the loop as written returns, it returns what `CollectFrom` does. When `CollectFrom` reports an unterminated table, the loop as written never returns. |
| `TableCapture.AsWrittenReturns` | src/core/docx_processor.rs:353-391 | In every other case, the loop as written returns `CollectFrom`'s result within one iteration per remaining event. |
| `TableCapture.TruncatedTableHangs` | src/core/docx_processor.rs:471 | A table cut off after a template row is reported as unterminated, while the loop as written never returns. |
| `Merge.ValueAt` | src/core/docx_processor.rs:558-559 | A neighbouring row's value exists exactly when that row exists and has the column. |
| `Merge.Decide` | src/core/docx_processor.rs:562-577 | Continue exactly when the column is merging and the value above equals this one. Restart exactly when that fails and the value below is equal and non-empty. The merging flag is set exactly when a directive is written. |
| `Merge.InitMerging` | src/core/docx_processor.rs:523-525 | The merging flags start as one `false` per value of the first row and are never re-initialised. |
| `Merge.DecideRow` | src/core/docx_processor.rs:549-578 | Every column the flags cover gets `Decide`'s directive and flag. Columns past the flags get no directive. Flags past the row are unchanged. |
| `Merge.Directives` | src/core/docx_processor.rs:505-595 | One directive vector per row, one directive per value. |
| `Merge.DirectivesClosedForm` | src/core/docx_processor.rs:505-595 | Directives for rows of equal width follow the run structure. In a maximal run of two or more equal non-empty values down a column, the first cell restarts and the others continue; every other cell gets nothing. |
| `Merge.DirectivesWellFormed` | src/core/docx_processor.rs:505-595 | A continuing cell sits below a merged cell with the same value. A restarting cell sits above a continuing cell with the same value. An empty value is never merged. |
| `Merge.RunExample` | src/core/docx_processor.rs:562-577 | The column `A, A, A, B` gives restart, continue, continue, nothing. |
| `Merge.EmptyValuesExample` | src/core/docx_processor.rs:569 | Equal empty values are not merged. |
| `RowWriter.WriteEvent` | src/core/docx_processor.rs:624-711 | Writing one template event keeps the allocator accounted for: the DPI is unchanged, the relationship counter and the list of new relationships grow by one per picture written, and the earlier relationships and the original relationships part are kept. |
| `RowWriter.WriteRow` | src/core/docx_processor.rs:605-714 | Writing a row keeps the allocator accounted for: the DPI is unchanged, the relationship counter and the list of new relationships grow by one per picture written, and the earlier relationships and the original relationships part are kept. |
| `RowWriter.WriteRowContents` | src/core/docx_processor.rs:605-714 | The row's markup is the template's markup with the `n`-th directive's `w:tcPr`/`w:vMerge` right after the `n`-th `w:tc` start tag. Its texts are the rendered values outside continuing cells, images aside. It writes at most one picture per image value. |
| `RowWriter.NoDirectivesAllVisible` | src/core/docx_processor.rs:668-676 | Without directives no text is suppressed: every text of the template is rendered. |
| `RowWriter.RowValuesUniform` | src/core/docx_processor.rs:508-520 | Every row rendered from one template has one value per template text. |
| `RowWriter.WriteRows` | src/core/docx_processor.rs:486-598 | Writing the rows keeps the allocator accounted for: the DPI is unchanged, the relationship counter and the list of new relationships grow by one per picture written, and the earlier relationships and the original relationships part are kept. |
| `RowWriter.WriteRowsContents` | src/core/docx_processor.rs:486-598 | The rows are the template written once per record, in record order, with record `i` at row index `i`. They hold the records' count times each start tag of the template. |
| `Processor.FlattenAll` | src/core/docx_processor.rs:292 | Every array element contributes at least one record. |
| `Processor.Expansion` | src/core/docx_processor.rs:280-283 | A table expands exactly when its loop key names an array in the placeholder map and it has a data template. It expands over that array's elements. |
| `Processor.WriteHeaders` | src/core/docx_processor.rs:302-326 | Rows written with ordinary substitution keep their markup. Their texts are the rendered values that are not images. |
| `Processor.ProcessTable` | src/core/docx_processor.rs:252-333 | A captured table is written as a bare `w:tbl` start tag, then its non-row events in order, then its rows, then the `w:tbl` end tag. Every picture written got one new relationship. |
| `Processor.TableRowsContents` | src/core/docx_processor.rs:278-327 | An expanding table writes its header rows verbatim, then the expanded rows. Otherwise it writes the header rows with rendered texts and nothing of the data template. |
| `Processor.TableRowCount` | src/core/docx_processor.rs:252-333 | A captured table is written with its header rows once each. When it expands, the data template is written once per flattened record; otherwise the template is dropped. Counted in `w:tr` start tags. |
| `Processor.Step` | src/core/docx_processor.rs:82-206 | One loop iteration consumes at least one event, and every picture it writes got one new relationship. As written, the skip flag is never left set. |
| `Processor.ProcessXmlEvents` | src/core/docx_processor.rs:56-208 | On success, every picture written got exactly one new relationship and nothing else of the allocator changed. |
| `Processor.ProcessXmlEventsAsWritten` | src/core/docx_processor.rs:56-208 | The pass with the `w:t` end tag written as the source writes it; tables are captured with the end-of-input fix. On success, every picture written got exactly one new relationship and nothing else of the allocator changed. |
| `Processor.PassThrough` | src/core/docx_processor.rs:170-203 | Without `w:t` and `w:tbl` start tags everything is copied unchanged, texts included, and nothing is registered. |
| `Processor.NoErrorWithoutTables` | src/core/docx_processor.rs:94-103 | Only a table can make the pass fail. |
| `Processor.PlainTextElement` | src/core/docx_processor.rs:106-198 | A `w:t` element whose text does not render to an image is written with its text rendered by `replace`. |
| `Processor.ImageElement` | src/core/docx_processor.rs:144-157 | A `w:t` element whose text renders to an image is replaced as a whole by the picture run: neither of its tags is written. |
| `Processor.ImageElementAsWritten` | src/core/docx_processor.rs:144-198 | As written, the `w:t` end tag of an element replaced by a picture is still written. |
| `Processor.ImageRunOutput` | src/core/docx_processor.rs:56-208 | A run holding one image text comes out as the run's tags around the picture. |
| `Processor.ImageRunOutputAsWritten` | src/core/docx_processor.rs:56-208 | As written, the same run also carries a stray `w:t` end tag after the picture. |
| `Processor.StrayTextEndTag` | src/core/docx_processor.rs:156-198 | As written, that output has a `w:t` end tag and no start tag. With the end tag dropped it has neither. |

## Left out

- I/O: the zip archive, the async reader and writer, and the temporary body file are not modelled. The input is the event sequence and the output is the sequence of writes.
- XML escaping and decoding (`BytesText::decode`, `from_escaped`) and quick_xml's own errors are not modelled. Texts are taken as already decoded.
- Floating point: `f32` arithmetic is modelled on `real`, so `f32` rounding error is not modelled. `Images.RoundToU32` states exact rounding only within the `u32` range. Infinity and NaN are not values of `real`. A DPI of zero, where the source computes them, is modelled only by the size they produce after the saturating cast, 0 × 0 (`Images.ReportedSize`).
- `get_images` returns the registry's `images` map; in the model that map is the field `ImageManager.images`.
- Library calls are uninterpreted parameters: `format!("{:.2}")`, `to_uppercase`, JSON `to_string`, the base64 decoder and `Uuid::now_v7`. Each image's uuid is the environment's value for its id number.
- The `u32` id counter is unbounded. `current_rid += 1` past `u32::MAX` (a panic or wrap in the source) and `max_id + 1` on an id of `u32::MAX` are not modelled. Ids above `u32::MAX` are skipped, as `parse::<u32>` skips them.
- `skip_w_t_events` is true only between two statements of one iteration (lines 145-156), and `skip_current_event` is never set, so neither is modelled as state. The variant with the end-tag fix does keep a skip flag.
- `Processor.ProcessTable` writes a bare `w:tbl` start tag, as the source does. The original table element's attributes are dropped there, not by the model.
- A `w:tbl` start tag inside a row is captured as part of that row, as in the source. Only one between rows is the nested-table error.
- `Processor.ProcessXmlEvents` and `Processor.ProcessXmlEventsAsWritten` both model the capture loop with the end-of-input fix (`TableCapture.CollectFrom`), so a table without an end tag is an error in both rather than a hang. The loop as written is `TableCapture.CollectAsWritten`, and the lemmas relate the two.
- `Merge.Directives` is computed up front for all rows, while the source computes each row's directives while writing. This is the same because the formatting policy is a pure function.
- Merge directives are indexed by text position, but `write_row_with_merge_fixed` applies them by cell position. The two agree only when each cell holds one text. The model keeps the source's indexing.
- `Placeholder.HasPlaceholder` and `RelIds.IdAt` are hand-written matchers for the two regular expressions. The regex engine itself is not modelled.
- `process_base64` returns `Err` when the base64 decode fails (src/core/image_manager.rs:61-63), and `process_base64_image` drops that error with `if let Ok` (src/core/docx_processor.rs:225-226). The model does the same: `Engine.PlaceImage` writes nothing and the pass goes on.
- `collect_table_content` returns `ERR_NESTED_TABLE` only for a `w:tbl` start tag met between rows (src/core/docx_processor.rs:359-364). A `w:tbl` inside a row is copied into that row by `process_table_row_internal`. The model does the same.
- `process_table_row_internal` takes the loop key from the first text of a row, for the first row of any kind that has one, while the table has no key yet (src/core/docx_processor.rs:453-469). The key keeps its `{{#` and `}}` markers. The model does the same.

## Findings

| source | as written | input that shows it | evidently intended | confidence | as-written member | corrected member |
|---|---|---|---|---|---|---|
| src/core/docx_processor.rs:353-391 | At the end of the input, `collect_table_content` keeps reading `Eof`, pushes it to the other events and loops. A table without a `w:tbl` end tag never returns. | `<w:tbl><w:tr><w:t>[name]` followed by the end of the document | stop at `Eof` and report an unterminated table | not executed | `TableCapture.TruncatedTableHangs` | `TableCapture.CollectFrom` |
| src/core/docx_processor.rs:144-198 | After an image replaces a `w:t` element, the skip flag is cleared at once (line 156). The element's `</w:t>` end tag is still written, with no matching start tag. | `<w:r><w:t>iVBORw0KGgo…</w:t></w:r>`, a text that renders to a base64 PNG | drop the element's end tag with the rest of it | not executed | `Processor.StrayTextEndTag` | `Processor.ImageRunOutput` |
