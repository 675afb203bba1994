# mrf-tool manifest commands, modelled in Dafny

`mrf-tool` is a command-line tool that stores a JSON manifest inside a
WebAssembly module or component, as a custom section named `manifest-v0`.
It has three manifest commands:

- `add-manifest` copies the module to the output file and appends a custom
  section record that holds the manifest bytes.
- `read-manifest` finds the first `manifest-v0` section and pretty-prints
  its data as JSON.
- `remove-manifest` finds that section and writes the module without it.
  It cuts out the section's payload and, in front of it, 1 + the width of
  the data length's LEB128 encoding. That is the whole section only when
  this width equals the width of the section's size field (see Findings).

This project models those commands on byte sequences and proves what they do.

- `Base` holds bytes, `Option`, the three failures of the tool and `Result`:
  - `Malformed`: the section parser stops.
  - `NotFound`: "no manifest section found".
  - `TooLarge`: the encoder cannot write the size.
- `Leb128` holds unsigned LEB128.
  - `Size` and `Encode` give the shortest encoding, which the encoder writes and `remove_manifest` measures.
  - `ReadVarU32` is the parser's `u32` reader: at most five bytes, no bits beyond the 32nd.
- `Scanner` holds the top-level section walk of the parser.
  - It checks the preamble, then reads sections one by one: an id byte, a size varint, then the payload.
  - A custom section is split into a UTF-8 name of at most 100000 bytes and its data.
- `Encoder` holds the custom-section record that the encoder appends:
  `0x00`, the size varint, the name's length varint, the name, then the data.
- `MrfTool` holds the commands:
  - The lookup `FindManifestSection` is a `while` loop over the section walk, proved equal to the function `Find`.
  - `OutputFile` is a class whose `contents` the writes append to.
  - `RemoveManifest`, `WriteManifest` and `AddManifest` are methods over that class.
  - `Removed` and `Added` are the functions that specify the methods.
- `ManifestProofs` holds what the commands promise together:
  - the lookup returns the first match, and the errors it can report
  - the layout of the record that add-manifest appends
  - add-then-find returns the data
  - exactly when remove-after-add gives the module back

## Model

| member | source | states |
|---|---|---|
| Leb128.Pow128 | mrf-tool/src/main.rs:102-103 | 128^k, always at least 1 |
| Leb128.Size | mrf-tool/src/main.rs:102-103 | the number of bytes `leb128::write::unsigned` writes for a length is at least one |
| Leb128.Encode | mrf-tool/src/main.rs:113-119 | the encoding of n has Size(n) bytes: every byte but the last has the continuation bit, and the last does not |
| Leb128.Limit | mrf-tool/src/main.rs:63-65 | the value bound of the bytes still to be read in a `u32` varint, at least 16 for the fifth byte |
| Leb128.DecodeAt | mrf-tool/src/main.rs:63-65 | a decoded varint takes 1 to 5 bytes, stays before `end` and its value is below the bound for its starting byte |
| Leb128.LimitIsU32 | mrf-tool/src/main.rs:63-65 | a five-byte `u32` varint carries exactly the values below 2^32 |
| Leb128.SizeBounds | mrf-tool/src/main.rs:102-103 | n < 128^Size(n), and 128^(Size(n)-1) <= n when the size is at least 2 |
| Leb128.SizeAtMost | mrf-tool/src/main.rs:102-103 | a value below 128^j needs at most j bytes |
| Leb128.SizeAtLeast | mrf-tool/src/main.rs:102-103 | a value of at least 128^(j-1) needs at least j bytes |
| Leb128.SizeOfRange | mrf-tool/src/main.rs:102-103 | a value in [128^(k-1), 128^k) takes exactly k bytes |
| Leb128.SizeMonotone | mrf-tool/src/main.rs:102-103 | a larger value never has a shorter encoding |
| Leb128.SizeStep | mrf-tool/src/main.rs:102-104 | adding at most 128 widens an encoding by at most one byte |
| Leb128.DecodeEncode | mrf-tool/src/main.rs:113-119 | the parser reads back exactly the value and width that the encoder wrote, whatever bytes follow |
| Leb128.DecodedWidth | mrf-tool/src/main.rs:102-104 | a varint the parser accepts is never shorter than the shortest encoding of its value |
| Leb128.DecodeAppend | mrf-tool/src/main.rs:63-65 | decoding looks only at the bytes before its end bound |
| Leb128.DecodeWiden | mrf-tool/src/main.rs:63-65 | a varint that decodes before one end bound decodes the same way before any later bound |
| Leb128.ReadVarU32Extends | mrf-tool/src/main.rs:63-65 | appending bytes does not change a varint that was already read |
| Leb128.ReadVarU32 | mrf-tool/src/main.rs:63-65 | the parser's `u32` reader: a varint it accepts takes 1 to 5 bytes inside the binary and its value is below 2^32 |
| Leb128.SizeOfU32 | mrf-tool/src/main.rs:102-103 | a value that fits a `u32` is encoded in at most 5 bytes |
| Leb128.DecodeNarrow | mrf-tool/src/main.rs:63-65 | a varint decodes the same before any earlier end bound that still covers its bytes |
| Leb128.DecodeUnterminated | mrf-tool/src/main.rs:63-65 | bytes that all carry the continuation bit up to the end bound do not decode: the varint is cut short |
| Leb128.ReadVarU32Truncate | mrf-tool/src/main.rs:63-65 | cutting the binary anywhere after a varint does not change how it is read |
| Scanner.CharWidth | mrf-tool/src/main.rs:69 | a UTF-8 character takes 1 to 4 bytes, and 1 for ASCII |
| Scanner.AsciiIsUtf8 | mrf-tool/src/main.rs:69 | ASCII bytes form a valid UTF-8 name |
| Scanner.Utf8ExcludedBytes | mrf-tool/src/main.rs:69 | a valid UTF-8 name never holds the bytes 0xC0, 0xC1 or 0xF5 to 0xFF |
| Scanner.ValidPreamble | mrf-tool/src/main.rs:63-65 | an accepted preamble is at least 8 bytes, starts with the magic `00 61 73 6D` and has the version byte 0x01 (module) or 0x0D (component) |
| Scanner.ParseSized | mrf-tool/src/main.rs:65-68 | once the size varint is read, a size that does not decode or a payload running past the end of the binary is Malformed, and every failure is Malformed |
| Scanner.ParseSectionSize | mrf-tool/src/main.rs:65 | the size varint of a parsed section sits right after its id byte and holds the payload length |
| Scanner.ParseCustomTruncate | mrf-tool/src/main.rs:65-69 | cutting the binary anywhere after a custom payload does not change how it is read |
| Scanner.ParseSizedTruncate | mrf-tool/src/main.rs:65-68 | cutting the binary anywhere after a section's payload does not change the section |
| Scanner.ParseSectionTruncate | mrf-tool/src/main.rs:65-68 | cutting the binary at or after a section's end does not change how that section parses |
| Scanner.PreambleExtends | mrf-tool/src/main.rs:63-65 | appending bytes does not change whether the preamble is valid |
| Scanner.ParseCustom | mrf-tool/src/main.rs:65-69 | a custom payload either fails as Malformed, or yields the name bytes (UTF-8, read just before the data) and a data offset inside the payload |
| Scanner.ParseSection | mrf-tool/src/main.rs:65-68 | one section either fails as Malformed, or starts at the position it was read at and has a payload inside the binary |
| Scanner.SectionsFrom | mrf-tool/src/main.rs:63-65 | the walk from a position can fail only with Malformed |
| Scanner.Sections | mrf-tool/src/main.rs:63-65 | a binary without a module or component preamble is Malformed; otherwise the walk starts after the 8-byte preamble |
| Scanner.ParseCustomExtends | mrf-tool/src/main.rs:65-69 | appending bytes does not change how a custom payload is read |
| Scanner.ParseSectionUnfold | mrf-tool/src/main.rs:65-68 | proof helper: given its size varint, a section with id 0 is read as a custom payload; any other id gives an opaque section spanning the size |
| Scanner.ParseSectionSized | mrf-tool/src/main.rs:65 | proof helper: a section is read with the size varint after its id byte |
| Scanner.ParseSizedCustom | mrf-tool/src/main.rs:65-66 | proof helper: an id-0 section whose payload fits the binary is read as a custom section |
| Scanner.ParseSizedOther | mrf-tool/src/main.rs:66-68 | proof helper: a section with any other id whose payload fits is an opaque section |
| Scanner.ParseCustomUnfold | mrf-tool/src/main.rs:69 | proof helper: a valid name length, a name of at most 100000 bytes and valid UTF-8 give that name and the data after it |
| Scanner.ParseSectionHeader | mrf-tool/src/main.rs:65-69 | a parsed section lies exactly on its header: the id byte, a size counting the payload, and the name right before the data |
| Scanner.SectionsFromContiguous | mrf-tool/src/main.rs:63-65 | the sections of a well-formed walk follow each other with no gaps up to the end of the binary |
| Scanner.ParseSectionExtends | mrf-tool/src/main.rs:65 | appending bytes does not change a section that already parses |
| Scanner.SectionsFromStep | mrf-tool/src/main.rs:65 | proof helper: the walk is the first section followed by the walk from its end |
| Scanner.SectionsFromLast | mrf-tool/src/main.rs:65 | a section that ends the binary is the last one in the walk |
| Scanner.AppendStepErr | mrf-tool/src/main.rs:65 | proof helper: a parse error after a section is the walk's error |
| Scanner.AppendStepOk | mrf-tool/src/main.rs:65 | proof helper: sections walked after an appended tail come after the sections walked before it |
| Scanner.SectionsFromAppend | mrf-tool/src/main.rs:63-65 | the walk over a binary with a tail is the binary's walk followed by the tail's walk, or Malformed when the tail is malformed |
| Encoder.Record | mrf-tool/src/main.rs:113-119 | a record is as long as its header plus its payload |
| Encoder.HeaderSize | mrf-tool/src/main.rs:113-119 | the id byte and the size field take at least 2 bytes, and at most 6 when the size fits a `u32` |
| Encoder.CustomSectionRecord | mrf-tool/src/main.rs:113-119 | encoding succeeds exactly when the size fits a `u32`; otherwise it fails with TooLarge; on success it gives the record |
| Encoder.ParsesAt | mrf-tool/src/main.rs:113-119 | the parser reads the encoder's header bytes back as a custom section with that name and payload |
| Encoder.RecordParses | mrf-tool/src/main.rs:113-119 | a record placed anywhere in a binary parses there as a custom section whose data is the record's data |
| Encoder.RecordFields | mrf-tool/src/main.rs:113-119 | the record's bytes are the id 0, the size varint, the name's length varint, the name and the data, at those offsets |
| MrfTool.IsManifest | mrf-tool/src/main.rs:66-70 | a manifest section is a custom section whose name is the 11 bytes "manifest-v0" |
| MrfTool.FindFrom | mrf-tool/src/main.rs:62-78 | the lookup from a position returns a manifest section inside the binary, or fails with Malformed or NotFound |
| MrfTool.Find | mrf-tool/src/main.rs:62-78 | a bad preamble is Malformed; the lookup fails only with Malformed or NotFound; a found section is a manifest section after the preamble |
| MrfTool.FindFromStep | mrf-tool/src/main.rs:65-74 | proof helper: a manifest section is returned; any other section is skipped (`continue`) |
| MrfTool.FindFromHeader | mrf-tool/src/main.rs:62-78 | the section found lies exactly on its header bytes |
| MrfTool.FindHeader | mrf-tool/src/main.rs:62-78 | the same for a whole binary |
| MrfTool.FindManifestSection | mrf-tool/src/main.rs:62-78 | the `while` loop returns exactly what the lookup `Find` specifies |
| MrfTool.ReadManifest | mrf-tool/src/main.rs:80-82 | read-manifest fails exactly when the lookup fails, with the same error; its data lies inside the section's payload |
| MrfTool.RemovalHeaderSize | mrf-tool/src/main.rs:102-104 | the `start_offset` of remove_manifest: 2, 3, 4 or 5 bytes by the range of the data length |
| MrfTool.HeaderSizeRanges | mrf-tool/src/main.rs:102-103 | the LEB128 width is 1 below 128, 2 below 16384, 3 below 2097152 and 4 below 2^28 |
| MrfTool.NoUnderflow | mrf-tool/src/main.rs:104-106 | `range.start - start_offset` never underflows: the cut is at or after the section's id byte |
| MrfTool.FindBounds | mrf-tool/src/main.rs:93-106 | the found section's offsets are ordered inside the binary, and the cut does not underflow |
| MrfTool.Splice | mrf-tool/src/main.rs:106-107 | removing the bytes [cut, end) shortens the binary by end - cut |
| MrfTool.SpliceKeeps | mrf-tool/src/main.rs:106-107 | the bytes before the cut and after the end are kept, in order |
| MrfTool.Removed | mrf-tool/src/main.rs:90-110 | remove-manifest fails exactly when the lookup fails, with the same error; otherwise the output is at least the section's payload shorter |
| MrfTool.RemovedAt | mrf-tool/src/main.rs:102-107 | proof helper: the output of remove-manifest is the binary with [range.start - start_offset, range.end) cut out |
| MrfTool.RemovedCorrected | mrf-tool/src/main.rs:90-110 | the corrected removal fails like the lookup; otherwise it drops exactly the section, from its id byte to its end |
| MrfTool.RemovedCorrectedAt | mrf-tool/src/main.rs:93-107 | proof helper: the corrected removal cuts out [offset, end) |
| MrfTool.Added | mrf-tool/src/main.rs:131-135 | add-manifest fails with TooLarge exactly when the record cannot be encoded; otherwise the output is the module followed by the record |
| MrfTool.OutputFile.Create | mrf-tool/src/main.rs:95-99 | an output opened with create and truncate starts empty |
| MrfTool.OutputFile.Copy | mrf-tool/src/main.rs:133 | `fs::copy` leaves the output holding the module |
| MrfTool.OutputFile.WriteAll | mrf-tool/src/main.rs:106-107 | `write_all` appends the bytes to the file |
| MrfTool.RemoveManifest | mrf-tool/src/main.rs:90-110 | the method's output is what `Removed` specifies |
| MrfTool.WriteManifest | mrf-tool/src/main.rs:112-125 | it succeeds exactly when the size fits a `u32` and then appends the record to the file; on TooLarge the file is unchanged |
| MrfTool.AddManifest | mrf-tool/src/main.rs:131-135 | the method's output is what `Added` specifies |
| ManifestProofs.FirstManifest | mrf-tool/src/main.rs:65-74 | the index of the first manifest section: every section before it is not one |
| ManifestProofs.FirstManifestCons | mrf-tool/src/main.rs:65-74 | proof helper: the first manifest position is 0 when the head is a manifest section, and one past the tail's otherwise |
| ManifestProofs.FindFromIsFirstMatch | mrf-tool/src/main.rs:65-77 | over a well-formed walk, the lookup returns the first manifest section, or NotFound when there is none |
| ManifestProofs.FindIsFirstMatch | mrf-tool/src/main.rs:62-78 | the same for a whole binary |
| ManifestProofs.FindFromNotFound | mrf-tool/src/main.rs:65-77 | NotFound means that the whole walk parsed and held no manifest section |
| ManifestProofs.FindErrors | mrf-tool/src/main.rs:65-77 | NotFound means a well-formed binary whose walk holds no manifest section; a binary whose walk is malformed never gives NotFound, only Malformed or a found section |
| ManifestProofs.FindFromPrefix | mrf-tool/src/main.rs:65-74 | the section found from a position ends a walk, over the bytes up to its end, that parses and holds it as its first manifest section |
| ManifestProofs.FindPrefix | mrf-tool/src/main.rs:62-78 | the found section is the last section of a well-formed walk of the binary cut at its end, and the first manifest section of that walk, whatever bytes follow |
| ManifestProofs.FindFromExtends | mrf-tool/src/main.rs:73-74 | after the first match the lookup reads nothing more, so appended bytes do not change the result |
| ManifestProofs.FindFromSkips | mrf-tool/src/main.rs:65-71 | a lookup that found nothing goes on in the appended bytes |
| ManifestProofs.FindExtends | mrf-tool/src/main.rs:73-74 | appending to a binary with a manifest section keeps the section it finds |
| ManifestProofs.ManifestNameIsUtf8 | mrf-tool/src/main.rs:13 | "manifest-v0" is valid UTF-8 |
| ManifestProofs.ManifestPayloadSize | mrf-tool/src/main.rs:113-119 | the size field of the manifest record is the data length plus 12 |
| ManifestProofs.ManifestRecord | mrf-tool/src/main.rs:113-119 | the record is `[0] ++ LEB(len + 12) ++ [0x0B] ++ "manifest-v0" ++ data`; it encodes exactly when len + 12 < 2^32 |
| ManifestProofs.AddedRecord | mrf-tool/src/main.rs:131-135 | proof helper: the output of add-manifest is the module followed by the manifest record |
| ManifestProofs.ManifestParsesAt | mrf-tool/src/main.rs:113-119 | the appended record parses as a manifest section whose data is the manifest and whose end is the end of the output |
| ManifestProofs.ShortNameRecordParsesAt | mrf-tool/src/main.rs:113-119 | the same for any 11-byte UTF-8 name |
| ManifestProofs.AddThenFind | mrf-tool/src/main.rs:131-135 | after add-manifest on a module without a manifest section, the lookup finds the new section and read-manifest gives back the manifest |
| ManifestProofs.AddAppendsSection | mrf-tool/src/main.rs:131-135 | add-manifest keeps every section of a well-formed module and adds exactly one manifest section after them |
| ManifestProofs.AddedFront | mrf-tool/src/main.rs:131-135 | proof helper: the output of add-manifest starts with the module, followed by the id byte 0 |
| ManifestProofs.SpliceToEnd | mrf-tool/src/main.rs:106-107 | proof helper: cutting a span that reaches the end leaves exactly the prefix |
| ManifestProofs.RemovedAfterAddIsPrefix | mrf-tool/src/main.rs:102-107 | remove-after-add keeps the first \|module\| + Size(len + 12) - Size(len) bytes of the output |
| ManifestProofs.RemoveAfterAdd | mrf-tool/src/main.rs:102-107 | remove-after-add gives back the module when Size(len) == Size(len + 12), and the module followed by a stray 0x00 otherwise |
| ManifestProofs.RemoveAfterAddSameWidth | mrf-tool/src/main.rs:102-107 | when the two widths agree, remove-after-add gives back the module |
| ManifestProofs.WidthGrowsByOne | mrf-tool/src/main.rs:102-104 | when they differ, the record's size field is exactly one byte wider |
| ManifestProofs.RemoveAfterAddWider | mrf-tool/src/main.rs:102-107 | when they differ, remove-after-add leaves the module followed by a stray 0x00 |
| ManifestProofs.RemoveCorrectedAfterAdd | mrf-tool/src/main.rs:90-110 | the corrected removal gives back the module for every manifest length |
| ManifestProofs.StrayByteWitness | mrf-tool/src/main.rs:102-104 | for data of 116 to 127 bytes, remove-after-add on the bare preamble leaves the preamble followed by 0x00, which no longer parses |
| ManifestProofs.RemoveExactIff | mrf-tool/src/main.rs:102-106 | the removal as written cuts out the whole section exactly when 1 + Size(data length) is the section's real header size |
| ManifestProofs.RemovedKeepsOutside | mrf-tool/src/main.rs:106-107 | remove-manifest copies every byte before the section and after it unchanged, and its length is the payload and the computed header shorter |
| ManifestProofs.TruncatedRecordIsMalformed | mrf-tool/src/main.rs:63-65 | a binary cut strictly inside an appended id-0 record fails to parse at the record: its size varint is cut short or its payload runs past the end |
| ManifestProofs.AppendedBadSection | mrf-tool/src/main.rs:65-77 | appending a malformed section to a binary without a manifest section makes the lookup fail with Malformed |
| ManifestProofs.AddedLayout | mrf-tool/src/main.rs:113-119 | the output of add-manifest is the module, 0x00, the LEB128 of len + 12, then `0x0B "manifest-v0"` and the data, with len + 12 < 2^32 |
| ManifestProofs.TruncatedAddIsMalformed | mrf-tool/src/main.rs:131-135 | an add-manifest output on a module without a manifest section, cut anywhere inside the appended record, gives Malformed: never NotFound and never a section |
| ManifestProofs.EmptyModuleHasNoManifest | mrf-tool/src/main.rs:77 | the bare module preamble gives NotFound |
| ManifestProofs.SevenByteRecord | mrf-tool/src/main.rs:113-119 | a 7-byte manifest is appended as `00 13 0B "manifest-v0"` followed by the data |
| ManifestProofs.EmptyModuleScenario | mrf-tool/src/main.rs:131-135 | `{"v":1}` added to the bare preamble gives those bytes; read-manifest returns it and remove-manifest gives the preamble back |

## Left out

- Command-line parsing (`clap`), the `Args` structs and `main`'s dispatch are not modelled. The commands are the methods `AddManifest` and `RemoveManifest`, plus the function `ReadManifest`.
- File I/O: reading the manifest and the module from disk, and I/O errors.
  - Inputs are byte sequences.
  - The output file is the `OutputFile` object, whose final contents the methods return.
- MrfTool.ReadManifest: the manifest bytes are returned, not parsed as JSON and pretty-printed. JSON errors and `println!` are not modelled.
- MrfTool.AddManifest: if the encoder panics, the output file already holds the copied module, because `fs::copy` ran first. The model returns `Err(TooLarge)` instead of that file.
- Encoder.CustomSectionRecord: the encoder's panic on a size that does not fit a `u32` is modelled as the error `TooLarge`.
- The `validate` subcommand is not modelled. It lies outside the manifest commands.
- The section walk:
  - Scanner.Sections: `parse_all` descends into the modules and components nested inside a component. The model walks top-level sections only.
  - The contents of non-custom sections are not checked. They are opaque sections.
  - The parser's checks on section order and known-section contents are not modelled either.
- Scanner.Sections: the preamble is accepted for a module (version 1) and for a component (the layer-1 version bytes `0x0D 0x00 0x01 0x00`). Other versions are Malformed.
- Leb128.Encode: sizes are written in the shortest form, as the encoder writes them. The parser's acceptance of padded varints is modelled (`DecodeAt`). The mismatch that padding would add to remove-manifest is covered only by `RemoveExactIff`.

## Findings

| source | as written | input that shows it | evidently intended | confidence | as-written member | corrected member |
|---|---|---|---|---|---|---|
| mrf-tool/src/main.rs:102-106 | `start_offset` is 1 + the LEB128 width of the data length. The section's real size field encodes the data length plus 12 (the name's length byte and "manifest-v0"). | add-manifest, then remove-manifest, on the 8-byte module preamble with a manifest of 116 to 127 bytes. The size field then takes 2 bytes, but 1 + Size(len) = 2. The cut starts one byte late, leaving the preamble followed by 0x00, which no longer parses. The same happens for 16372 to 16383 bytes and for the other lengths just below a power of 128. | Cut from the section's id byte, so that remove-manifest undoes add-manifest for every manifest (proved as `ManifestProofs.RemoveCorrectedAfterAdd`). | not executed | ManifestProofs.StrayByteWitness | MrfTool.RemovedCorrected |
