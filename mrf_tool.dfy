/** The manifest commands of `mrf-tool`: finding, reading, adding and
    removing the custom section named "manifest-v0" in a WebAssembly binary.
    Files are modelled by their bytes: `OutputFile` stands for the file the
    tool writes, the other inputs are the bytes read from disk. */
module MrfTool {
  import opened Base
  import Leb128
  import Scanner
  import Encoder

  /** The name of the manifest section, "manifest-v0", as bytes. */
  const ManifestSection: seq<Byte> := [0x6D, 0x61, 0x6E, 0x69, 0x66, 0x65, 0x73, 0x74, 0x2D, 0x76, 0x30]

  /** s is a custom section named "manifest-v0". */
  predicate IsManifest(s: Scanner.Section): (ok: bool)
    ensures ok ==> s.CustomSection? && |s.name| == 11
  {
    s.CustomSection? && s.name == ManifestSection
  }

  /** The lookup from pos on: the first manifest section, or the parse error
      that stops the walk before one is reached, or NotFound once the walk
      ends. Nothing after the first match is looked at. */
  function FindFrom(blob: seq<Byte>, pos: nat): (r: Result<Scanner.Section>)
    requires pos <= |blob|
    ensures r.Err? ==> r.error == Malformed || r.error == NotFound
    ensures r.Ok? ==> IsManifest(r.value) && pos <= r.value.offset && r.value.end <= |blob|
    decreases |blob| - pos
  {
    if pos == |blob| then Err(NotFound)
    else
      match Scanner.ParseSection(blob, pos)
      case Err(e) => Err(e)
      case Ok(s) => if IsManifest(s) then Ok(s) else FindFrom(blob, s.end)
  }

  /** The manifest section of a binary, as `find_manifest_section` looks it
      up: the preamble, then the sections in order up to the first match. */
  function Find(blob: seq<Byte>): (r: Result<Scanner.Section>)
    ensures !Scanner.ValidPreamble(blob) ==> r == Err(Malformed)
    ensures r.Err? ==> r.error == Malformed || r.error == NotFound
    ensures r.Ok? ==> IsManifest(r.value) && Scanner.PreambleSize <= r.value.offset
  {
    if Scanner.ValidPreamble(blob) then FindFrom(blob, Scanner.PreambleSize) else Err(Malformed)
  }

  /** FindFrom once the section at pos is known. */
  lemma FindFromStep(blob: seq<Byte>, pos: nat, s: Scanner.Section)
    requires pos < |blob| && Scanner.ParseSection(blob, pos) == Ok(s)
    ensures IsManifest(s) ==> FindFrom(blob, pos) == Ok(s)
    ensures !IsManifest(s) ==> FindFrom(blob, pos) == FindFrom(blob, s.end)
  {
  }

  /** The section the lookup returns is a well-formed header in the binary. */
  lemma {:induction false} FindFromHeader(blob: seq<Byte>, pos: nat)
    requires pos <= |blob| && FindFrom(blob, pos).Ok?
    ensures Scanner.HeaderAt(blob, FindFrom(blob, pos).value)
    decreases |blob| - pos
  {
    var s := Scanner.ParseSection(blob, pos).value;
    FindFromStep(blob, pos, s);
    if IsManifest(s) {
      Scanner.ParseSectionHeader(blob, pos);
    } else {
      FindFromHeader(blob, s.end);
    }
  }

  /** The section Find returns is a well-formed header in the binary. */
  lemma FindHeader(blob: seq<Byte>)
    requires Find(blob).Ok?
    ensures Scanner.HeaderAt(blob, Find(blob).value)
  {
    FindFromHeader(blob, Scanner.PreambleSize);
  }

  /** `find_manifest_section`: the loop over the parser's payloads that
      skips everything but a custom section named "manifest-v0" and stops at
      the first one, or at the first parse error. */
  method FindManifestSection(blob: seq<Byte>) returns (r: Result<Scanner.Section>)
    ensures r == Find(blob)
  {
    if !Scanner.ValidPreamble(blob) {
      return Err(Malformed);
    }
    var pos := Scanner.PreambleSize;
    var manifestSection: Option<Scanner.Section> := None;
    while pos < |blob|
      invariant Scanner.PreambleSize <= pos <= |blob|
      invariant manifestSection == None
      invariant FindFrom(blob, pos) == Find(blob)
      decreases |blob| - pos
    {
      var payload := Scanner.ParseSection(blob, pos);
      if payload.Err? {
        return Err(payload.error);
      }
      var section := payload.value;
      FindFromStep(blob, pos, section);
      pos := section.end;
      if !section.CustomSection? {
        continue;
      }
      if section.name != ManifestSection {
        continue;
      }
      manifestSection := Some(section);
      break;
    }
    match manifestSection
    case None => r := Err(NotFound);
    case Some(section) => r := Ok(section);
  }

  /** `read_manifest` up to the JSON step: the data of the manifest section. */
  function ReadManifest(blob: seq<Byte>): (r: Result<seq<Byte>>)
    ensures r.Err? <==> Find(blob).Err?
    ensures r.Err? ==> r.error == Find(blob).error
    ensures r.Ok? ==> |r.value| <= Find(blob).value.end - Find(blob).value.start
  {
    match Find(blob)
    case Err(e) => Err(e)
    case Ok(s) =>
      FindBounds(blob, s);
      Ok(blob[s.dataOffset..s.end])
  }

  /** The width `remove_manifest` gives the header in front of the payload:
      one id byte and a varint as wide as the data's length. */
  function RemovalHeaderSize(dataLength: nat): (n: nat)
    ensures dataLength < 128 ==> n == 2
    ensures 128 <= dataLength < 16384 ==> n == 3
    ensures 16384 <= dataLength < 2097152 ==> n == 4
    ensures 2097152 <= dataLength < 268435456 ==> n == 5
  {
    HeaderSizeRanges(dataLength);
    1 + Leb128.Size(dataLength)
  }

  lemma HeaderSizeRanges(n: nat)
    ensures n < 128 ==> Leb128.Size(n) == 1
    ensures 128 <= n < 16384 ==> Leb128.Size(n) == 2
    ensures 16384 <= n < 2097152 ==> Leb128.Size(n) == 3
    ensures 2097152 <= n < 268435456 ==> Leb128.Size(n) == 4
  {
    assert Leb128.Pow128(1) == 128;
    assert Leb128.Pow128(2) == 16384;
    assert Leb128.Pow128(3) == 2097152;
    assert Leb128.Pow128(4) == 268435456;
    if n < 128 {
      Leb128.SizeOfRange(n, 1);
    } else if n < 16384 {
      Leb128.SizeOfRange(n, 2);
    } else if n < 2097152 {
      Leb128.SizeOfRange(n, 3);
    } else if n < 268435456 {
      Leb128.SizeOfRange(n, 4);
    }
  }

  /** The header width `remove_manifest` computes never reaches in front of
      the section's id byte: the data is no longer than the payload, and the
      size field of the payload is at least as wide as its shortest form. */
  lemma NoUnderflow(blob: seq<Byte>, s: Scanner.Section)
    requires s.CustomSection? && Scanner.HeaderAt(blob, s)
    ensures s.offset + RemovalHeaderSize(s.end - s.dataOffset) <= s.start
  {
    Leb128.DecodedWidth(blob, s.offset + 1, |blob|, 0);
    Leb128.SizeMonotone(s.end - s.dataOffset, s.end - s.start);
  }

  /** Where the parts of the manifest section lie, and that the removal
      width fits between its id byte and its payload. */
  lemma FindBounds(blob: seq<Byte>, s: Scanner.Section)
    requires Find(blob) == Ok(s)
    ensures s.offset < s.start <= s.dataOffset <= s.end <= |blob|
    ensures s.offset + RemovalHeaderSize(s.end - s.dataOffset) <= s.start
  {
    FindHeader(blob);
    NoUnderflow(blob, s);
  }

  /** blob without the bytes from cut up to end. */
  function Splice(blob: seq<Byte>, cut: nat, end: nat): (r: seq<Byte>)
    requires cut <= end <= |blob|
    ensures |r| == |blob| - (end - cut)
  {
    blob[..cut] + blob[end..]
  }

  /** Splice copies every byte outside the cut span, verbatim and in
      order: the bytes before cut stay where they are, the bytes from end
      on move down by the width of the span. */
  lemma SpliceKeeps(blob: seq<Byte>, cut: nat, end: nat)
    requires cut <= end <= |blob|
    ensures forall i :: 0 <= i < cut ==> Splice(blob, cut, end)[i] == blob[i]
    ensures forall i :: end <= i < |blob| ==> Splice(blob, cut, end)[i - (end - cut)] == blob[i]
  {
  }

  /** The bytes `remove_manifest` writes, as written: everything before
      the payload less the header width it computes from the data's length,
      then everything after the payload. */
  function Removed(blob: seq<Byte>): (r: Result<seq<Byte>>)
    ensures r.Err? <==> Find(blob).Err?
    ensures r.Err? ==> r.error == Find(blob).error
    ensures r.Ok? ==> |r.value| <= |blob| - (Find(blob).value.end - Find(blob).value.start)
  {
    match Find(blob)
    case Err(e) => Err(e)
    case Ok(s) =>
      FindBounds(blob, s);
      Ok(Splice(blob, s.start - RemovalHeaderSize(s.end - s.dataOffset), s.end))
  }

  /** Removed once the manifest section, its bounds and the cut are
      known. */
  lemma RemovedAt(blob: seq<Byte>, s: Scanner.Section, cut: nat)
    requires Find(blob) == Ok(s)
    requires s.start <= s.dataOffset <= s.end <= |blob|
    requires cut + RemovalHeaderSize(s.end - s.dataOffset) == s.start
    ensures Removed(blob) == Ok(Splice(blob, cut, s.end))
  {
    var x := s.start - RemovalHeaderSize(s.end - s.dataOffset);
    assert x == cut;
    assert Removed(blob) == Ok(Splice(blob, x, s.end));
  }

  /** The removal the tool evidently intends: the whole section, from its
      id byte to the end of its payload. */
  function RemovedCorrected(blob: seq<Byte>): (r: Result<seq<Byte>>)
    ensures r.Err? <==> Find(blob).Err?
    ensures r.Err? ==> r.error == Find(blob).error
    ensures r.Ok? ==> |r.value| == |blob| - (Find(blob).value.end - Find(blob).value.offset)
  {
    match Find(blob)
    case Err(e) => Err(e)
    case Ok(s) =>
      FindBounds(blob, s);
      Ok(Splice(blob, s.offset, s.end))
  }

  /** RemovedCorrected once the manifest section and its bounds are
      known. */
  lemma RemovedCorrectedAt(blob: seq<Byte>, s: Scanner.Section)
    requires Find(blob) == Ok(s)
    requires s.offset <= s.end <= |blob|
    ensures RemovedCorrected(blob) == Ok(Splice(blob, s.offset, s.end))
  {
  }

  /** The bytes `add-manifest` leaves in the output: the module, then the
      manifest record; TooLarge where the encoder cannot size the record. */
  function Added(moduleBytes: seq<Byte>, manifest: seq<Byte>): (r: Result<seq<Byte>>)
    ensures r.Err? <==> Encoder.CustomSectionRecord(ManifestSection, manifest).Err?
    ensures r.Err? ==> r.error == TooLarge
    ensures r.Ok? ==> |r.value| == |moduleBytes| + |Encoder.Record(ManifestSection, manifest)|
    ensures r.Ok? ==> r.value[..|moduleBytes|] == moduleBytes
    ensures r.Ok? ==> r.value[|moduleBytes|..] == Encoder.Record(ManifestSection, manifest)
  {
    match Encoder.CustomSectionRecord(ManifestSection, manifest)
    case Err(e) => Err(e)
    case Ok(record) => Ok(moduleBytes + record)
  }

  /** A file the tool writes, by its contents. */
  class OutputFile {
    var contents: seq<Byte>

    /** Opens the file with create and truncate: it starts empty. */
    constructor Create()
      ensures contents == []
    {
      contents := [];
    }

    /** `fs::copy`: the file starts as a copy of source. */
    constructor Copy(source: seq<Byte>)
      ensures contents == source
    {
      contents := source;
    }

    /** `write_all`: bytes go to the end of the file. */
    method WriteAll(bytes: seq<Byte>)
      modifies this
      ensures contents == old(contents) + bytes
    {
      contents := contents + bytes;
    }
  }

  /** `remove_manifest`: looks the section up, opens the output, then
      writes the prefix and the suffix. Returns what the output holds. */
  method RemoveManifest(blob: seq<Byte>) returns (r: Result<seq<Byte>>)
    ensures r == Removed(blob)
  {
    var manifestSection := FindManifestSection(blob);
    if manifestSection.Err? {
      return Err(manifestSection.error);
    }
    var section := manifestSection.value;
    FindBounds(blob, section);
    var moduleFile := new OutputFile.Create();
    var dataLength := section.end - section.dataOffset;
    var lengthSize := |Leb128.Encode(dataLength)|;
    var startOffset := 1 + lengthSize;
    assert startOffset == RemovalHeaderSize(dataLength);
    var cut := section.start - startOffset;
    var prefix := blob[..cut];
    var suffix := blob[section.end..];
    moduleFile.WriteAll(prefix);
    assert moduleFile.contents == prefix;
    moduleFile.WriteAll(suffix);
    assert moduleFile.contents == Splice(blob, cut, section.end);
    RemovedAt(blob, section, cut);
    return Ok(moduleFile.contents);
  }

  /** `write_manifest`: encodes the record into a buffer and appends the
      buffer to the file. When the record cannot be encoded the file is
      left as it was. */
  method WriteManifest(manifest: seq<Byte>, file: OutputFile) returns (r: Result<()>)
    modifies file
    ensures r.Ok? <==> Encoder.PayloadSize(ManifestSection, manifest) < Leb128.U32Limit
    ensures r.Err? ==> r.error == TooLarge && file.contents == old(file.contents)
    ensures r.Ok? ==> file.contents == old(file.contents) + Encoder.Record(ManifestSection, manifest)
  {
    var customSection := Encoder.CustomSectionRecord(ManifestSection, manifest);
    if customSection.Err? {
      return Err(customSection.error);
    }
    var buffer: seq<Byte> := [];
    buffer := buffer + customSection.value;
    file.WriteAll(buffer);
    return Ok(());
  }

  /** `add-manifest`: copies the module to the output, then appends the
      manifest record to it. Returns what the output holds. */
  method AddManifest(manifest: seq<Byte>, moduleBytes: seq<Byte>) returns (r: Result<seq<Byte>>)
    ensures r == Added(moduleBytes, manifest)
  {
    var output := new OutputFile.Copy(moduleBytes);
    var written := WriteManifest(manifest, output);
    if written.Err? {
      return Err(written.error);
    }
    return Ok(output.contents);
  }
}
