/** The top-level walk over a WebAssembly binary that the tool gets from the
    `wasmparser` crate (`Parser::new(0).parse_all(blob)`), reduced to what the
    manifest commands see: the preamble, then one section after another, each
    a one-byte id, a `u32` varint size and that many payload bytes. A custom
    section (id 0) is split further into its name, a varint-prefixed UTF-8
    string, and its data, the rest of the payload. The layout is that of
    sections 5.5.2 and 5.5.3 of the WebAssembly Core Specification. */
module Scanner {
  import opened Base
  import Leb128

  const Magic: seq<Byte> := [0x00, 0x61, 0x73, 0x6D]
  const ModuleVersion: seq<Byte> := [0x01, 0x00, 0x00, 0x00]
  /** Component-model encoding version 0x0d, layer 1. */
  const ComponentVersion: seq<Byte> := [0x0D, 0x00, 0x01, 0x00]
  const PreambleSize: nat := 8

  const CustomSectionId: Byte := 0
  /** The longest name the parser accepts. */
  const MaxStringSize: nat := 100000

  /** The magic number followed by a version the parser knows. */
  predicate ValidPreamble(blob: seq<Byte>): (ok: bool)
    ensures ok ==> |blob| >= PreambleSize && blob[0] == 0x00 && blob[1] == 0x61 && blob[2] == 0x73 && blob[3] == 0x6D
    ensures ok ==> blob[4] == 0x01 || blob[4] == 0x0D
  {
    && |blob| >= PreambleSize
    && blob[..4] == Magic
    && (blob[4..PreambleSize] == ModuleVersion || blob[4..PreambleSize] == ComponentVersion)
  }

  predicate IsContinuation(b: Byte) {
    0x80 <= b <= 0xBF
  }

  /** The number of bytes of the UTF-8 character that s starts with, or 0
      when s does not start with a well-formed character (an overlong form,
      a surrogate, a code point above U+10FFFF or a sequence cut short). */
  function CharWidth(s: seq<Byte>): (n: nat)
    requires |s| > 0
    ensures n <= |s| && n <= 4
    ensures s[0] < 0x80 ==> n == 1
  {
    var b := s[0];
    if b < 0x80 then 1
    else if 0xC2 <= b <= 0xDF then
      if |s| >= 2 && IsContinuation(s[1]) then 2 else 0
    else if 0xE0 <= b <= 0xEF then
      var lo := if b == 0xE0 then 0xA0 else 0x80;
      var hi := if b == 0xED then 0x9F else 0xBF;
      if |s| >= 3 && lo <= s[1] <= hi && IsContinuation(s[2]) then 3 else 0
    else if 0xF0 <= b <= 0xF4 then
      var lo := if b == 0xF0 then 0x90 else 0x80;
      var hi := if b == 0xF4 then 0x8F else 0xBF;
      if |s| >= 4 && lo <= s[1] <= hi && IsContinuation(s[2]) && IsContinuation(s[3]) then 4 else 0
    else 0
  }

  /** s is a well-formed UTF-8 string. */
  predicate ValidUtf8(s: seq<Byte>): (ok: bool)
    decreases |s|
  {
    s == [] || (CharWidth(s) > 0 && ValidUtf8(s[CharWidth(s)..]))
  }

  /** The bytes 0xC0, 0xC1 and 0xF5 to 0xFF never occur in a UTF-8 string. */
  lemma {:induction false} Utf8ExcludedBytes(s: seq<Byte>)
    requires ValidUtf8(s)
    ensures forall i :: 0 <= i < |s| ==> s[i] != 0xC0 && s[i] != 0xC1 && s[i] < 0xF5
    decreases |s|
  {
    if s != [] {
      var w := CharWidth(s);
      Utf8ExcludedBytes(s[w..]);
      forall i | 0 <= i < |s|
        ensures s[i] != 0xC0 && s[i] != 0xC1 && s[i] < 0xF5
      {
        if i >= w {
          assert s[i] == s[w..][i - w];
        }
      }
    }
  }

  /** Every ASCII string is a UTF-8 string. */
  lemma {:induction false} AsciiIsUtf8(s: seq<Byte>)
    requires forall i :: 0 <= i < |s| ==> s[i] < 0x80
    ensures ValidUtf8(s)
    decreases |s|
  {
    if s != [] {
      AsciiIsUtf8(s[1..]);
    }
  }

  /** Appending bytes to a binary does not change whether its preamble is
      valid. */
  lemma PreambleExtends(blob: seq<Byte>, t: seq<Byte>)
    requires |blob| >= PreambleSize
    ensures ValidPreamble(blob + t) == ValidPreamble(blob)
  {
    assert (blob + t)[..4] == blob[..4];
    assert (blob + t)[4..PreambleSize] == blob[4..PreambleSize];
  }

  /** One top-level section. `offset` is where its id byte is, `start` and
      `end` delimit its payload (the range the parser reports). A custom
      section also carries its name and the offset of its data, which runs
      from `dataOffset` to `end`. */
  datatype Section =
    | CustomSection(offset: nat, name: seq<Byte>, dataOffset: nat, start: nat, end: nat)
    | OtherSection(offset: nat, id: Byte, start: nat, end: nat)

  /** s is the section whose header begins at s.offset in blob: the id byte,
      a size varint that counts exactly the payload, and for a custom section
      a UTF-8 name that ends where the data begins. */
  predicate HeaderAt(blob: seq<Byte>, s: Section) {
    && s.offset < s.start <= s.end <= |blob|
    && Leb128.ReadVarU32(blob, s.offset + 1) == Some(Leb128.Decoded(s.end - s.start, s.start - s.offset - 1))
    && (blob[s.offset] == CustomSectionId <==> s.CustomSection?)
    && (s.OtherSection? ==> s.id == blob[s.offset])
    && (s.CustomSection? ==>
          && s.start + |s.name| < s.dataOffset <= s.end
          && blob[s.dataOffset - |s.name|..s.dataOffset] == s.name
          && ValidUtf8(s.name))
  }

  /** The payload of the custom section whose header is at pos, split into
      name and data, as the custom-section reader does it. */
  function ParseCustom(blob: seq<Byte>, pos: nat, start: nat, end: nat): (r: Result<Section>)
    requires pos < start <= end <= |blob|
    ensures r.Err? ==> r.error == Malformed
    ensures r.Ok? ==> r.value.CustomSection? && r.value.offset == pos
    ensures r.Ok? ==> r.value.start == start && r.value.end == end && start < r.value.dataOffset <= end
    ensures r.Ok? ==> start + |r.value.name| < r.value.dataOffset && ValidUtf8(r.value.name)
    ensures r.Ok? ==> blob[r.value.dataOffset - |r.value.name|..r.value.dataOffset] == r.value.name
  {
    match Leb128.DecodeAt(blob, start, end, 0)
    case None => Err(Malformed)
    case Some(nameLength) =>
      var nameStart := start + nameLength.width;
      if nameLength.value > MaxStringSize || nameStart + nameLength.value > end then Err(Malformed)
      else
        var name := blob[nameStart..nameStart + nameLength.value];
        if !ValidUtf8(name) then Err(Malformed)
        else Ok(CustomSection(pos, name, nameStart + nameLength.value, start, end))
  }

  /** One step of the walk: the section whose header begins at pos. */
  function ParseSection(blob: seq<Byte>, pos: nat): (r: Result<Section>)
    requires pos < |blob|
    ensures r.Err? ==> r.error == Malformed
    ensures r.Ok? ==> r.value.offset == pos && pos < r.value.start <= r.value.end <= |blob|
  {
    ParseSized(blob, pos, Leb128.ReadVarU32(blob, pos + 1))
  }

  /** The section whose id byte is at pos, once its size field has been
      read (None when it does not decode). */
  function ParseSized(blob: seq<Byte>, pos: nat, size: Option<Leb128.Decoded>): (r: Result<Section>)
    requires pos < |blob|
    ensures r.Err? ==> r.error == Malformed
    ensures size.None? ==> r.Err?
    ensures size.Some? && pos + 1 + size.value.width + size.value.value > |blob| ==> r.Err?
  {
    match size
    case None => Err(Malformed)
    case Some(size) =>
      var start := pos + 1 + size.width;
      if start + size.value > |blob| then Err(Malformed)
      else if blob[pos] != CustomSectionId then Ok(OtherSection(pos, blob[pos], start, start + size.value))
      else ParseCustom(blob, pos, start, start + size.value)
  }

  /** The sections ss lie back to back, each a well-formed record, the first
      at `from` and the last ending at `to`. */
  predicate Contiguous(blob: seq<Byte>, ss: seq<Section>, from: nat, to: nat)
    decreases |ss|
  {
    if ss == [] then from == to
    else ss[0].offset == from && HeaderAt(blob, ss[0]) && Contiguous(blob, ss[1..], ss[0].end, to)
  }

  /** Every section from pos to the end of blob, or the parse error that
      stops the walk. */
  function SectionsFrom(blob: seq<Byte>, pos: nat): (r: Result<seq<Section>>)
    requires pos <= |blob|
    ensures r.Err? ==> r.error == Malformed
    decreases |blob| - pos
  {
    if pos == |blob| then Ok([])
    else
      match ParseSection(blob, pos)
      case Err(e) => Err(e)
      case Ok(s) =>
        match SectionsFrom(blob, s.end)
        case Err(e) => Err(e)
        case Ok(rest) => Ok([s] + rest)
  }

  /** The whole section stream of a binary. */
  function Sections(blob: seq<Byte>): (r: Result<seq<Section>>)
    ensures !ValidPreamble(blob) ==> r == Err(Malformed)
    ensures ValidPreamble(blob) ==> r == SectionsFrom(blob, PreambleSize)
  {
    if ValidPreamble(blob) then SectionsFrom(blob, PreambleSize) else Err(Malformed)
  }

  /** Reading a custom-section payload only looks inside the payload. */
  lemma ParseCustomExtends(blob: seq<Byte>, t: seq<Byte>, pos: nat, start: nat, end: nat)
    requires pos < start <= end <= |blob|
    ensures ParseCustom(blob + t, pos, start, end) == ParseCustom(blob, pos, start, end)
  {
    Leb128.DecodeAppend(blob, t, start, end, 0);
    var nameLength := Leb128.DecodeAt(blob, start, end, 0);
    if nameLength.Some? {
      var nameStart := start + nameLength.value.width;
      var nameEnd := nameStart + nameLength.value.value;
      if nameEnd <= end {
        SliceAppend(blob, t, nameStart, nameEnd);
      }
    }
  }

  /** A slice of a binary is unchanged by bytes appended after it. */
  lemma SliceAppend(blob: seq<Byte>, t: seq<Byte>, a: nat, b: nat)
    requires a <= b <= |blob|
    ensures (blob + t)[a..b] == blob[a..b]
  {
  }

  /** ParseSection once its size varint is known to decode and fit: the
      payload runs from start to end. */
  lemma ParseSectionUnfold(blob: seq<Byte>, pos: nat, size: Leb128.Decoded, start: nat, end: nat)
    requires pos < |blob| && Leb128.ReadVarU32(blob, pos + 1) == Some(size)
    requires start == pos + 1 + size.width && end == start + size.value && end <= |blob|
    ensures blob[pos] != CustomSectionId ==> ParseSection(blob, pos) == Ok(OtherSection(pos, blob[pos], start, end))
    ensures blob[pos] == CustomSectionId ==> ParseSection(blob, pos) == ParseCustom(blob, pos, start, end)
  {
    ParseSectionSized(blob, pos, size);
    if blob[pos] == CustomSectionId {
      ParseSizedCustom(blob, pos, size, start, end);
    } else {
      ParseSizedOther(blob, pos, size, start, end);
    }
  }

  /** ParseSection hands the decoded size field to ParseSized. */
  lemma ParseSectionSized(blob: seq<Byte>, pos: nat, size: Leb128.Decoded)
    requires pos < |blob| && Leb128.ReadVarU32(blob, pos + 1) == Some(size)
    ensures ParseSection(blob, pos) == ParseSized(blob, pos, Some(size))
  {
  }

  /** ParseSized on a custom section whose payload fits. */
  lemma ParseSizedCustom(blob: seq<Byte>, pos: nat, size: Leb128.Decoded, start: nat, end: nat)
    requires pos < |blob| && size.width >= 1 && start == pos + 1 + size.width && end == start + size.value && end <= |blob|
    requires blob[pos] == CustomSectionId
    ensures ParseSized(blob, pos, Some(size)) == ParseCustom(blob, pos, start, end)
  {
  }

  /** ParseSized on any other section whose payload fits. */
  lemma ParseSizedOther(blob: seq<Byte>, pos: nat, size: Leb128.Decoded, start: nat, end: nat)
    requires pos < |blob| && start == pos + 1 + size.width && end == start + size.value && end <= |blob|
    requires blob[pos] != CustomSectionId
    ensures ParseSized(blob, pos, Some(size)) == Ok(OtherSection(pos, blob[pos], start, end))
  {
  }

  /** ParseCustom once the name's length is known to decode and the name,
      from nameStart to nameEnd, to fit the payload. */
  lemma ParseCustomUnfold(blob: seq<Byte>, pos: nat, start: nat, end: nat, nameLength: Leb128.Decoded, nameStart: nat, nameEnd: nat)
    requires pos < start <= end <= |blob|
    requires Leb128.DecodeAt(blob, start, end, 0) == Some(nameLength)
    requires nameStart == start + nameLength.width && nameEnd == nameStart + nameLength.value
    requires nameLength.value <= MaxStringSize && nameEnd <= end
    requires ValidUtf8(blob[nameStart..nameEnd])
    ensures ParseCustom(blob, pos, start, end) == Ok(CustomSection(pos, blob[nameStart..nameEnd], nameEnd, start, end))
  {
  }

  /** Every section the walk accepts is a well-formed header at its
      offset: the size field counts exactly its payload, and a custom
      section's name is read from the bytes in front of its data. */
  lemma ParseSectionHeader(blob: seq<Byte>, pos: nat)
    requires pos < |blob| && ParseSection(blob, pos).Ok?
    ensures HeaderAt(blob, ParseSection(blob, pos).value)
  {
    var size := Leb128.ReadVarU32(blob, pos + 1).value;
    var start := pos + 1 + size.width;
    var end := start + size.value;
    ParseSectionUnfold(blob, pos, size, start, end);
    var s := ParseSection(blob, pos).value;
    assert s.start == start && s.end == end;
    if blob[pos] == CustomSectionId {
      assert s == ParseCustom(blob, pos, start, end).value;
    } else {
      assert s == OtherSection(pos, blob[pos], start, end);
    }
  }

  /** The sections the walk returns lie back to back from pos to the end of
      the binary, each a well-formed header. */
  lemma {:induction false} SectionsFromContiguous(blob: seq<Byte>, pos: nat)
    requires pos <= |blob| && SectionsFrom(blob, pos).Ok?
    ensures Contiguous(blob, SectionsFrom(blob, pos).value, pos, |blob|)
    decreases |blob| - pos
  {
    if pos < |blob| {
      var s := ParseSection(blob, pos).value;
      ParseSectionHeader(blob, pos);
      SectionsFromContiguous(blob, s.end);
      SectionsFromStep(blob, pos, s);
      var ss := SectionsFrom(blob, pos).value;
      assert ss[1..] == SectionsFrom(blob, s.end).value;
    }
  }

  /** A section that parses still parses the same way, at the same offsets,
      once bytes are appended to the binary. */
  lemma ParseSectionExtends(blob: seq<Byte>, t: seq<Byte>, pos: nat)
    requires pos < |blob| && ParseSection(blob, pos).Ok?
    ensures ParseSection(blob + t, pos) == ParseSection(blob, pos)
  {
    var s := ParseSection(blob, pos).value;
    var size := Leb128.Decoded(s.end - s.start, s.start - pos - 1);
    Leb128.ReadVarU32Extends(blob, t, pos + 1);
    assert (blob + t)[pos] == blob[pos];
    var extended := ParseSection(blob + t, pos);
    if blob[pos] == CustomSectionId {
      assert extended == ParseCustom(blob + t, pos, s.start, s.end) by {
        ParseSectionUnfold(blob + t, pos, size, s.start, s.end);
      }
      assert s == ParseCustom(blob, pos, s.start, s.end).value by {
        ParseSectionUnfold(blob, pos, size, s.start, s.end);
      }
      ParseCustomExtends(blob, t, pos, s.start, s.end);
    } else {
      ParseSectionUnfold(blob + t, pos, size, s.start, s.end);
    }
  }

  /** The size field of a section that parses: its value is the payload
      length and it fills the bytes between the id byte and the payload. */
  lemma ParseSectionSize(blob: seq<Byte>, pos: nat)
    requires pos < |blob| && ParseSection(blob, pos).Ok?
    ensures var s := ParseSection(blob, pos).value;
      Leb128.ReadVarU32(blob, pos + 1) == Some(Leb128.Decoded(s.end - s.start, s.start - pos - 1))
  {
    ParseSectionHeader(blob, pos);
  }

  /** A custom payload is read the same way from any prefix of the binary
      that still holds it. */
  lemma ParseCustomTruncate(blob: seq<Byte>, pos: nat, start: nat, end: nat, e: nat)
    requires pos < start <= end <= e <= |blob|
    ensures ParseCustom(blob[..e], pos, start, end) == ParseCustom(blob, pos, start, end)
  {
    var prefix := blob[..e];
    var tail := blob[e..];
    ParseCustomExtends(prefix, tail, pos, start, end);
    assert prefix + tail == blob;
  }

  /** A section whose size is known is read the same way from any prefix of
      the binary that still holds its payload. */
  lemma ParseSizedTruncate(blob: seq<Byte>, pos: nat, size: Leb128.Decoded, e: nat)
    requires size.width >= 1 && pos + 1 + size.width + size.value <= e <= |blob| && pos < e
    ensures ParseSized(blob[..e], pos, Some(size)) == ParseSized(blob, pos, Some(size))
  {
    var prefix := blob[..e];
    var start := pos + 1 + size.width;
    var end := start + size.value;
    assert prefix[pos] == blob[pos];
    if blob[pos] == CustomSectionId {
      ParseSizedCustom(prefix, pos, size, start, end);
      ParseSizedCustom(blob, pos, size, start, end);
      ParseCustomTruncate(blob, pos, start, end, e);
    } else {
      ParseSizedOther(prefix, pos, size, start, end);
      ParseSizedOther(blob, pos, size, start, end);
    }
  }

  /** A section that parses is read the same way from any prefix of the
      binary that still holds its payload: the walk reads nothing past the
      end of a section. */
  lemma ParseSectionTruncate(blob: seq<Byte>, pos: nat, e: nat)
    requires pos < |blob| && ParseSection(blob, pos).Ok? && ParseSection(blob, pos).value.end <= e <= |blob|
    ensures ParseSection(blob[..e], pos) == ParseSection(blob, pos)
  {
    var s := ParseSection(blob, pos).value;
    var size := Leb128.Decoded(s.end - s.start, s.start - pos - 1);
    ParseSectionSize(blob, pos);
    Leb128.ReadVarU32Truncate(blob, pos + 1, e);
    ParseSectionSized(blob, pos, size);
    ParseSectionSized(blob[..e], pos, size);
    ParseSizedTruncate(blob, pos, size, e);
  }

  /** SectionsFrom once the section at pos is known. */
  lemma SectionsFromStep(blob: seq<Byte>, pos: nat, s: Section)
    requires pos < |blob| && ParseSection(blob, pos) == Ok(s)
    ensures SectionsFrom(blob, pos) ==
      if SectionsFrom(blob, s.end).Err? then Err(Malformed) else Ok([s] + SectionsFrom(blob, s.end).value)
  {
  }

  /** A section that ends the binary is the last one of the walk. */
  lemma SectionsFromLast(blob: seq<Byte>, pos: nat, s: Section)
    requires pos < |blob| && ParseSection(blob, pos) == Ok(s) && s.end == |blob|
    ensures SectionsFrom(blob, pos) == Ok([s])
  {
    SectionsFromStep(blob, pos, s);
    assert SectionsFrom(blob, s.end) == Ok([]);
    assert [s] + [] == [s];
  }

  /** The inductive step of SectionsFromAppend when the appended bytes do
      not parse. */
  lemma AppendStepErr(blob: seq<Byte>, t: seq<Byte>, pos: nat, s: Section)
    requires pos < |blob| && ParseSection(blob + t, pos) == Ok(s) && s.end <= |blob|
    requires SectionsFrom(blob + t, s.end) == Err(Malformed)
    ensures SectionsFrom(blob + t, pos) == Err(Malformed)
  {
    SectionsFromStep(blob + t, pos, s);
  }

  /** The inductive step of SectionsFromAppend when they do. */
  lemma AppendStepOk(blob: seq<Byte>, t: seq<Byte>, pos: nat, s: Section, rest: seq<Section>, later: seq<Section>)
    requires pos < |blob| && ParseSection(blob, pos) == Ok(s) && ParseSection(blob + t, pos) == Ok(s)
    requires s.end <= |blob| && SectionsFrom(blob, s.end) == Ok(rest)
    requires SectionsFrom(blob + t, s.end) == Ok(rest + later)
    ensures SectionsFrom(blob + t, pos) == Ok(SectionsFrom(blob, pos).value + later)
  {
    assert SectionsFrom(blob, pos) == Ok([s] + rest) by {
      SectionsFromStep(blob, pos, s);
    }
    assert SectionsFrom(blob + t, pos) == Ok([s] + (rest + later)) by {
      SectionsFromStep(blob + t, pos, s);
    }
    ConcatAssociative([s], rest, later);
  }

  lemma ConcatAssociative<T>(a: seq<T>, b: seq<T>, c: seq<T>)
    ensures a + (b + c) == (a + b) + c
  {
  }

  /** Appending bytes to a binary whose sections from pos parse leaves those
      sections in place and continues the walk over the appended bytes. */
  lemma {:induction false} SectionsFromAppend(blob: seq<Byte>, t: seq<Byte>, pos: nat)
    requires pos <= |blob| && SectionsFrom(blob, pos).Ok?
    ensures SectionsFrom(blob + t, |blob|).Err? ==> SectionsFrom(blob + t, pos) == Err(Malformed)
    ensures SectionsFrom(blob + t, |blob|).Ok? ==>
      SectionsFrom(blob + t, pos) == Ok(SectionsFrom(blob, pos).value + SectionsFrom(blob + t, |blob|).value)
    decreases |blob| - pos
  {
    if pos == |blob| {
      var later := SectionsFrom(blob + t, |blob|);
      assert SectionsFrom(blob, pos) == Ok([]);
      if later.Ok? {
        assert [] + later.value == later.value;
      }
    } else {
      var s := ParseSection(blob, pos).value;
      ParseSectionExtends(blob, t, pos);
      SectionsFromAppend(blob, t, s.end);
      var later := SectionsFrom(blob + t, |blob|);
      if later.Err? {
        AppendStepErr(blob, t, pos, s);
      } else {
        AppendStepOk(blob, t, pos, s, SectionsFrom(blob, s.end).value, later.value);
      }
    }
  }
}
