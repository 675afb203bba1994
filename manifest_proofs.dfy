/** What the manifest commands promise, proved about the model: the lookup
    returns the first manifest section of the stream, adding appends exactly
    one record that reads back as the manifest, and removing after adding
    restores the module only when the size field of the record is as wide as
    the varint of the data's length. */
module ManifestProofs {
  import opened Base
  import Leb128
  import Scanner
  import Encoder
  import opened MrfTool

  /** The index of the first manifest section of ss, |ss| when there is
      none. */
  function FirstManifest(ss: seq<Scanner.Section>): (k: nat)
    ensures k <= |ss|
    ensures k < |ss| ==> IsManifest(ss[k])
    ensures forall j :: 0 <= j < k ==> !IsManifest(ss[j])
    decreases |ss|
  {
    if ss == [] || IsManifest(ss[0]) then 0 else 1 + FirstManifest(ss[1..])
  }

  /** The first manifest position of a sequence, by its head. */
  lemma FirstManifestCons(s: Scanner.Section, rest: seq<Scanner.Section>)
    ensures FirstManifest([s] + rest) == if IsManifest(s) then 0 else 1 + FirstManifest(rest)
  {
    assert ([s] + rest)[1..] == rest;
  }

  /** Over a stream that parses to ss, the lookup returns the first
      manifest section of ss, and NotFound when ss has none: other sections,
      custom or not, are skipped. */
  lemma {:induction false} FindFromIsFirstMatch(blob: seq<Byte>, pos: nat, ss: seq<Scanner.Section>)
    requires pos <= |blob| && Scanner.SectionsFrom(blob, pos) == Ok(ss)
    ensures FirstManifest(ss) < |ss| ==> FindFrom(blob, pos) == Ok(ss[FirstManifest(ss)])
    ensures FirstManifest(ss) == |ss| ==> FindFrom(blob, pos) == Err(NotFound)
    decreases |blob| - pos
  {
    if pos < |blob| {
      var s := Scanner.ParseSection(blob, pos).value;
      Scanner.SectionsFromStep(blob, pos, s);
      var rest := Scanner.SectionsFrom(blob, s.end).value;
      assert ss == [s] + rest;
      FirstManifestCons(s, rest);
      FindFromStep(blob, pos, s);
      if !IsManifest(s) {
        FindFromIsFirstMatch(blob, s.end, rest);
      }
    }
  }

  /** The same for a whole binary. */
  lemma FindIsFirstMatch(blob: seq<Byte>, ss: seq<Scanner.Section>)
    requires Scanner.Sections(blob) == Ok(ss)
    ensures FirstManifest(ss) < |ss| ==> Find(blob) == Ok(ss[FirstManifest(ss)])
    ensures FirstManifest(ss) == |ss| ==> Find(blob) == Err(NotFound)
  {
    FindFromIsFirstMatch(blob, Scanner.PreambleSize, ss);
  }

  /** NotFound is only reported after the whole stream has parsed without
      a manifest section. */
  lemma {:induction false} FindFromNotFound(blob: seq<Byte>, pos: nat)
    requires pos <= |blob| && FindFrom(blob, pos) == Err(NotFound)
    ensures Scanner.SectionsFrom(blob, pos).Ok?
    ensures FirstManifest(Scanner.SectionsFrom(blob, pos).value) == |Scanner.SectionsFrom(blob, pos).value|
    decreases |blob| - pos
  {
    if pos < |blob| {
      var s := Scanner.ParseSection(blob, pos).value;
      FindFromStep(blob, pos, s);
      FindFromNotFound(blob, s.end);
      Scanner.SectionsFromStep(blob, pos, s);
      var rest := Scanner.SectionsFrom(blob, s.end).value;
      var ss := Scanner.SectionsFrom(blob, pos).value;
      assert ss == [s] + rest;
      assert ss[1..] == rest;
    }
  }

  /** The lookup's errors: NotFound means the stream is well formed and
      holds no manifest section; a stream that does not parse yields either
      the manifest section in front of the bad bytes or a parse error, never
      NotFound. */
  lemma FindErrors(blob: seq<Byte>)
    ensures Find(blob) == Err(NotFound) ==>
      && Scanner.Sections(blob).Ok?
      && forall i :: 0 <= i < |Scanner.Sections(blob).value| ==> !IsManifest(Scanner.Sections(blob).value[i])
    ensures Scanner.Sections(blob).Err? ==> Find(blob).Ok? || Find(blob) == Err(Malformed)
  {
    if Find(blob) == Err(NotFound) {
      FindFromNotFound(blob, Scanner.PreambleSize);
    }
  }

  /** The lookup stops at the first manifest section even when the bytes
      after it do not parse: the walk up to the end of the section it returns
      is well formed, ends with that section and holds no earlier one. */
  lemma {:induction false} FindFromPrefix(blob: seq<Byte>, pos: nat)
    requires pos <= |blob| && FindFrom(blob, pos).Ok?
    ensures var s := FindFrom(blob, pos).value;
      && s.offset < s.end
      && var walk := Scanner.SectionsFrom(blob[..s.end], pos);
      && walk.Ok? && |walk.value| > 0
      && walk.value[|walk.value| - 1] == s
      && FirstManifest(walk.value) == |walk.value| - 1
    decreases |blob| - pos
  {
    var s := FindFrom(blob, pos).value;
    var t := Scanner.ParseSection(blob, pos).value;
    FindFromStep(blob, pos, t);
    if IsManifest(t) {
      assert t == s;
      var prefix := blob[..s.end];
      Scanner.ParseSectionTruncate(blob, pos, s.end);
      Scanner.SectionsFromLast(prefix, pos, t);
    } else {
      assert FindFrom(blob, t.end) == Ok(s);
      FindFromPrefix(blob, t.end);
      assert t.end <= s.offset < s.end;
      var prefix := blob[..s.end];
      Scanner.ParseSectionTruncate(blob, pos, s.end);
      var rest := Scanner.SectionsFrom(prefix, t.end).value;
      Scanner.SectionsFromStep(prefix, pos, t);
      var ss := Scanner.SectionsFrom(prefix, pos).value;
      assert ss == [t] + rest;
      assert ss[1..] == rest;
      assert ss[|ss| - 1] == rest[|rest| - 1];
    }
  }

  /** The same for a whole binary: whatever follows it, the section the
      lookup returns ends a well-formed stream in which it is the first
      manifest section. */
  lemma FindPrefix(blob: seq<Byte>, s: Scanner.Section)
    requires Find(blob) == Ok(s)
    ensures s.end <= |blob|
    ensures var walk := Scanner.Sections(blob[..s.end]);
      && walk.Ok? && |walk.value| > 0
      && walk.value[|walk.value| - 1] == s
      && FirstManifest(walk.value) == |walk.value| - 1
  {
    assert Scanner.ValidPreamble(blob) && FindFrom(blob, Scanner.PreambleSize) == Ok(s);
    FindBounds(blob, s);
    var prefix := blob[..s.end];
    assert Scanner.ValidPreamble(prefix) by {
      assert prefix + blob[s.end..] == blob;
      Scanner.PreambleExtends(prefix, blob[s.end..]);
    }
    FindFromPrefix(blob, Scanner.PreambleSize);
  }

  /** The lookup reads nothing after the first manifest section: appended
      bytes do not change what it finds. */
  lemma {:induction false} FindFromExtends(blob: seq<Byte>, t: seq<Byte>, pos: nat)
    requires pos <= |blob| && FindFrom(blob, pos).Ok?
    ensures FindFrom(blob + t, pos) == FindFrom(blob, pos)
    decreases |blob| - pos
  {
    var s := Scanner.ParseSection(blob, pos).value;
    Scanner.ParseSectionExtends(blob, t, pos);
    FindFromStep(blob, pos, s);
    FindFromStep(blob + t, pos, s);
    if !IsManifest(s) {
      FindFromExtends(blob, t, s.end);
    }
  }

  /** A lookup that runs to the end of a binary without a match goes on
      over bytes appended to it. */
  lemma {:induction false} FindFromSkips(blob: seq<Byte>, t: seq<Byte>, pos: nat)
    requires pos <= |blob| && FindFrom(blob, pos) == Err(NotFound)
    ensures FindFrom(blob + t, pos) == FindFrom(blob + t, |blob|)
    decreases |blob| - pos
  {
    if pos < |blob| {
      var s := Scanner.ParseSection(blob, pos).value;
      Scanner.ParseSectionExtends(blob, t, pos);
      FindFromStep(blob, pos, s);
      FindFromStep(blob + t, pos, s);
      FindFromSkips(blob, t, s.end);
    }
  }

  /** Bytes appended to a binary with a manifest section do not change the
      section the lookup finds: adding a second manifest leaves the first
      one in force. */
  lemma FindExtends(blob: seq<Byte>, t: seq<Byte>)
    requires Find(blob).Ok?
    ensures Find(blob + t) == Find(blob)
  {
    Scanner.PreambleExtends(blob, t);
    FindFromExtends(blob, t, Scanner.PreambleSize);
  }

  /** "manifest-v0" is ASCII, hence a UTF-8 name the parser accepts. */
  lemma ManifestNameIsUtf8()
    ensures Scanner.ValidUtf8(ManifestSection)
  {
    var name := ManifestSection;
    assert forall i :: 0 <= i < |name| ==> name[i] < 0x80;
    Scanner.AsciiIsUtf8(name);
  }

  /** The size field of the manifest record counts the one-byte name
      length, the 11 name bytes and the data. */
  lemma ManifestPayloadSize(data: seq<Byte>)
    ensures Encoder.PayloadSize(ManifestSection, data) == |data| + 12
  {
    assert Leb128.Size(11) == 1;
  }

  /** The record `write_manifest` builds: the id byte 0, the size
      12 + |data| as a varint, the name's length 11 as a one-byte varint, the
      name and the data; it can be built exactly when its size fits a u32. */
  lemma ManifestRecord(data: seq<Byte>)
    ensures Encoder.Record(ManifestSection, data) == [0x00] + Leb128.Encode(|data| + 12) + [0x0B] + ManifestSection + data
    ensures Encoder.CustomSectionRecord(ManifestSection, data).Ok? <==> |data| + 12 < Leb128.U32Limit
  {
    ManifestPayloadSize(data);
    assert Leb128.Encode(11) == [0x0B];
  }

  /** What add-manifest leaves in the output: the module followed by the
      manifest record, whose size fits a u32. */
  lemma AddedRecord(moduleBytes: seq<Byte>, data: seq<Byte>, out: seq<Byte>)
    requires Added(moduleBytes, data) == Ok(out)
    ensures |data| + 12 < Leb128.U32Limit
    ensures out == moduleBytes + Encoder.Record(ManifestSection, data)
  {
    ManifestPayloadSize(data);
  }

  /** The manifest record appended to a module parses as a manifest
      section right after the module, whose data is the data given. */
  lemma ManifestParsesAt(moduleBytes: seq<Byte>, data: seq<Byte>, out: seq<Byte>, start: nat, dataOffset: nat, end: nat)
    requires |data| + 12 < Leb128.U32Limit && out == moduleBytes + Encoder.Record(ManifestSection, data)
    requires start == |moduleBytes| + 1 + Leb128.Size(|data| + 12) && dataOffset == start + 12 && end == dataOffset + |data|
    ensures end == |out|
    ensures Scanner.ParseSection(out, |moduleBytes|) == Ok(Scanner.CustomSection(|moduleBytes|, ManifestSection, dataOffset, start, end))
    ensures out[dataOffset..end] == data
  {
    ManifestNameIsUtf8();
    ShortNameRecordParsesAt(moduleBytes, ManifestSection, data, out, start, dataOffset, end);
  }

  /** ManifestParsesAt for any UTF-8 name of 11 bytes. */
  lemma ShortNameRecordParsesAt(moduleBytes: seq<Byte>, name: seq<Byte>, data: seq<Byte>, out: seq<Byte>, start: nat, dataOffset: nat, end: nat)
    requires |name| == 11 && Scanner.ValidUtf8(name)
    requires |data| + 12 < Leb128.U32Limit && out == moduleBytes + Encoder.Record(name, data)
    requires start == |moduleBytes| + 1 + Leb128.Size(|data| + 12) && dataOffset == start + 12 && end == dataOffset + |data|
    ensures end == |out|
    ensures Scanner.ParseSection(out, |moduleBytes|) == Ok(Scanner.CustomSection(|moduleBytes|, name, dataOffset, start, end))
    ensures out[dataOffset..end] == data
  {
    assert Leb128.Size(|name|) == 1;
    assert Encoder.PayloadSize(name, data) == |data| + 12;
    Encoder.RecordParses(moduleBytes, name, data, [], start, dataOffset, end);
    assert moduleBytes + Encoder.Record(name, data) + [] == out;
  }

  /** add-manifest on a module without a manifest section: the output's
      lookup finds the appended record, right after the module, and reads
      back the data it was given. */
  lemma AddThenFind(moduleBytes: seq<Byte>, data: seq<Byte>, out: seq<Byte>, start: nat, dataOffset: nat, end: nat)
    requires Find(moduleBytes) == Err(NotFound) && Added(moduleBytes, data) == Ok(out)
    requires start == |moduleBytes| + 1 + Leb128.Size(|data| + 12) && dataOffset == start + 12 && end == dataOffset + |data|
    ensures end == |out|
    ensures Find(out) == Ok(Scanner.CustomSection(|moduleBytes|, ManifestSection, dataOffset, start, end))
    ensures ReadManifest(out) == Ok(data)
  {
    AddedRecord(moduleBytes, data, out);
    var record := Encoder.Record(ManifestSection, data);
    ManifestParsesAt(moduleBytes, data, out, start, dataOffset, end);
    var section := Scanner.CustomSection(|moduleBytes|, ManifestSection, dataOffset, start, end);
    FindFromSkips(moduleBytes, record, Scanner.PreambleSize);
    FindFromStep(out, |moduleBytes|, section);
    Scanner.PreambleExtends(moduleBytes, record);
  }

  /** add-manifest keeps every section of a module that parses and appends
      one manifest section after them. */
  lemma AddAppendsSection(moduleBytes: seq<Byte>, data: seq<Byte>, out: seq<Byte>, ss: seq<Scanner.Section>, start: nat, dataOffset: nat, end: nat)
    requires Scanner.Sections(moduleBytes) == Ok(ss) && Added(moduleBytes, data) == Ok(out)
    requires start == |moduleBytes| + 1 + Leb128.Size(|data| + 12) && dataOffset == start + 12 && end == dataOffset + |data|
    ensures Scanner.Sections(out) == Ok(ss + [Scanner.CustomSection(|moduleBytes|, ManifestSection, dataOffset, start, end)])
  {
    AddedRecord(moduleBytes, data, out);
    var record := Encoder.Record(ManifestSection, data);
    ManifestParsesAt(moduleBytes, data, out, start, dataOffset, end);
    var section := Scanner.CustomSection(|moduleBytes|, ManifestSection, dataOffset, start, end);
    Scanner.SectionsFromLast(out, |moduleBytes|, section);
    Scanner.SectionsFromAppend(moduleBytes, record, Scanner.PreambleSize);
    Scanner.PreambleExtends(moduleBytes, record);
  }

  /** The output of add-manifest starts with the module and then the
      record's id byte 0. */
  lemma AddedFront(moduleBytes: seq<Byte>, data: seq<Byte>, out: seq<Byte>, here: nat, next: nat)
    requires Added(moduleBytes, data) == Ok(out) && here == |moduleBytes| && next == here + 1
    ensures next <= |out|
    ensures out[..here] == moduleBytes
    ensures out[..next] == moduleBytes + [0x00]
  {
    AddedRecord(moduleBytes, data, out);
    var record := Encoder.Record(ManifestSection, data);
    assert record[0] == Scanner.CustomSectionId;
    assert out[..next] == moduleBytes + [record[0]];
  }

  /** Splicing out a span that reaches the end keeps the bytes in front. */
  lemma SpliceToEnd(blob: seq<Byte>, cut: nat, end: nat)
    requires cut <= end == |blob|
    ensures Splice(blob, cut, end) == blob[..cut]
  {
    assert blob[end..] == [];
  }

  /** What remove-manifest writes for the output of add-manifest: the
      bytes in front of the cut, which lies past the module by the difference
      of the two varint widths. */
  lemma RemovedAfterAddIsPrefix(moduleBytes: seq<Byte>, data: seq<Byte>, out: seq<Byte>, cut: nat)
    requires Find(moduleBytes) == Err(NotFound) && Added(moduleBytes, data) == Ok(out)
    requires cut == |moduleBytes| + Leb128.Size(|data| + 12) - Leb128.Size(|data|)
    ensures cut <= |out|
    ensures Removed(out) == Ok(out[..cut])
  {
    var start := |moduleBytes| + 1 + Leb128.Size(|data| + 12);
    var dataOffset := start + 12;
    var end := dataOffset + |data|;
    AddThenFind(moduleBytes, data, out, start, dataOffset, end);
    var section := Scanner.CustomSection(|moduleBytes|, ManifestSection, dataOffset, start, end);
    Leb128.SizeMonotone(|data|, |data| + 12);
    assert section.end - section.dataOffset == |data|;
    assert cut + RemovalHeaderSize(|data|) == start;
    RemovedAt(out, section, cut);
    SpliceToEnd(out, cut, end);
  }

  /** remove-manifest after add-manifest, as written: the module comes back
      exactly when the data's length and the record's size need varints of
      the same width; otherwise the record's id byte 0 is left behind. */
  lemma RemoveAfterAdd(moduleBytes: seq<Byte>, data: seq<Byte>, out: seq<Byte>)
    requires Find(moduleBytes) == Err(NotFound) && Added(moduleBytes, data) == Ok(out)
    ensures Leb128.Size(|data|) == Leb128.Size(|data| + 12) ==> Removed(out) == Ok(moduleBytes)
    ensures Leb128.Size(|data|) != Leb128.Size(|data| + 12) ==> Removed(out) == Ok(moduleBytes + [0x00])
  {
    if Leb128.Size(|data|) == Leb128.Size(|data| + 12) {
      RemoveAfterAddSameWidth(moduleBytes, data, out);
    } else {
      RemoveAfterAddWider(moduleBytes, data, out);
    }
  }

  /** RemoveAfterAdd when the two widths agree. */
  lemma RemoveAfterAddSameWidth(moduleBytes: seq<Byte>, data: seq<Byte>, out: seq<Byte>)
    requires Find(moduleBytes) == Err(NotFound) && Added(moduleBytes, data) == Ok(out)
    requires Leb128.Size(|data|) == Leb128.Size(|data| + 12)
    ensures Removed(out) == Ok(moduleBytes)
  {
    var cut := |moduleBytes|;
    RemovedAfterAddIsPrefix(moduleBytes, data, out, cut);
    AddedFront(moduleBytes, data, out, cut, cut + 1);
  }

  /** Adding 12 to a length widens its varint by at most one byte. */
  lemma WidthGrowsByOne(n: nat, m: nat)
    requires m == n + 12 && Leb128.Size(n) != Leb128.Size(m)
    ensures Leb128.Size(m) == Leb128.Size(n) + 1
  {
    Leb128.SizeMonotone(n, m);
    Leb128.SizeStep(n, 12);
  }

  /** RemoveAfterAdd when the record's size field is one byte wider. */
  lemma RemoveAfterAddWider(moduleBytes: seq<Byte>, data: seq<Byte>, out: seq<Byte>)
    requires Find(moduleBytes) == Err(NotFound) && Added(moduleBytes, data) == Ok(out)
    requires Leb128.Size(|data|) != Leb128.Size(|data| + 12)
    ensures Removed(out) == Ok(moduleBytes + [0x00])
  {
    WidthGrowsByOne(|data|, |data| + 12);
    var cut := |moduleBytes| + 1;
    RemovedAfterAddIsPrefix(moduleBytes, data, out, cut);
    AddedFront(moduleBytes, data, out, cut - 1, cut);
  }

  /** The corrected removal undoes add-manifest for every data length. */
  lemma RemoveCorrectedAfterAdd(moduleBytes: seq<Byte>, data: seq<Byte>, out: seq<Byte>)
    requires Find(moduleBytes) == Err(NotFound) && Added(moduleBytes, data) == Ok(out)
    ensures RemovedCorrected(out) == Ok(moduleBytes)
  {
    var start := |moduleBytes| + 1 + Leb128.Size(|data| + 12);
    var dataOffset := start + 12;
    var end := dataOffset + |data|;
    AddThenFind(moduleBytes, data, out, start, dataOffset, end);
    AddedFront(moduleBytes, data, out, |moduleBytes|, |moduleBytes| + 1);
    var section := Scanner.CustomSection(|moduleBytes|, ManifestSection, dataOffset, start, end);
    RemovedCorrectedAt(out, section);
    SpliceToEnd(out, |moduleBytes|, end);
  }

  /** The smallest module: the preamble alone. */
  const EmptyModule: seq<Byte> := Scanner.Magic + Scanner.ModuleVersion

  /** For data of 116 to 127 bytes the record's size field takes two bytes
      but `remove_manifest` strips one: the output is the module followed by
      a stray id byte, which no longer parses. */
  lemma StrayByteWitness(data: seq<Byte>, out: seq<Byte>)
    requires 116 <= |data| < 128 && Added(EmptyModule, data) == Ok(out)
    ensures Removed(out) == Ok(EmptyModule + [0x00])
    ensures Removed(out) != Ok(EmptyModule)
    ensures Find(EmptyModule + [0x00]) == Err(Malformed)
  {
    EmptyModuleHasNoManifest();
    Leb128.SizeOfRange(|data|, 1);
    assert Leb128.Pow128(1) == 128 && Leb128.Pow128(2) == 16384;
    Leb128.SizeOfRange(|data| + 12, 2);
    RemoveAfterAdd(EmptyModule, data, out);
    assert |EmptyModule + [0x00]| != |EmptyModule|;
  }

  /** The removal as written takes out the whole section exactly when the
      width it computes is the width of the section's header. */
  lemma RemoveExactIff(blob: seq<Byte>, s: Scanner.Section)
    requires Find(blob) == Ok(s)
    ensures s.start <= s.dataOffset <= s.end
    ensures Removed(blob) == RemovedCorrected(blob) <==> RemovalHeaderSize(s.end - s.dataOffset) == s.start - s.offset
  {
    FindBounds(blob, s);
    var cut := s.start - RemovalHeaderSize(s.end - s.dataOffset);
    RemovedAt(blob, s, cut);
    RemovedCorrectedAt(blob, s);
    if cut != s.offset {
      assert |Splice(blob, cut, s.end)| != |Splice(blob, s.offset, s.end)|;
    }
  }

  /** remove-manifest copies everything in front of the section and
      everything after its payload verbatim and in order; what it drops is
      the payload and the header width it computes. */
  lemma RemovedKeepsOutside(blob: seq<Byte>, s: Scanner.Section, out: seq<Byte>)
    requires Find(blob) == Ok(s) && Removed(blob) == Ok(out)
    ensures s.offset < s.start <= s.dataOffset <= s.end <= |blob|
    ensures s.offset + RemovalHeaderSize(s.end - s.dataOffset) <= s.start
    ensures |out| == |blob| - (s.end - s.start) - RemovalHeaderSize(s.end - s.dataOffset)
    ensures out[..s.offset] == blob[..s.offset]
    ensures out[|out| - (|blob| - s.end)..] == blob[s.end..]
  {
    FindBounds(blob, s);
    var cut := s.start - RemovalHeaderSize(s.end - s.dataOffset);
    RemovedAt(blob, s, cut);
    assert out == blob[..cut] + blob[s.end..];
    assert out[..s.offset] == blob[..cut][..s.offset];
  }

  /** A custom-section record cut short after its id byte does not parse:
      either the size varint is cut and does not decode, or it decodes and
      the payload it announces runs past the end. */
  lemma TruncatedRecordIsMalformed(m: seq<Byte>, n: nat, rest: seq<Byte>, record: seq<Byte>, out: seq<Byte>, k: nat)
    requires n < Leb128.U32Limit && |rest| == n && record == [0x00] + Leb128.Encode(n) + rest
    requires out == m + record && |m| < k < |out|
    ensures Scanner.ParseSection(out[..k], |m|) == Err(Malformed)
  {
    var p := out[..k];
    var w := Leb128.Size(n);
    var sizeEnd := |m| + 1 + w;
    if k < sizeEnd {
      var sizeField := Leb128.Encode(n);
      forall q | |m| + 1 <= q < |p|
        ensures p[q] >= 128
      {
        var j := q - |m| - 1;
        assert j < |sizeField| - 1;
        assert p[q] == record[j + 1] == sizeField[j];
      }
      Leb128.DecodeUnterminated(p, |m| + 1, |p|, 0);
    } else {
      assert p[|m| + 1..sizeEnd] == record[1..1 + w] == Leb128.Encode(n);
      Leb128.LimitIsU32();
      Leb128.DecodeEncode(p, |m| + 1, sizeEnd, |p|, n, 0);
      assert Leb128.ReadVarU32(p, |m| + 1) == Some(Leb128.Decoded(n, w));
    }
  }

  /** Bytes appended to a module without a manifest section whose first
      section does not parse make the lookup fail with Malformed. */
  lemma AppendedBadSection(m: seq<Byte>, r: seq<Byte>, p: seq<Byte>)
    requires Find(m) == Err(NotFound) && p == m + r && |r| > 0
    requires Scanner.ParseSection(p, |m|) == Err(Malformed)
    ensures Find(p) == Err(Malformed)
  {
    assert Scanner.ValidPreamble(m);
    Scanner.PreambleExtends(m, r);
    FindFromSkips(m, r, Scanner.PreambleSize);
  }

  /** The output of add-manifest as the module, the id byte, the size
      field and a payload of exactly the size it announces. */
  lemma AddedLayout(m: seq<Byte>, data: seq<Byte>, out: seq<Byte>)
    requires Added(m, data) == Ok(out)
    ensures |data| + 12 < Leb128.U32Limit
    ensures out == m + Encoder.Record(ManifestSection, data)
    ensures Encoder.Record(ManifestSection, data) == [0x00] + Leb128.Encode(|data| + 12) + ([0x0B] + ManifestSection + data)
  {
    AddedRecord(m, data, out);
    ManifestRecord(data);
    var front := [0x00] + Leb128.Encode(|data| + 12);
    Scanner.ConcatAssociative(front, [0x0B] + ManifestSection, data);
    Scanner.ConcatAssociative(front, [0x0B], ManifestSection);
  }

  /** Cutting the output of add-manifest anywhere inside the appended
      record, even inside its size field, gives a binary the lookup rejects
      as malformed, never one that reads as a different manifest or as no
      manifest at all. */
  lemma TruncatedAddIsMalformed(m: seq<Byte>, data: seq<Byte>, out: seq<Byte>, k: nat)
    requires Find(m) == Err(NotFound) && Added(m, data) == Ok(out) && |m| < k < |out|
    ensures Find(out[..k]) == Err(Malformed)
  {
    AddedLayout(m, data, out);
    TruncatedRecordIsMalformed(m, |data| + 12, [0x0B] + ManifestSection + data, Encoder.Record(ManifestSection, data), out, k);
    var p := out[..k];
    var r := out[|m|..k];
    assert p == m + r;
    AppendedBadSection(m, r, p);
  }

  /** The empty module holds no manifest section. */
  lemma EmptyModuleHasNoManifest()
    ensures Find(EmptyModule) == Err(NotFound)
  {
    assert Scanner.ValidPreamble(EmptyModule);
  }

  /** A seven-byte manifest added to any module: its record is the id
      byte, the one-byte size 19, the name and the data. */
  lemma SevenByteRecord(moduleBytes: seq<Byte>, data: seq<Byte>, out: seq<Byte>)
    requires |data| == 7 && Added(moduleBytes, data) == Ok(out)
    ensures out == moduleBytes + [0x00, 0x13, 0x0B] + ManifestSection + data
  {
    AddedRecord(moduleBytes, data, out);
    ManifestRecord(data);
    var size := |data| + 12;
    assert size == 19;
    assert Leb128.Encode(size) == [0x13];
    var head: seq<Byte> := [0x00, 0x13, 0x0B];
    assert [0x00] + Leb128.Encode(size) + [0x0B] == head;
    var rec := Encoder.Record(ManifestSection, data);
    assert rec == head + ManifestSection + data;
    assert out == moduleBytes + rec;
  }

  /** The manifest `{"v":1}` added to the empty module: the record bytes,
      reading it back, and remove-manifest restoring the module. */
  lemma EmptyModuleScenario(data: seq<Byte>, out: seq<Byte>)
    requires data == [0x7B, 0x22, 0x76, 0x22, 0x3A, 0x31, 0x7D] && Added(EmptyModule, data) == Ok(out)
    ensures out == EmptyModule + [0x00, 0x13, 0x0B] + ManifestSection + data
    ensures ReadManifest(out) == Ok(data)
    ensures Removed(out) == Ok(EmptyModule)
  {
    EmptyModuleHasNoManifest();
    SevenByteRecord(EmptyModule, data, out);
    var start := |EmptyModule| + 1 + Leb128.Size(|data| + 12);
    AddThenFind(EmptyModule, data, out, start, start + 12, start + 12 + |data|);
    assert Leb128.Size(7) == 1 && Leb128.Size(19) == 1;
    RemoveAfterAddSameWidth(EmptyModule, data, out);
  }
}
