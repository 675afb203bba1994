/** The custom-section record that `wasm_encoder`'s `CustomSection` appends
    to a buffer (`append_to_component`): the id byte 0, the size of the rest
    as a `u32` varint, the name as a varint length and its bytes, then the
    data. This is the layout of sections 5.5.2 and 5.5.3 of the WebAssembly
    Core Specification; the component model uses the same one. */
module Encoder {
  import opened Base
  import Leb128
  import Scanner

  /** The size field of the record: the name's length prefix, the name and
      the data. */
  function PayloadSize(name: seq<Byte>, data: seq<Byte>): (n: nat)
  {
    Leb128.Size(|name|) + |name| + |data|
  }

  /** The bytes in front of the payload of a record: the id byte and the
      size field. */
  function HeaderSize(name: seq<Byte>, data: seq<Byte>): (h: nat)
    ensures h >= 2
    ensures PayloadSize(name, data) < Leb128.U32Limit ==> h <= 6
  {
    Leb128.SizeOfU32(PayloadSize(name, data));
    1 + Leb128.Size(PayloadSize(name, data))
  }

  /** The bytes of the record: the id byte, the size field, the name's
      length, the name and the data. */
  function Record(name: seq<Byte>, data: seq<Byte>): (record: seq<Byte>)
    ensures |record| == HeaderSize(name, data) + PayloadSize(name, data)
  {
    [Scanner.CustomSectionId] + Leb128.Encode(PayloadSize(name, data)) + Leb128.Encode(|name|) + name + data
  }

  /** The record, or TooLarge when its size does not fit the `u32` the
      encoder writes (the encoder panics there). */
  function CustomSectionRecord(name: seq<Byte>, data: seq<Byte>): (r: Result<seq<Byte>>)
    ensures r.Ok? <==> PayloadSize(name, data) < Leb128.U32Limit
    ensures r.Err? ==> r.error == TooLarge
    ensures r.Ok? ==> r.value == Record(name, data)
  {
    if PayloadSize(name, data) >= Leb128.U32Limit then Err(TooLarge) else Ok(Record(name, data))
  }

  /** The section parser reads a custom section out of the bytes of a
      record at pos: the id byte, the size field, the name's length and the
      name. */
  lemma ParsesAt(blob: seq<Byte>, pos: nat, name: seq<Byte>, data: seq<Byte>, start: nat, nameStart: nat, nameEnd: nat, end: nat)
    requires PayloadSize(name, data) < Leb128.U32Limit
    requires |name| <= Scanner.MaxStringSize && Scanner.ValidUtf8(name)
    requires start == pos + HeaderSize(name, data) && end == start + PayloadSize(name, data) && end <= |blob|
    requires nameStart == start + Leb128.Size(|name|) && nameEnd == nameStart + |name|
    requires blob[pos] == Scanner.CustomSectionId
    requires blob[pos + 1..start] == Leb128.Encode(PayloadSize(name, data))
    requires blob[start..nameStart] == Leb128.Encode(|name|)
    requires blob[nameStart..nameEnd] == name
    ensures Scanner.ParseSection(blob, pos) == Ok(Scanner.CustomSection(pos, name, nameEnd, start, end))
  {
    var size := PayloadSize(name, data);
    Leb128.LimitIsU32();
    Leb128.DecodeEncode(blob, pos + 1, start, |blob|, size, 0);
    Leb128.DecodeEncode(blob, start, nameStart, end, |name|, 0);
    Scanner.ParseCustomUnfold(blob, pos, start, end, Leb128.Decoded(|name|, Leb128.Size(|name|)), nameStart, nameEnd);
    Scanner.ParseSectionUnfold(blob, pos, Leb128.Decoded(size, Leb128.Size(size)), start, end);
  }

  /** The section parser reads a record back as the custom section it
      encodes, with the same name and data, wherever it is placed: the
      payload runs from start to end and the data from dataOffset to end. */
  lemma RecordParses(p: seq<Byte>, name: seq<Byte>, data: seq<Byte>, q: seq<Byte>, start: nat, dataOffset: nat, end: nat)
    requires PayloadSize(name, data) < Leb128.U32Limit
    requires |name| <= Scanner.MaxStringSize && Scanner.ValidUtf8(name)
    requires start == |p| + HeaderSize(name, data) && end == |p| + |Record(name, data)| && dataOffset + |data| == end
    ensures Scanner.ParseSection(p + Record(name, data) + q, |p|) == Ok(Scanner.CustomSection(|p|, name, dataOffset, start, end))
    ensures (p + Record(name, data) + q)[dataOffset..end] == data
  {
    var nameStart := start + Leb128.Size(|name|);
    RecordFields(p, name, data, q, start, nameStart, dataOffset, end);
    ParsesAt(p + Record(name, data) + q, |p|, name, data, start, nameStart, dataOffset, end);
  }

  /** Where the fields of a record placed between p and q lie. */
  lemma RecordFields(p: seq<Byte>, name: seq<Byte>, data: seq<Byte>, q: seq<Byte>,
                     start: nat, nameStart: nat, nameEnd: nat, end: nat)
    requires start == |p| + HeaderSize(name, data) && nameStart == start + Leb128.Size(|name|)
    requires nameEnd == nameStart + |name| && end == nameEnd + |data|
    ensures end == |p| + |Record(name, data)|
    ensures (p + Record(name, data) + q)[|p|] == Scanner.CustomSectionId
    ensures (p + Record(name, data) + q)[|p| + 1..start] == Leb128.Encode(PayloadSize(name, data))
    ensures (p + Record(name, data) + q)[start..nameStart] == Leb128.Encode(|name|)
    ensures (p + Record(name, data) + q)[nameStart..nameEnd] == name
    ensures (p + Record(name, data) + q)[nameEnd..end] == data
  {
    var sizeField := Leb128.Encode(PayloadSize(name, data));
    var nameField := Leb128.Encode(|name|);
    var record := Record(name, data);
    var a := 1 + |sizeField|;
    var b := a + |nameField|;
    var c := b + |name|;
    Pieces([Scanner.CustomSectionId], sizeField, nameField, name, data, 1, a, b, c);
    Segment(p, record, q, 0, 1, |p|, |p| + 1);
    Segment(p, record, q, 1, a, |p| + 1, start);
    Segment(p, record, q, a, b, start, nameStart);
    Segment(p, record, q, b, c, nameStart, nameEnd);
    Segment(p, record, q, c, |record|, nameEnd, end);
  }

  /** A slice of a record placed between p and q is the slice of the record. */
  lemma Segment(p: seq<Byte>, record: seq<Byte>, q: seq<Byte>, a: nat, b: nat, lo: nat, hi: nat)
    requires a <= b <= |record| && lo == |p| + a && hi == |p| + b
    ensures (p + record + q)[lo..hi] == record[a..b]
  {
    forall k | 0 <= k < b - a
      ensures (p + record + q)[lo..hi][k] == record[a..b][k]
    {
      assert (p + record + q)[lo + k] == record[a + k];
    }
  }

  /** The five fields of a record, read back by offset. */
  lemma Pieces(x1: seq<Byte>, x2: seq<Byte>, x3: seq<Byte>, x4: seq<Byte>, x5: seq<Byte>, a: nat, b: nat, c: nat, d: nat)
    requires a == |x1| && b == a + |x2| && c == b + |x3| && d == c + |x4|
    ensures var r := x1 + x2 + x3 + x4 + x5;
      && |r| == d + |x5|
      && r[..a] == x1 && r[a..b] == x2 && r[b..c] == x3 && r[c..d] == x4 && r[d..] == x5
  {
    var r := x1 + x2 + x3 + x4 + x5;
    assert r[..a] == x1;
    assert r[a..b] == x2;
    assert r[b..c] == x3;
    assert r[c..d] == x4;
    assert r[d..] == x5;
  }
}
