/** Unsigned LEB128, as section 5.2.2 (Integers) of the WebAssembly Core
    Specification defines it: seven value bits per byte, least significant
    group first, the high bit set on every byte but the last.

    `Encode` and `Size` are what the tool gets from the `leb128` and
    `wasm_encoder` crates; `ReadVarU32` is the `u32` reader of the section
    parser, which accepts at most five bytes and no bits beyond the 32nd. */
module Leb128 {
  import opened Base

  /** 128 to the power k. */
  function Pow128(k: nat): (p: nat)
    ensures p >= 1
  {
    if k == 0 then 1 else 128 * Pow128(k - 1)
  }

  /** Number of bytes of the shortest encoding of n. */
  function Size(n: nat): (k: nat)
    ensures k >= 1
  {
    if n < 128 then 1 else 1 + Size(n / 128)
  }

  /** The shortest encoding of n. */
  function Encode(n: nat): (bytes: seq<Byte>)
    ensures |bytes| == Size(n)
    ensures forall i :: 0 <= i < |bytes| - 1 ==> bytes[i] >= 128
    ensures bytes[|bytes| - 1] < 128
  {
    if n < 128 then [n] else [n % 128 + 128] + Encode(n / 128)
  }

  /** 2^32: the first value a `u32` cannot hold. */
  const U32Limit: nat := 0x1_0000_0000

  /** The first value that the bytes from index i of a `u32` varint on can no
      longer carry: the fifth byte keeps only four value bits. */
  function Limit(i: nat): (l: nat)
    requires i <= 4
    ensures l >= 16
    decreases 4 - i
  {
    if i == 4 then 16 else 128 * Limit(i + 1)
  }

  /** A decoded varint: its value and the number of bytes it took. */
  datatype Decoded = Decoded(value: nat, width: nat)

  /** Decodes the varint whose byte number i (counting from 0) is at
      position pos of blob, reading no further than end. Fails when end is
      reached before a byte without the continuation bit, and when the fifth
      byte has the continuation bit or any bit above the 32nd. */
  function DecodeAt(blob: seq<Byte>, pos: nat, end: nat, i: nat): (r: Option<Decoded>)
    requires end <= |blob| && i <= 4
    ensures r.Some? ==> 1 <= r.value.width && pos + r.value.width <= end && r.value.width <= 5 - i
    ensures r.Some? ==> r.value.value < Limit(i)
    decreases 4 - i
  {
    if pos >= end then None
    else if i == 4 then (if blob[pos] < 16 then Some(Decoded(blob[pos], 1)) else None)
    else if blob[pos] < 128 then Some(Decoded(blob[pos], 1))
    else
      match DecodeAt(blob, pos + 1, end, i + 1)
      case None => None
      case Some(d) => Some(Decoded(blob[pos] - 128 + 128 * d.value, d.width + 1))
  }

  /** Reads a `u32` varint that starts at position pos of blob. */
  function ReadVarU32(blob: seq<Byte>, pos: nat): (r: Option<Decoded>)
    requires pos <= |blob|
    ensures r.Some? ==> 1 <= r.value.width <= 5 && pos + r.value.width <= |blob| && r.value.value < U32Limit
  {
    LimitIsU32();
    DecodeAt(blob, pos, |blob|, 0)
  }

  lemma LimitIsU32()
    ensures Limit(0) == U32Limit
  {
    assert Limit(4) == 16;
    assert Limit(3) == 2048;
    assert Limit(2) == 262144;
    assert Limit(1) == 33554432;
  }

  /** Size(n) bytes hold n, and one byte fewer would not. */
  lemma {:induction false} SizeBounds(n: nat)
    ensures n < Pow128(Size(n))
    ensures Size(n) >= 2 ==> Pow128(Size(n) - 1) <= n
    decreases n
  {
    if n >= 128 {
      SizeBounds(n / 128);
      assert Pow128(1) == 128;
    }
  }

  /** A value below 128^j needs at most j bytes. */
  lemma {:induction false} SizeAtMost(n: nat, j: nat)
    requires j >= 1 && n < Pow128(j)
    ensures Size(n) <= j
    decreases n
  {
    if n >= 128 {
      assert Pow128(1) == 128;
      assert j >= 2;
      SizeAtMost(n / 128, j - 1);
    }
  }

  /** A value of at least 128^(j-1) needs at least j bytes. */
  lemma {:induction false} SizeAtLeast(n: nat, j: nat)
    requires j >= 1 && Pow128(j - 1) <= n
    ensures j <= Size(n)
    decreases j
  {
    if j >= 2 {
      assert n >= 128;
      SizeAtLeast(n / 128, j - 1);
    }
  }

  /** The width rule in the other direction: a value in [128^(k-1), 128^k)
      (in [0, 128) for k = 1) takes exactly k bytes. Together with SizeBounds:
      one byte below 128, two below 16384, three below 2097152, and so on. */
  lemma SizeOfRange(n: nat, k: nat)
    requires k >= 1 && n < Pow128(k)
    requires k == 1 || Pow128(k - 1) <= n
    ensures Size(n) == k
  {
    SizeAtMost(n, k);
    if k >= 2 {
      SizeAtLeast(n, k);
    }
  }

  /** Every value of a `u32` takes at most five bytes. */
  lemma SizeOfU32(n: nat)
    ensures n < U32Limit ==> Size(n) <= 5
  {
    if n < U32Limit {
      assert Pow128(5) == 34359738368;
      SizeAtMost(n, 5);
    }
  }

  /** A larger value never has a shorter encoding. */
  lemma SizeMonotone(m: nat, n: nat)
    requires m <= n
    ensures Size(m) <= Size(n)
  {
    SizeBounds(n);
    SizeAtMost(m, Size(n));
  }

  /** Adding at most 128 to a value widens its encoding by at most one byte. */
  lemma SizeStep(n: nat, d: nat)
    requires d <= 128
    ensures Size(n + d) <= Size(n) + 1
  {
    var k := Size(n);
    SizeBounds(n);
    assert Pow128(k) >= 128 by {
      assert Pow128(k) == 128 * Pow128(k - 1);
    }
    assert Pow128(k + 1) == 128 * Pow128(k);
    SizeAtMost(n + d, k + 1);
  }

  /** A byte with the continuation bit adds its low seven bits to 128 times
      the value that follows. */
  lemma DecodeStep(blob: seq<Byte>, pos: nat, end: nat, i: nat, d: Decoded)
    requires i < 4 && pos < end <= |blob| && blob[pos] >= 128
    requires DecodeAt(blob, pos + 1, end, i + 1) == Some(d)
    ensures DecodeAt(blob, pos, end, i) == Some(Decoded(blob[pos] - 128 + 128 * d.value, d.width + 1))
  {
  }

  /** Decoding reads back what Encode wrote, whatever follows it. */
  lemma {:induction false} DecodeEncode(blob: seq<Byte>, pos: nat, stop: nat, end: nat, n: nat, i: nat)
    requires i <= 4 && n < Limit(i)
    requires stop == pos + Size(n) && stop <= end <= |blob| && blob[pos..stop] == Encode(n)
    ensures DecodeAt(blob, pos, end, i) == Some(Decoded(n, Size(n)))
    decreases n
  {
    if n >= 128 {
      var q := n / 128;
      assert i < 4;
      assert blob[pos] == n % 128 + 128 && pos < end by {
        assert blob[pos] == Encode(n)[0];
      }
      assert blob[pos + 1..stop] == Encode(q) by {
        SliceTail(blob, pos, stop);
      }
      DecodeEncode(blob, pos + 1, stop, end, q, i + 1);
      DecodeStep(blob, pos, end, i, Decoded(q, Size(q)));
      assert blob[pos] - 128 + 128 * q == n && Size(q) + 1 == Size(n);
    } else {
      assert blob[pos] == n && Size(n) == 1 by {
        assert blob[pos] == Encode(n)[0];
      }
      assert i == 4 ==> n < 16;
      assert DecodeAt(blob, pos, end, i) == Some(Decoded(n, 1));
    }
  }

  /** A decoded varint is at least as wide as the shortest encoding of its
      value: the parser also accepts padded encodings, never shorter ones. */
  lemma {:induction false} DecodedWidth(blob: seq<Byte>, pos: nat, end: nat, i: nat)
    requires end <= |blob| && i <= 4 && DecodeAt(blob, pos, end, i).Some?
    ensures Size(DecodeAt(blob, pos, end, i).value.value) <= DecodeAt(blob, pos, end, i).value.width
    decreases 4 - i
  {
    if i < 4 && blob[pos] >= 128 {
      var d := DecodeAt(blob, pos + 1, end, i + 1).value;
      DecodedWidth(blob, pos + 1, end, i + 1);
      var v := blob[pos] - 128 + 128 * d.value;
      assert v >= 128 ==> v / 128 == d.value;
      if v >= 128 {
        assert Size(v) == 1 + Size(d.value);
      }
    }
  }

  /** Dropping the first byte of a slice. */
  lemma SliceTail(blob: seq<Byte>, i: nat, j: nat)
    requires i < j <= |blob|
    ensures blob[i + 1..j] == blob[i..j][1..]
  {
  }

  /** Decoding only looks at the bytes before end. */
  lemma {:induction false} DecodeAppend(blob: seq<Byte>, t: seq<Byte>, pos: nat, end: nat, i: nat)
    requires i <= 4 && end <= |blob|
    ensures DecodeAt(blob + t, pos, end, i) == DecodeAt(blob, pos, end, i)
    decreases 4 - i
  {
    if pos < end {
      assert (blob + t)[pos] == blob[pos];
      if i < 4 && blob[pos] >= 128 {
        DecodeAppend(blob, t, pos + 1, end, i + 1);
        var inner := DecodeAt(blob, pos + 1, end, i + 1);
        assert DecodeAt(blob + t, pos + 1, end, i + 1) == inner;
      }
    }
  }

  /** A varint that decodes before end decodes the same before any later end. */
  lemma {:induction false} DecodeWiden(blob: seq<Byte>, pos: nat, end: nat, end2: nat, i: nat)
    requires i <= 4 && end <= end2 <= |blob| && DecodeAt(blob, pos, end, i).Some?
    ensures DecodeAt(blob, pos, end2, i) == DecodeAt(blob, pos, end, i)
    decreases 4 - i
  {
    if i < 4 && blob[pos] >= 128 {
      DecodeWiden(blob, pos + 1, end, end2, i + 1);
    }
  }

  /** A varint that decodes before end2 decodes the same before any earlier
      end that still holds all of its bytes. */
  lemma {:induction false} DecodeNarrow(blob: seq<Byte>, pos: nat, end: nat, end2: nat, i: nat)
    requires i <= 4 && end <= end2 <= |blob| && DecodeAt(blob, pos, end2, i).Some?
    requires pos + DecodeAt(blob, pos, end2, i).value.width <= end
    ensures DecodeAt(blob, pos, end, i) == DecodeAt(blob, pos, end2, i)
    decreases 4 - i
  {
    if i < 4 && blob[pos] >= 128 {
      DecodeNarrow(blob, pos + 1, end, end2, i + 1);
    }
  }

  /** Bytes that all carry the continuation bit up to end do not decode:
      a varint cut short is an error, never a smaller value. */
  lemma {:induction false} DecodeUnterminated(blob: seq<Byte>, pos: nat, end: nat, i: nat)
    requires i <= 4 && end <= |blob|
    requires forall q :: pos <= q < end ==> blob[q] >= 128
    ensures DecodeAt(blob, pos, end, i) == None
    decreases 4 - i
  {
    if pos < end && i < 4 {
      DecodeUnterminated(blob, pos + 1, end, i + 1);
    }
  }

  /** A varint read at a position of a binary keeps its value and width in
      any prefix that still holds all of its bytes. */
  lemma ReadVarU32Truncate(blob: seq<Byte>, pos: nat, e: nat)
    requires pos <= |blob| && ReadVarU32(blob, pos).Some?
    requires pos + ReadVarU32(blob, pos).value.width <= e <= |blob|
    ensures ReadVarU32(blob[..e], pos) == ReadVarU32(blob, pos)
  {
    var prefix := blob[..e];
    assert prefix + blob[e..] == blob;
    DecodeNarrow(blob, pos, e, |blob|, 0);
    DecodeAppend(prefix, blob[e..], pos, e, 0);
    DecodeWiden(prefix, pos, e, |prefix|, 0);
  }

  /** A varint read at a position of a binary keeps its value and width
      whatever is appended. */
  lemma ReadVarU32Extends(blob: seq<Byte>, t: seq<Byte>, pos: nat)
    requires pos <= |blob| && ReadVarU32(blob, pos).Some?
    ensures ReadVarU32(blob + t, pos) == ReadVarU32(blob, pos)
  {
    DecodeAppend(blob, t, pos, |blob|, 0);
    DecodeWiden(blob + t, pos, |blob|, |blob + t|, 0);
  }
}
