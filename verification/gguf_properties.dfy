/**
 * What the GGUF reader promises, stated over the decoder functions: the
 * aligned offset, the header checks, the byte accounting of strings, values,
 * descriptors and payloads, the order of the tables, and the constant tables.
 */
module GgufProperties {
  import opened Wrappers
  import opened ByteCodec
  import opened Utf8
  import opened Constant
  import opened StreamReads
  import opened GgufDecode

  // ---------------------------------------------------------------------------
  // The aligned offset

  /** `padding(cur, a)` is the LEAST multiple of a at or after cur. */
  lemma PaddingIsLeast(cur: nat, alignment: nat, m: nat)
    requires alignment > 0 && cur <= m && m % alignment == 0
    ensures Padding(cur, alignment) <= m
  {
    var r := Padding(cur, alignment);
    if m < r {
      // r would lie strictly between two consecutive multiples of the alignment
      assert m == (m / alignment) * alignment;
      DivModUnique(r, alignment, m / alignment, r - m);
    }
  }

  /** An offset is its own aligned offset exactly when it is already a multiple of the alignment. */
  lemma PaddingFixedPoint(cur: nat, alignment: nat)
    requires alignment > 0
    ensures Padding(cur, alignment) == cur <==> cur % alignment == 0
  {
    if cur % alignment == 0 {
      PaddingIsLeast(cur, alignment, cur);
    }
  }

  /** Aligning twice is aligning once. */
  lemma PaddingIdempotent(cur: nat, alignment: nat)
    requires alignment > 0
    ensures Padding(Padding(cur, alignment), alignment) == Padding(cur, alignment)
  {
    PaddingFixedPoint(Padding(cur, alignment), alignment);
  }

  // ---------------------------------------------------------------------------
  // The header checks

  /** Without the magic bytes "GGUF" at the start, decoding stops there, whatever follows. */
  lemma BadMagicStops(data: seq<byte>)
    requires |data| < 4 || data[..4] != ValidMagicNumber
    ensures DecodeFile(data) == Failure(InvalidMagicNumber)
  {
    assert ReadUpTo(data, 0, 4).0 != ValidMagicNumber;
  }

  /** With the magic bytes but a version other than 3, decoding stops at the version, whatever follows. */
  lemma BadVersionStops(data: seq<byte>)
    requires |data| >= 8 && data[..4] == ValidMagicNumber && LeUInt(data[4..8]) != ValidGgufVersion
    ensures DecodeFile(data) == Failure(InvalidVersion)
  {
    assert ReadUpTo(data, 0, 4) == (data[..4], 4);
  }

  // ---------------------------------------------------------------------------
  // Strings

  /**
   * A string whose bytes are all present consumes its 8-byte length prefix and
   * exactly `length` bytes, and decodes exactly when those bytes are UTF-8.
   */
  lemma StringConsumesLength(data: seq<byte>, pos: nat)
    requires pos + 8 <= |data| && pos + 8 + LeUInt(data[pos..pos + 8]) <= |data|
    ensures var length := LeUInt(data[pos..pos + 8]);
      var bytes := data[pos + 8..pos + 8 + length];
      GetGgufString(data, pos) ==
        if ValidUtf8(bytes) then Success((GgufString(length, bytes), pos + 8 + length)) else Failure(InvalidUtf8)
  {
  }

  /**
   * Writing a string as its UTF-8 byte length and its UTF-8 bytes and reading
   * it back gives the same bytes, and the length is the number of bytes, which
   * is the number of characters only when every character is ASCII.
   */
  lemma StringRoundTrip(cps: seq<int>, rest: seq<byte>)
    requires forall i :: 0 <= i < |cps| ==> IsScalarValue(cps[i])
    requires |Encode(cps)| < U64
    ensures var bytes := Encode(cps);
      && GetGgufString(LeBytes(|bytes|, 8) + bytes + rest, 0) == Success((GgufString(|bytes|, bytes), 8 + |bytes|))
      && (|bytes| == |cps| <==> forall i :: 0 <= i < |cps| ==> cps[i] < 0x80)
  {
    var bytes := Encode(cps);
    var data := LeBytes(|bytes|, 8) + bytes + rest;
    assert Pow256(8) == U64 by {
      assert Pow256(8) == 256 * 256 * 256 * 256 * 256 * 256 * 256 * 256;
    }
    LeUIntOfLeBytes(|bytes|, 8);
    assert data[0..8] == LeBytes(|bytes|, 8);
    assert data[8..8 + |bytes|] == bytes;
    EncodeValid(cps);
    EncodeLength(cps);
  }

  // ---------------------------------------------------------------------------
  // Metadata values

  /** A fixed-width kind consumes exactly its width, and fails only when fewer bytes remain. */
  lemma NumberConsumesWidth(data: seq<byte>, pos: nat, t: MetadataValueType)
    requires pos <= |data| && IsNumberType(t)
    ensures var r := GetGgufMetadataValue(data, pos, t);
      && (r.Success? <==> pos + ValueTypeWidth(t) <= |data|)
      && (r.Success? ==>
            r.value == (Number(Convert(NpTypeOf(t), data[pos..pos + ValueTypeWidth(t)])), pos + ValueTypeWidth(t)))
  {
  }

  /** The widths: one byte for B, b and ?, two for H and h, four for I, i and f, eight for Q, q and d. */
  lemma NumberWidths()
    ensures ValueTypeWidth(UINT8) == 1 && ValueTypeWidth(INT8) == 1 && ValueTypeWidth(BOOL) == 1
    ensures ValueTypeWidth(UINT16) == 2 && ValueTypeWidth(INT16) == 2
    ensures ValueTypeWidth(UINT32) == 4 && ValueTypeWidth(INT32) == 4 && ValueTypeWidth(FLOAT32) == 4
    ensures ValueTypeWidth(UINT64) == 8 && ValueTypeWidth(INT64) == 8 && ValueTypeWidth(FLOAT64) == 8
  {
  }

  /** A STRING value is the bytes of a string and ends where the string ends. */
  lemma TextValueIsString(data: seq<byte>, pos: nat)
    requires pos <= |data|
    ensures var r := GetGgufMetadataValue(data, pos, STRING);
      var s := GetGgufString(data, pos);
      && (r.Success? <==> s.Success?)
      && (r.Success? ==> r.value == (Text(s.value.0.bytes), s.value.1))
  {
  }

  /**
   * An ARRAY value is a known element kind, a uint64 length and a list of
   * exactly that many values, each of the element kind; an unknown element
   * kind stops decoding.
   */
  lemma ArrayShape(data: seq<byte>, pos: nat)
    requires pos <= |data|
    ensures var r := GetGgufMetadataValue(data, pos, ARRAY);
      r.Success? ==>
        && pos + 12 <= |data|
        && ValueTypeOfCode(LeUInt(data[pos..pos + 4])).Some?
        && r.value.0.List?
        && |r.value.0.items| == LeUInt(data[pos + 4..pos + 12])
        && forall i :: 0 <= i < |r.value.0.items| ==>
             ValueMatches(ValueTypeOfCode(LeUInt(data[pos..pos + 4])).value, r.value.0.items[i])
    ensures pos + 4 <= |data| && LeUInt(data[pos..pos + 4]) > 12 ==>
      GetGgufMetadataValue(data, pos, ARRAY) == Failure(UnknownValueType(LeUInt(data[pos..pos + 4])))
  {
    var r := GetGgufMetadataValue(data, pos, ARRAY);
    if r.Success? {
      var elementType := GetGgufMetadataValueType(data, pos).value;
      var length := ReadUInt64(data, elementType.1).value;
      assert ValueTypeOfCode(LeUInt(data[pos..pos + 4])) == Some(elementType.0);
      ValuesShape(data, length.1, elementType.0, length.0);
      assert r.value.0.items == GetGgufMetadataValues(data, length.1, elementType.0, length.0).value.0;
    }
  }

  /** A decoded value has the shape of its kind: a fitting scalar, a text or a list. */
  lemma ValueShape(data: seq<byte>, pos: nat, t: MetadataValueType)
    requires pos <= |data|
    ensures var r := GetGgufMetadataValue(data, pos, t);
      r.Success? ==> ValueMatches(t, r.value.0)
  {
    var r := GetGgufMetadataValue(data, pos, t);
    if IsNumberType(t) && r.Success? {
      ConvertFits(NpTypeOf(t), data[pos..r.value.1]);
    }
  }

  /** Every value of a decoded list has the shape of the element kind. */
  lemma {:induction false} ValuesShape(data: seq<byte>, pos: nat, t: MetadataValueType, n: nat)
    requires pos <= |data|
    ensures var r := GetGgufMetadataValues(data, pos, t, n);
      r.Success? ==> forall i :: 0 <= i < n ==> ValueMatches(t, r.value.0[i])
    decreases n
  {
    var r := GetGgufMetadataValues(data, pos, t, n);
    if n > 0 && r.Success? {
      ValuesUncons(data, pos, t, n - 1);
      var first := GetGgufMetadataValue(data, pos, t).value;
      var rest := GetGgufMetadataValues(data, first.1, t, n - 1).value;
      ValueShape(data, pos, t);
      ValuesShape(data, first.1, t, n - 1);
      forall i | 0 <= i < n ensures ValueMatches(t, r.value.0[i]) {
        if i > 0 {
          assert r.value.0[i] == rest.0[i - 1];
        }
      }
    }
  }

  /** An entry whose kind code is not 0..12 stops decoding with that code. */
  lemma UnknownEntryKind(data: seq<byte>, pos: nat)
    requires pos <= |data| && GetGgufString(data, pos).Success?
    requires var p := GetGgufString(data, pos).value.1; p + 4 <= |data| && LeUInt(data[p..p + 4]) > 12
    ensures var p := GetGgufString(data, pos).value.1;
      ReadMetadataKv(data, pos) == Failure(UnknownValueType(LeUInt(data[p..p + 4])))
  {
  }

  // ---------------------------------------------------------------------------
  // The tables, in stream order

  /** Entry n + 1 of the metadata table is the entry read where the first n end. */
  lemma MetadataInStreamOrder(data: seq<byte>, pos: nat, n: nat)
    requires pos <= |data| && ReadMetadataKvs(data, pos, n + 1).Success?
    ensures var prefix := ReadMetadataKvs(data, pos, n);
      && prefix.Success?
      && var kv := ReadMetadataKv(data, prefix.value.1);
      && kv.Success?
      && ReadMetadataKvs(data, pos, n + 1).value == (prefix.value.0 + [kv.value.0], kv.value.1)
  {
    RepeatStep(MetadataKvAt(data), pos, n);
    var prefix := ReadMetadataKvs(data, pos, n);
    assert MetadataKvAt(data)(prefix.value.1) == ReadMetadataKv(data, prefix.value.1);
  }

  /** Descriptor n + 1 is the descriptor read where the first n end. */
  lemma TensorInfosInStreamOrder(data: seq<byte>, pos: nat, n: nat)
    requires pos <= |data| && ReadTensorInfos(data, pos, n + 1).Success?
    ensures var prefix := ReadTensorInfos(data, pos, n);
      && prefix.Success?
      && var info := ReadTensorInfo(data, prefix.value.1);
      && info.Success?
      && ReadTensorInfos(data, pos, n + 1).value == (prefix.value.0 + [info.value.0], info.value.1)
  {
    RepeatStep(TensorInfoAt(data), pos, n);
    var prefix := ReadTensorInfos(data, pos, n);
    assert TensorInfoAt(data)(prefix.value.1) == ReadTensorInfo(data, prefix.value.1);
  }

  /** Every descriptor read has as many dimensions as its rank says. */
  lemma TensorInfosHaveRank(data: seq<byte>, pos: nat, n: nat)
    requires pos <= |data|
    ensures var r := ReadTensorInfos(data, pos, n);
      r.Success? ==> forall i :: 0 <= i < n ==> |r.value.0[i].dimensions| == r.value.0[i].nDimensions
  {
    var read := TensorInfoAt(data);
    forall p: nat | read(p).Success?
      ensures |read(p).value.0.dimensions| == read(p).value.0.nDimensions
    {
      if p <= |data| {
        assert read(p) == ReadTensorInfo(data, p);
      }
    }
    RepeatKeeps(read, (info: TensorInfo) => |info.dimensions| == info.nDimensions, pos, n);
  }

  /** Every entry read holds a value of the kind it declares. */
  lemma MetadataValuesMatchKinds(data: seq<byte>, pos: nat, n: nat)
    requires pos <= |data|
    ensures var r := ReadMetadataKvs(data, pos, n);
      r.Success? ==> forall i :: 0 <= i < n ==> ValueMatches(r.value.0[i].valueType, r.value.0[i].value)
  {
    var read := MetadataKvAt(data);
    forall p: nat | read(p).Success?
      ensures ValueMatches(read(p).value.0.valueType, read(p).value.0.value)
    {
      if p <= |data| {
        assert read(p) == ReadMetadataKv(data, p);
        var key := GetGgufString(data, p).value;
        var valueType := GetGgufMetadataValueType(data, key.1).value;
        ValueShape(data, valueType.1, valueType.0);
      }
    }
    RepeatKeeps(read, (kv: MetadataKv) => ValueMatches(kv.valueType, kv.value), pos, n);
  }

  // ---------------------------------------------------------------------------
  // Tensor payloads

  /**
   * One payload: a descriptor behind the cursor is skipped; otherwise the
   * cursor moves to the offset (or the end of the data), a type without sizes
   * stops decoding, and the payload is n elements of 4 bytes for F32, n of 2
   * bytes for F16 and n * type_size // block_size single bytes for the others,
   * where n is the wrapped element count: together exactly the bytes after
   * the offset.
   */
  lemma PayloadAccounting(data: seq<byte>, pos: nat, info: TensorInfo)
    requires pos <= |data|
    ensures info.offset < pos ==> ReadPayload(data, pos, info) == Success((None, pos))
    ensures info.offset >= pos && GgmlQuantSizes(info.tensorType).None? ==>
      ReadPayload(data, pos, info) == Failure(NoQuantSizes(info.tensorType))
    ensures info.offset >= pos && info.offset <= |data| && GgmlQuantSizes(info.tensorType).Some? ==>
      var sizes := GgmlQuantSizes(info.tensorType).value;
      var n := TensorLength(info);
      var count := if info.tensorType == F32 || info.tensorType == F16 then n else (n * sizes.1) % U64 / sizes.0;
      var width := if info.tensorType == F32 then 4 else if info.tensorType == F16 then 2 else 1;
      var r := ReadPayload(data, pos, info);
      && (r.Success? <==> info.offset + count * width <= |data|)
      && (r.Success? ==>
            && r.value.1 == info.offset + count * width
            && r.value.0.Some?
            && |r.value.0.value| == count
            && (forall i :: 0 <= i < count ==> |r.value.0.value[i]| == width)
            && Flatten(r.value.0.value) == data[info.offset..info.offset + count * width])
  {
    if info.offset >= pos && info.offset <= |data| && GgmlQuantSizes(info.tensorType).Some? {
      var shape := PayloadShape(info);
      assert ReadUpTo(data, pos, info.offset - pos).1 == info.offset;
      if info.offset + shape.0 * shape.1 <= |data| {
        RunCoversSlice(data, info.offset, shape.0, shape.1);
      }
    }
  }

  /** 64 elements of Q4_0 (two blocks of 32 at 18 bytes each) take 36 bytes. */
  lemma Q4_0Payload()
    ensures PayloadShape(TensorInfo(GgufString(0, []), 1, [64], Q4_0, 0)) == (36, 1)
  {
  }

  /** The division is not checked: a single Q4_0 element rounds down to an empty payload. */
  lemma PartialBlockRoundsDown()
    ensures PayloadShape(TensorInfo(GgufString(0, []), 1, [1], Q4_0, 0)) == (0, 1)
  {
  }

  // ---------------------------------------------------------------------------
  // The constant tables

  /** The metadata kinds have the codes 0 to 12, each decoding back to its kind. */
  lemma ValueTypeCodesRoundTrip(t: MetadataValueType)
    ensures ValueTypeOfCode(ValueTypeCode(t)) == Some(t)
  {
  }

  /** The number set holds eleven kinds: those of every code from 0 to 12 but 8 (STRING) and 9 (ARRAY). */
  lemma NumberSetCodes(c: nat)
    requires c <= 12
    ensures IsNumberType(ValueTypeOfCode(c).value) <==> c != 8 && c != 9
  {
  }

  /** The (block size, type size) entries of the legacy quantizations and the K-quants. */
  lemma QuantSizes()
    ensures GgmlQuantSizes(F32) == Some((1, 4)) && GgmlQuantSizes(F16) == Some((1, 2))
    ensures GgmlQuantSizes(Q4_0) == Some((32, 18)) && GgmlQuantSizes(Q4_1) == Some((32, 20))
    ensures GgmlQuantSizes(Q5_0) == Some((32, 22)) && GgmlQuantSizes(Q5_1) == Some((32, 24))
    ensures GgmlQuantSizes(Q8_0) == Some((32, 34)) && GgmlQuantSizes(Q8_1) == Some((32, 40))
    ensures GgmlQuantSizes(Q2_K) == Some((QK_K, 84)) && GgmlQuantSizes(Q3_K) == Some((QK_K, 110))
    ensures GgmlQuantSizes(Q4_K) == Some((QK_K, 144)) && GgmlQuantSizes(Q5_K) == Some((QK_K, 176))
    ensures GgmlQuantSizes(Q6_K) == Some((QK_K, 210)) && GgmlQuantSizes(Q8_K) == Some((QK_K, 292))
  {
  }

  /** The types without sizes are exactly those with codes 16 to 29. */
  lemma UnsizedTypes(t: GgmlType)
    ensures GgmlQuantSizes(t).None? <==> 16 <= GgmlCode(t) <= 29
  {
  }
}
