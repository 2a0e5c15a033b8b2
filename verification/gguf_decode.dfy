/**
 * The GGUF decoder as pure functions of the file's bytes and a cursor
 * position.  Each decoder returns the decoded item with the position after
 * it, or the reason decoding stops.  The static decoders of the reader
 * (`auto_struct_unpack`, `get_gguf_string`, `get_gguf_metadata_value_type`,
 * `get_gguf_metadata_value`, `padding`) are here, and so are the step
 * functions that specify what each loading step of the loader produces.
 */
module GgufDecode {
  import opened Wrappers
  import opened ByteCodec
  import opened Utf8
  import opened Constant
  import opened StreamReads

  /** Why a decode stops. */
  datatype Error =
    | InvalidMagicNumber          // GGUFException("Invalid magic number")
    | InvalidVersion              // GGUFException("Invalid version")
    | ShortRead                   // struct.error, or numpy on a short float16 buffer
    | UnknownValueType(code: nat) // ValueError from GGUFMetadataValueType(code)
    | UnknownGgmlType(code: nat)  // ValueError from GGMLType(code)
    | InvalidUtf8                 // UnicodeDecodeError
    | NoQuantSizes(tensorType: GgmlType) // KeyError from GGML_QUANT_SIZES_DICT

  /** A decoded item paired with the cursor position after it. */
  type Decoded<T> = Result<(T, nat), Error>

  /** VALID_MAGIC_NUMBER, the bytes of "GGUF". */
  const ValidMagicNumber: seq<byte> := [0x47, 0x47, 0x55, 0x46]
  const ValidGgufVersion: nat := 3
  /** The loader's `alignment`. */
  const DefaultAlignment: nat := 32
  /** 2^64: numpy uint64 arithmetic wraps modulo this. */
  const U64: nat := 0x1_0000_0000_0000_0000

  function Min(a: nat, b: nat): nat {
    if a <= b then a else b
  }

  // ---------------------------------------------------------------------------
  // Reading from the stream

  /** `f.read(n)`: the next n bytes, or every remaining byte when fewer remain. */
  function ReadUpTo(data: seq<byte>, pos: nat, n: nat): (r: (seq<byte>, nat))
    requires pos <= |data|
    ensures pos <= r.1 <= |data| && r.0 == data[pos..r.1]
    ensures |r.0| <= n && (|r.0| == n || r.1 == |data|)
  {
    var end := if pos + n <= |data| then pos + n else |data|;
    (data[pos..end], end)
  }

  /** How numpy holds the unpacked bytes of one value of type t. */
  function Convert(t: NpType, bs: seq<byte>): Scalar
    requires |bs| > 0
  {
    match t
    case NpUint8 | NpUint16 | NpUint32 | NpUint64 => Unsigned(LeUInt(bs))
    case NpInt8 | NpInt16 | NpInt32 | NpInt64 => Signed(ToSigned(LeUInt(bs), |bs|))
    case NpFloat32 | NpFloat64 => Float(bs)
    case NpBool => Boolean(LeUInt(bs) != 0)
  }

  /** The scalar variant and range that numpy type t gives a width-byte value. */
  predicate Fits(t: NpType, s: Scalar, width: nat) {
    match t
    case NpUint8 | NpUint16 | NpUint32 | NpUint64 => s.Unsigned? && s.n < Pow256(width)
    case NpInt8 | NpInt16 | NpInt32 | NpInt64 =>
      s.Signed? && width > 0 && -(SignBound(width) as int) <= s.i < SignBound(width)
    case NpFloat32 | NpFloat64 => s.Float? && |s.bits| == width
    case NpBool => s.Boolean?
  }

  /** The bytes a scalar is written as: the inverse of Convert (for booleans, its 0/1 form). */
  function ScalarBytes(t: NpType, s: Scalar, width: nat): seq<byte>
    requires Fits(t, s, width)
  {
    match t
    case NpUint8 | NpUint16 | NpUint32 | NpUint64 => LeBytes(s.n, width)
    case NpInt8 | NpInt16 | NpInt32 | NpInt64 => LeBytes(FromSigned(s.i, width), width)
    case NpFloat32 | NpFloat64 => s.bits
    case NpBool => LeBytes(if s.b then 1 else 0, width)
  }

  /** The scalar converted from width bytes fits the type and width. */
  lemma ConvertFits(t: NpType, bs: seq<byte>)
    requires |bs| > 0
    ensures Fits(t, Convert(t, bs), |bs|)
  {
  }

  /**
   * Converting the bytes of a value loses nothing: for everything but a
   * boolean the bytes are recovered from the scalar.
   */
  lemma ConvertExact(t: NpType, bs: seq<byte>)
    requires |bs| > 0
    ensures Fits(t, Convert(t, bs), |bs|)
    ensures t != NpBool ==> ScalarBytes(t, Convert(t, bs), |bs|) == bs
  {
    ConvertFits(t, bs);
    LeBytesOfLeUInt(bs);
    if t in {NpInt8, NpInt16, NpInt32, NpInt64} {
      SignedRoundTrip(LeUInt(bs), |bs|);
    }
  }

  /**
   * `auto_struct_unpack(f, fmt)`: reads `struct.calcsize(fmt)` bytes and
   * converts them to the numpy type of fmt.  Fails when fewer bytes remain.
   */
  function AutoStructUnpack(data: seq<byte>, pos: nat, fmt: char): (r: Decoded<Scalar>)
    requires pos <= |data| && FormatNpType(fmt).Some?
    ensures StructSize(fmt).Some? && StructSize(fmt).value > 0
    ensures r.Success? <==> pos + StructSize(fmt).value <= |data|
    ensures r.Success? ==>
      && r.value.1 == pos + StructSize(fmt).value
      && r.value.0 == Convert(FormatNpType(fmt).value, data[pos..r.value.1])
  {
    FormatsHaveSizes(fmt);
    var size := StructSize(fmt).value;
    if pos + size > |data| then Failure(ShortRead)
    else Success((Convert(FormatNpType(fmt).value, data[pos..pos + size]), pos + size))
  }

  /** `auto_struct_unpack(f, "I")`: a little-endian uint32 (see UnsignedReadsAgree). */
  function ReadUInt32(data: seq<byte>, pos: nat): Decoded<nat>
    requires pos <= |data|
  {
    if pos + 4 <= |data| then Success((LeUInt(data[pos..pos + 4]), pos + 4)) else Failure(ShortRead)
  }

  /** `auto_struct_unpack(f, "Q")`: a little-endian uint64 (see UnsignedReadsAgree). */
  function ReadUInt64(data: seq<byte>, pos: nat): Decoded<nat>
    requires pos <= |data|
  {
    if pos + 8 <= |data| then Success((LeUInt(data[pos..pos + 8]), pos + 8)) else Failure(ShortRead)
  }

  /** The two unsigned reads are `auto_struct_unpack` with the formats "I" and "Q". */
  lemma UnsignedReadsAgree(data: seq<byte>, pos: nat)
    requires pos <= |data|
    ensures ReadUInt32(data, pos).Success? <==> AutoStructUnpack(data, pos, 'I').Success?
    ensures ReadUInt32(data, pos).Success? ==>
      AutoStructUnpack(data, pos, 'I').value == (Unsigned(ReadUInt32(data, pos).value.0), pos + 4)
    ensures ReadUInt64(data, pos).Success? <==> AutoStructUnpack(data, pos, 'Q').Success?
    ensures ReadUInt64(data, pos).Success? ==>
      AutoStructUnpack(data, pos, 'Q').value == (Unsigned(ReadUInt64(data, pos).value.0), pos + 8)
  {
  }

  // ---------------------------------------------------------------------------
  // Strings and metadata values

  /**
   * `get_gguf_string`: a uint64 length, then that many bytes decoded as UTF-8.
   * `f.read(length)` returns fewer bytes at the end of the data, and the
   * source does not check that, so a truncated string is accepted.
   */
  function GetGgufString(data: seq<byte>, pos: nat): (r: Decoded<GgufString>)
    requires pos <= |data|
    ensures r.Success? ==>
      && pos + 8 <= r.value.1 <= |data|
      && r.value.0.length == LeUInt(data[pos..pos + 8])
      && r.value.1 == Min(pos + 8 + r.value.0.length, |data|)
      && r.value.0.bytes == data[pos + 8..r.value.1]
      && ValidUtf8(r.value.0.bytes)
  {
    var length :- ReadUInt64(data, pos);
    var text := ReadUpTo(data, length.1, length.0);
    if !ValidUtf8(text.0) then Failure(InvalidUtf8)
    else Success((GgufString(length.0, text.0), text.1))
  }

  /** `get_gguf_metadata_value_type`: a uint32 code, which must name a value type. */
  function GetGgufMetadataValueType(data: seq<byte>, pos: nat): (r: Decoded<MetadataValueType>)
    requires pos <= |data|
    ensures r.Success? <==> pos + 4 <= |data| && LeUInt(data[pos..pos + 4]) <= 12
    ensures r.Success? ==>
      r.value.1 == pos + 4 && ValueTypeCode(r.value.0) == LeUInt(data[pos..pos + 4])
  {
    var code :- ReadUInt32(data, pos);
    match ValueTypeOfCode(code.0)
    case None => Failure(UnknownValueType(code.0))
    case Some(t) => Success((t, code.1))
  }

  /** The shape of value the reader returns for a value of type t. */
  predicate ValueMatches(t: MetadataValueType, v: MetadataValue) {
    match t
    case STRING => v.Text?
    case ARRAY => v.List?
    case _ => v.Number? && Fits(NpTypeOf(t), v.scalar, ValueTypeWidth(t))
  }

  /**
   * `get_gguf_metadata_value`: a fixed-width kind is unpacked with its format
   * character, STRING is a length-prefixed string, and ARRAY is a uint32
   * element type, a uint64 length and that many values of the element type.
   * A decoded value always consumes at least one byte.
   */
  function GetGgufMetadataValue(data: seq<byte>, pos: nat, t: MetadataValueType): (r: Decoded<MetadataValue>)
    requires pos <= |data|
    ensures r.Success? ==> pos < r.value.1 <= |data|
    decreases |data| - pos, 0
  {
    if IsNumberType(t) then
      var s :- AutoStructUnpack(data, pos, FormatOf(t));
      Success((Number(s.0), s.1))
    else if t == STRING then
      var s :- GetGgufString(data, pos);
      Success((Text(s.0.bytes), s.1))
    else
      var elementType :- GetGgufMetadataValueType(data, pos);
      var length :- ReadUInt64(data, elementType.1);
      var items :- GetGgufMetadataValues(data, length.1, elementType.0, length.0);
      Success((List(items.0), items.1))
  }

  /** The list comprehension of the ARRAY case: n values of type t, one after another. */
  function GetGgufMetadataValues(data: seq<byte>, pos: nat, t: MetadataValueType, n: nat)
    : (r: Decoded<seq<MetadataValue>>)
    requires pos <= |data|
    ensures r.Success? ==>
      && pos <= r.value.1 <= |data|
      && |r.value.0| == n
    decreases |data| - pos, 1, n
  {
    if n == 0 then Success(([], pos))
    else
      var first :- GetGgufMetadataValue(data, pos, t);
      var rest :- GetGgufMetadataValues(data, first.1, t, n - 1);
      Success(([first.0] + rest.0, rest.1))
  }

  /** A length-prefixed UTF-8 string reads back whole. */
  lemma StringAt(data: seq<byte>, pos: nat, n: nat)
    requires pos + 8 + n <= |data| && ReadUInt64(data, pos) == Success((n, pos + 8))
    requires ValidUtf8(data[pos + 8..pos + 8 + n])
    ensures GetGgufString(data, pos) == Success((GgufString(n, data[pos + 8..pos + 8 + n]), pos + 8 + n))
  {
  }

  /** A STRING value is the string at the cursor. */
  lemma TextValue(data: seq<byte>, pos: nat, text: seq<byte>)
    requires pos + 8 + |text| <= |data| && ValidUtf8(text)
    requires ReadUInt64(data, pos) == Success((|text|, pos + 8)) && data[pos + 8..pos + 8 + |text|] == text
    ensures GetGgufMetadataValue(data, pos, STRING) == Success((Text(text), pos + 8 + |text|))
  {
    StringAt(data, pos, |text|);
  }

  /** An ARRAY value is its element type, its count and the list of that many values. */
  lemma ListValue(data: seq<byte>, pos: nat, t: MetadataValueType, n: nat, vs: seq<MetadataValue>, end: nat)
    requires pos + 12 <= |data|
    requires GetGgufMetadataValueType(data, pos) == Success((t, pos + 4))
    requires ReadUInt64(data, pos + 4) == Success((n, pos + 12))
    requires GetGgufMetadataValues(data, pos + 12, t, n) == Success((vs, end))
    ensures GetGgufMetadataValue(data, pos, ARRAY) == Success((List(vs), end))
  {
  }

  /** One more value in front: the list is that value followed by the rest. */
  lemma ValuesCons(data: seq<byte>, pos: nat, t: MetadataValueType, n: nat,
                   v: MetadataValue, mid: nat, vs: seq<MetadataValue>, end: nat)
    requires pos <= mid <= |data|
    requires GetGgufMetadataValue(data, pos, t) == Success((v, mid))
    requires GetGgufMetadataValues(data, mid, t, n) == Success((vs, end))
    ensures GetGgufMetadataValues(data, pos, t, n + 1) == Success(([v] + vs, end))
  {
  }

  /** A list of n + 1 values is the first value followed by a list of n read after it. */
  lemma ValuesUncons(data: seq<byte>, pos: nat, t: MetadataValueType, n: nat)
    requires pos <= |data| && GetGgufMetadataValues(data, pos, t, n + 1).Success?
    ensures var first := GetGgufMetadataValue(data, pos, t);
      && first.Success? && first.value.1 <= |data|
      && var rest := GetGgufMetadataValues(data, first.value.1, t, n);
      && rest.Success?
      && GetGgufMetadataValues(data, pos, t, n + 1).value == ([first.value.0] + rest.value.0, rest.value.1)
  {
  }

  /** Value i of vs is read at starts[i] and ends at starts[i + 1]. */
  predicate IsValueChain(data: seq<byte>, t: MetadataValueType, starts: seq<nat>, vs: seq<MetadataValue>)
    decreases |vs|
  {
    && |starts| == |vs| + 1 && starts[0] <= |data|
    && (|vs| == 0 ||
        (GetGgufMetadataValue(data, starts[0], t) == Success((vs[0], starts[1]))
         && IsValueChain(data, t, starts[1..], vs[1..])))
  }

  /** A value read at start, followed by a chain that begins where it ended, is a longer chain. */
  lemma ChainCons(data: seq<byte>, t: MetadataValueType, start: nat, v: MetadataValue, starts: seq<nat>, vs: seq<MetadataValue>)
    requires start <= |data| && IsValueChain(data, t, starts, vs)
    requires GetGgufMetadataValue(data, start, t) == Success((v, starts[0]))
    ensures IsValueChain(data, t, [start] + starts, [v] + vs)
  {
    assert ([start] + starts)[1..] == starts && ([v] + vs)[1..] == vs;
  }

  /** Values read one after another, each where the previous ended, make up the list. */
  lemma {:induction false} ValuesOfChain(data: seq<byte>, t: MetadataValueType, starts: seq<nat>, vs: seq<MetadataValue>)
    requires IsValueChain(data, t, starts, vs)
    ensures GetGgufMetadataValues(data, starts[0], t, |vs|) == Success((vs, starts[|vs|]))
    decreases |vs|
  {
    if |vs| > 0 {
      ValuesOfChain(data, t, starts[1..], vs[1..]);
      ValuesCons(data, starts[0], t, |vs| - 1, vs[0], starts[1], vs[1..], starts[|vs|]);
      assert [vs[0]] + vs[1..] == vs;
    }
  }

  // ---------------------------------------------------------------------------
  // The metadata table and the tensor descriptors

  /** One iteration of `_read_metadata_key_value_pairs`: key, value type, value. */
  function ReadMetadataKv(data: seq<byte>, pos: nat): (r: Decoded<MetadataKv>)
    requires pos <= |data|
    ensures r.Success? ==> pos < r.value.1 <= |data|
  {
    var key :- GetGgufString(data, pos);
    var valueType :- GetGgufMetadataValueType(data, key.1);
    var value :- GetGgufMetadataValue(data, valueType.1, valueType.0);
    Success((MetadataKv(key.0, valueType.0, value.0), value.1))
  }

  /**
   * ReadMetadataKv as one read of the loop of `_read_metadata_key_value_pairs`.
   * The loader only reads within the data, so the second branch is never taken.
   */
  function MetadataKvAt(data: seq<byte>): nat -> Decoded<MetadataKv> {
    (p: nat) => if p <= |data| then ReadMetadataKv(data, p) else Failure(ShortRead)
  }

  /** Every entry read moves forward and stays within the data. */
  lemma MetadataKvsAdvance(data: seq<byte>)
    ensures Advances(MetadataKvAt(data), |data|)
  {
    forall p: nat | p <= |data| && MetadataKvAt(data)(p).Success?
      ensures p <= MetadataKvAt(data)(p).value.1 <= |data|
    {
      assert MetadataKvAt(data)(p) == ReadMetadataKv(data, p);
    }
  }

  /** The first n entries of the metadata table that starts at pos, in stream order. */
  function ReadMetadataKvs(data: seq<byte>, pos: nat, n: nat): (r: Decoded<seq<MetadataKv>>)
    requires pos <= |data|
    ensures r.Success? ==> |r.value.0| == n && pos <= r.value.1 <= |data|
  {
    MetadataKvsAdvance(data);
    RepeatAdvances(MetadataKvAt(data), |data|, pos, n);
    Repeat(MetadataKvAt(data), pos, n)
  }

  /** The list comprehension of `_read_tensors_info`: n uint64 dimensions. */
  function ReadDimensions(data: seq<byte>, pos: nat, n: nat): (r: Decoded<seq<nat>>)
    requires pos <= |data|
    ensures r.Success? <==> pos + 8 * n <= |data|
    ensures r.Success? ==> r.value.1 == pos + 8 * n && |r.value.0| == n
    decreases n
  {
    if n == 0 then Success(([], pos))
    else
      var first :- ReadUInt64(data, pos);
      var rest :- ReadDimensions(data, first.1, n - 1);
      Success(([first.0] + rest.0, rest.1))
  }

  /** Dimension i is the little-endian uint64 at pos + 8i. */
  lemma {:induction false} DimensionsAreWords(data: seq<byte>, pos: nat, n: nat)
    requires pos + 8 * n <= |data|
    ensures forall i :: 0 <= i < n ==>
      ReadDimensions(data, pos, n).value.0[i] == LeUInt(data[pos + 8 * i..pos + 8 * i + 8])
    decreases n
  {
    if n > 0 {
      DimensionsAreWords(data, pos + 8, n - 1);
      var rest := ReadDimensions(data, pos + 8, n - 1).value.0;
      assert ReadDimensions(data, pos, n).value.0 == [LeUInt(data[pos..pos + 8])] + rest;
      forall i | 0 < i < n
        ensures ReadDimensions(data, pos, n).value.0[i] == LeUInt(data[pos + 8 * i..pos + 8 * i + 8])
      {
        assert rest[i - 1] == LeUInt(data[pos + 8 + 8 * (i - 1)..pos + 8 + 8 * (i - 1) + 8]);
      }
    }
  }

  /**
   * One iteration of `_read_tensors_info`: name, rank, dimensions, type code
   * (which must name a GGMLType) and offset.  The reads after the name can
   * only succeed when the name was not cut short.
   */
  function ReadTensorInfo(data: seq<byte>, pos: nat): (r: Decoded<TensorInfo>)
    requires pos <= |data|
    ensures r.Success? ==>
      var info := r.value.0;
      && r.value.1 <= |data|
      && |info.dimensions| == info.nDimensions
      && info.name.length == |info.name.bytes|
      && r.value.1 == pos + 24 + info.name.length + 8 * info.nDimensions
      && info.offset < U64
  {
    var name :- GetGgufString(data, pos);
    var nDimensions :- ReadUInt32(data, name.1);
    var dimensions :- ReadDimensions(data, nDimensions.1, nDimensions.0);
    var code :- ReadUInt32(data, dimensions.1);
    var tensorType :- match GgmlTypeOfCode(code.0)
      case None => Failure(UnknownGgmlType(code.0))
      case Some(t) => Success(t);
    var offset :- ReadUInt64(data, code.1);
    Success((TensorInfo(name.0, nDimensions.0, dimensions.0, tensorType, offset.0), offset.1))
  }

  /**
   * ReadTensorInfo as one read of the loop of `_read_tensors_info`.  The
   * loader only reads within the data, so the second branch is never taken.
   */
  function TensorInfoAt(data: seq<byte>): nat -> Decoded<TensorInfo> {
    (p: nat) => if p <= |data| then ReadTensorInfo(data, p) else Failure(ShortRead)
  }

  /** Every descriptor read moves forward and stays within the data. */
  lemma TensorInfosAdvance(data: seq<byte>)
    ensures Advances(TensorInfoAt(data), |data|)
  {
    forall p: nat | p <= |data| && TensorInfoAt(data)(p).Success?
      ensures p <= TensorInfoAt(data)(p).value.1 <= |data|
    {
      assert TensorInfoAt(data)(p) == ReadTensorInfo(data, p);
    }
  }

  /** The first n tensor descriptors of the table that starts at pos, in stream order. */
  function ReadTensorInfos(data: seq<byte>, pos: nat, n: nat): (r: Decoded<seq<TensorInfo>>)
    requires pos <= |data|
    ensures r.Success? ==> |r.value.0| == n && pos <= r.value.1 <= |data|
  {
    TensorInfosAdvance(data);
    RepeatAdvances(TensorInfoAt(data), |data|, pos, n);
    Repeat(TensorInfoAt(data), pos, n)
  }

  // ---------------------------------------------------------------------------
  // Alignment

  /**
   * `padding(cur, alignment)`: despite its name, the ALIGNED OFFSET, the
   * least multiple of the alignment at or after cur.
   */
  function Padding(cur: nat, alignment: nat): (r: nat)
    requires alignment > 0
    ensures cur <= r < cur + alignment && r % alignment == 0
  {
    var q, m := cur / alignment, cur % alignment;
    if m == 0 then
      DivModUnique(alignment, alignment, 1, 0);
      cur + (alignment - m) % alignment
    else
      DivModUnique(alignment - m, alignment, 0, alignment - m);
      DivModUnique(cur + (alignment - m), alignment, q + 1, 0);
      cur + (alignment - m) % alignment
  }

  lemma MulAtLeast(k: int, a: int)
    requires k >= 1 && a > 0
    ensures k * a >= a
  {
  }

  /** x == q * a + r with 0 <= r < a determines the quotient and the remainder. */
  lemma DivModUnique(x: int, a: int, q: int, r: int)
    requires a > 0 && 0 <= r < a && x == q * a + r
    ensures x % a == r && x / a == q
  {
    var q', r' := x / a, x % a;
    assert (q - q') * a == r' - r;
    if q > q' {
      MulAtLeast(q - q', a);
    } else if q < q' {
      MulAtLeast(q' - q, a);
    }
  }

  /** `_adjust_tensors_info(d)`: every offset shifted by d, wrapping as uint64. */
  function AdjustOffsets(infos: seq<TensorInfo>, d: nat): (r: seq<TensorInfo>)
    ensures |r| == |infos|
    ensures forall i :: 0 <= i < |infos| ==>
      && r[i].name == infos[i].name
      && r[i].nDimensions == infos[i].nDimensions
      && r[i].dimensions == infos[i].dimensions
      && r[i].tensorType == infos[i].tensorType
      && r[i].offset == (infos[i].offset + d) % U64
  {
    seq(|infos|, i requires 0 <= i < |infos| => infos[i].(offset := (infos[i].offset + d) % U64))
  }

  // ---------------------------------------------------------------------------
  // Tensor payloads

  /** The product of the dimensions (1 for rank 0). */
  function Product(dims: seq<nat>): nat {
    if |dims| == 0 then 1 else dims[0] * Product(dims[1..])
  }

  /** The concatenation of a sequence of byte strings. */
  function Flatten(chunks: seq<seq<byte>>): seq<byte> {
    if |chunks| == 0 then [] else Flatten(chunks[..|chunks| - 1]) + chunks[|chunks| - 1]
  }

  /** count elements of width bytes each, read one after another from pos. */
  function Run(data: seq<byte>, pos: nat, count: nat, width: nat): (r: seq<seq<byte>>)
    requires pos + count * width <= |data|
    ensures |r| == count
    decreases count
  {
    if count == 0 then []
    else
      MulStep(count, width);
      var prefix := Run(data, pos, count - 1, width);
      prefix + [data[pos + (count - 1) * width..pos + count * width]]
  }

  /**
   * A run cuts the count * width bytes after pos into consecutive elements
   * of width bytes each: nothing is dropped, repeated or reordered.
   */
  lemma {:induction false} RunCoversSlice(data: seq<byte>, pos: nat, count: nat, width: nat)
    requires pos + count * width <= |data|
    ensures forall i :: 0 <= i < count ==> |Run(data, pos, count, width)[i]| == width
    ensures Flatten(Run(data, pos, count, width)) == data[pos..pos + count * width]
    decreases count
  {
    if count > 0 {
      MulStep(count, width);
      RunCoversSlice(data, pos, count - 1, width);
      var mid, end := pos + (count - 1) * width, pos + count * width;
      var prefix, run := Run(data, pos, count - 1, width), Run(data, pos, count, width);
      assert run == prefix + [data[mid..end]];
      assert run[..count - 1] == prefix;
      assert data[pos..end] == data[pos..mid] + data[mid..end];
    }
  }

  /** One more element of a run: the width bytes right after the first count. */
  lemma RunStep(data: seq<byte>, pos: nat, count: nat, width: nat)
    requires pos + (count + 1) * width <= |data|
    ensures pos + count * width + width == pos + (count + 1) * width
    ensures Run(data, pos, count + 1, width) ==
      Run(data, pos, count, width) + [data[pos + count * width..pos + count * width + width]]
  {
    MulStep(count + 1, width);
  }

  lemma MulStep(count: nat, width: nat)
    requires count > 0
    ensures 0 <= (count - 1) * width <= count * width
    ensures (count - 1) * width + width == count * width
  {
  }

  lemma MulMonotone(i: nat, n: nat, width: nat)
    requires i <= n
    ensures i * width <= n * width
  {
  }

  /** Reading count elements of width bytes: fails when the data ends first. */
  function ReadRun(data: seq<byte>, pos: nat, count: nat, width: nat): (r: Decoded<seq<seq<byte>>>)
    requires pos <= |data|
    ensures r.Success? <==> pos + count * width <= |data|
    ensures r.Success? ==> r.value.1 == pos + count * width && r.value.0 == Run(data, pos, count, width)
  {
    var end := pos + count * width;
    if end <= |data| then Success((Run(data, pos, count, width), end))
    else Failure(ShortRead)
  }

  /** `np.uint64(np.prod(dimensions))`: the element count, wrapped as uint64. */
  function TensorLength(info: TensorInfo): nat {
    Product(info.dimensions) % U64
  }

  /**
   * The elements the payload loop of `_read_tensors` reads for a sized type:
   * TensorLength 4-byte floats for F32, TensorLength 2-byte floats for F16,
   * otherwise `tensor_length * type_size // block_size` single bytes, the
   * product wrapping as uint64 and the division rounding down.
   */
  function PayloadShape(info: TensorInfo): (r: (nat, nat))
    requires GgmlQuantSizes(info.tensorType).Some?
    ensures r.1 in {1, 2, 4}
  {
    var n := TensorLength(info);
    var typeSize := GgmlQuantSizes(info.tensorType).value.1;
    if info.tensorType == F32 then (n, 4)
    else if info.tensorType == F16 then (n, 2)
    else ((n * typeSize) % U64 / BlockSize(info.tensorType), 1)
  }

  /** A tensor payload: the raw bytes of each element (float32, float16 or uint8). */
  type TensorData = seq<seq<byte>>

  /**
   * One iteration of `_read_tensors`.  A descriptor whose offset is at or
   * after the cursor moves the cursor there (a short read at the end of the
   * data), looks up the type's sizes and reads the payload; one whose offset
   * is behind the cursor is skipped and yields no tensor.
   */
  function ReadPayload(data: seq<byte>, pos: nat, info: TensorInfo): (r: Decoded<Option<TensorData>>)
    requires pos <= |data|
    ensures r.Success? ==> pos <= r.value.1 <= |data|
    ensures r.Success? ==> (r.value.0.Some? <==> info.offset >= pos)
  {
    if info.offset < pos then Success((None, pos))
    else
      var start := ReadUpTo(data, pos, info.offset - pos).1;
      if GgmlQuantSizes(info.tensorType).None? then Failure(NoQuantSizes(info.tensorType))
      else
        var shape := PayloadShape(info);
        var payload :- ReadRun(data, start, shape.0, shape.1);
        Success((Some(payload.0), payload.1))
  }

  /** The tensors read for the descriptors infos, in descriptor order, from pos. */
  function ReadPayloads(data: seq<byte>, pos: nat, infos: seq<TensorInfo>): (r: Decoded<seq<TensorData>>)
    requires pos <= |data|
    ensures r.Success? ==> |r.value.0| <= |infos| && pos <= r.value.1 <= |data|
    decreases |infos|
  {
    if |infos| == 0 then Success(([], pos))
    else
      var prefix :- ReadPayloads(data, pos, infos[..|infos| - 1]);
      var tensor :- ReadPayload(data, prefix.1, infos[|infos| - 1]);
      var appended := if tensor.0.Some? then [tensor.0.value] else [];
      Success((prefix.0 + appended, tensor.1))
  }

  /** One more descriptor's payload after the first i, or nothing when it is skipped. */
  lemma PayloadsStep(data: seq<byte>, pos: nat, infos: seq<TensorInfo>, i: nat)
    requires pos <= |data| && i < |infos| && ReadPayloads(data, pos, infos[..i]).Success?
    ensures var prefix := ReadPayloads(data, pos, infos[..i]).value;
      var tensor := ReadPayload(data, prefix.1, infos[i]);
      ReadPayloads(data, pos, infos[..i + 1]) ==
        if tensor.Failure? then Failure(tensor.error)
        else if tensor.value.0.None? then Success((prefix.0, tensor.value.1))
        else Success((prefix.0 + [tensor.value.0.value], tensor.value.1))
  {
    assert infos[..i + 1][..i] == infos[..i];
    assert ReadPayloads(data, pos, infos[..i]).value.0 + [] == ReadPayloads(data, pos, infos[..i]).value.0;
  }

  // ---------------------------------------------------------------------------
  // The whole file

  /** What a successful `load_and_print` leaves in the loader's fields. */
  datatype GgufFile = GgufFile(
    tensorCount: nat,
    metadataKvCount: nat,
    metadata: seq<MetadataKv>,
    tensorInfos: seq<TensorInfo>,
    tensors: seq<TensorData>)

  /**
   * The first four steps of `load_and_print`: the magic number, the version
   * and the two counts, which end at byte 24.  Yields (tensor count, entry
   * count).
   */
  function DecodeHeader(data: seq<byte>): (r: Result<(nat, nat), Error>)
    ensures r.Success? <==>
      |data| >= 24 && data[..4] == ValidMagicNumber && LeUInt(data[4..8]) == ValidGgufVersion
    ensures r.Success? ==> r.value == (LeUInt(data[8..16]), LeUInt(data[16..24]))
  {
    var magic := ReadUpTo(data, 0, 4);
    if magic.0 != ValidMagicNumber then Failure(InvalidMagicNumber)
    else
      var version :- ReadUInt32(data, magic.1);
      if version.0 != ValidGgufVersion then Failure(InvalidVersion)
      else
        var tensorCount :- ReadUInt64(data, version.1);
        var kvCount :- ReadUInt64(data, tensorCount.1);
        Success((tensorCount.0, kvCount.0))
  }

  /**
   * The last four steps of `load_and_print`, from byte 24: the metadata
   * table, the descriptors, the offset adjustment by the aligned end of the
   * descriptors, and the payloads.  The cursor itself is not moved to the
   * aligned offset; the first payload read skips forward to it.
   */
  function DecodeTables(data: seq<byte>, tensorCount: nat, kvCount: nat): (r: Result<GgufFile, Error>)
    requires 24 <= |data|
    ensures r.Success? ==>
      && r.value.tensorCount == tensorCount
      && r.value.metadataKvCount == kvCount
      && |r.value.metadata| == kvCount
      && |r.value.tensorInfos| == tensorCount
      && |r.value.tensors| <= tensorCount
  {
    var metadata :- ReadMetadataKvs(data, 24, kvCount);
    var infos :- ReadTensorInfos(data, metadata.1, tensorCount);
    var adjusted := AdjustOffsets(infos.0, Padding(infos.1, DefaultAlignment));
    var tensors :- ReadPayloads(data, infos.1, adjusted);
    Success(GgufFile(tensorCount, kvCount, metadata.0, adjusted, tensors.0))
  }

  /** `load_and_print` as a whole: the header, then the tables. */
  function DecodeFile(data: seq<byte>): (r: Result<GgufFile, Error>)
    ensures r.Success? ==>
      && DecodeHeader(data).Success?
      && r.value.tensorCount == LeUInt(data[8..16])
      && r.value.metadataKvCount == LeUInt(data[16..24])
      && |r.value.metadata| == r.value.metadataKvCount
      && |r.value.tensorInfos| == r.value.tensorCount
      && |r.value.tensors| <= r.value.tensorCount
  {
    var header :- DecodeHeader(data);
    DecodeTables(data, header.0, header.1)
  }

  // ---------------------------------------------------------------------------
  // Once a payload fails, every longer run of descriptors fails too

  lemma {:induction false} PayloadsFailurePersists(data: seq<byte>, pos: nat, infos: seq<TensorInfo>, k: nat)
    requires pos <= |data| && k <= |infos| && ReadPayloads(data, pos, infos[..k]).Failure?
    ensures ReadPayloads(data, pos, infos).Failure?
    decreases |infos|
  {
    if k < |infos| {
      assert infos[..|infos| - 1][..k] == infos[..k];
      PayloadsFailurePersists(data, pos, infos[..|infos| - 1], k);
    } else {
      assert infos[..k] == infos;
    }
  }
}
