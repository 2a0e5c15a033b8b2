/**
 * The constant tables of the GGUF reader: the tensor element types and the
 * metadata value types with their wire codes, the set of fixed-width metadata
 * types, the format-character tables that give scalar widths, the
 * (block size, type size) table of the quantization types, and the records
 * the reader builds.
 */
module Constant {
  import opened Wrappers
  import opened ByteCodec

  /** GGMLType: the element encoding of a tensor.  Codes 4 and 5 are not assigned. */
  datatype GgmlType =
    | F32 | F16 | Q4_0 | Q4_1 | Q5_0 | Q5_1 | Q8_0 | Q8_1
    | Q2_K | Q3_K | Q4_K | Q5_K | Q6_K | Q8_K
    | IQ2_XXS | IQ2_XS | IQ3_XXS | IQ1_S | IQ4_NL | IQ3_S | IQ2_S | IQ4_XS
    | I8 | I16 | I32 | I64 | F64 | IQ1_M

  /** The uint32 wire code of each GGMLType member. */
  function GgmlCode(t: GgmlType): (c: nat)
    ensures c <= 29 && c != 4 && c != 5
  {
    match t
    case F32 => 0      case F16 => 1      case Q4_0 => 2     case Q4_1 => 3
    case Q5_0 => 6     case Q5_1 => 7     case Q8_0 => 8     case Q8_1 => 9
    case Q2_K => 10    case Q3_K => 11    case Q4_K => 12    case Q5_K => 13
    case Q6_K => 14    case Q8_K => 15    case IQ2_XXS => 16 case IQ2_XS => 17
    case IQ3_XXS => 18 case IQ1_S => 19   case IQ4_NL => 20  case IQ3_S => 21
    case IQ2_S => 22   case IQ4_XS => 23  case I8 => 24      case I16 => 25
    case I32 => 26     case I64 => 27     case F64 => 28     case IQ1_M => 29
  }

  /** `GGMLType(code)`: the member with that code, or None where the enum raises. */
  function GgmlTypeOfCode(c: nat): (r: Option<GgmlType>)
    ensures r.Some? <==> c <= 29 && c != 4 && c != 5
  {
    match c
    case 0 => Some(F32)      case 1 => Some(F16)      case 2 => Some(Q4_0)     case 3 => Some(Q4_1)
    case 6 => Some(Q5_0)     case 7 => Some(Q5_1)     case 8 => Some(Q8_0)     case 9 => Some(Q8_1)
    case 10 => Some(Q2_K)    case 11 => Some(Q3_K)    case 12 => Some(Q4_K)    case 13 => Some(Q5_K)
    case 14 => Some(Q6_K)    case 15 => Some(Q8_K)    case 16 => Some(IQ2_XXS) case 17 => Some(IQ2_XS)
    case 18 => Some(IQ3_XXS) case 19 => Some(IQ1_S)   case 20 => Some(IQ4_NL)  case 21 => Some(IQ3_S)
    case 22 => Some(IQ2_S)   case 23 => Some(IQ4_XS)  case 24 => Some(I8)      case 25 => Some(I16)
    case 26 => Some(I32)     case 27 => Some(I64)     case 28 => Some(F64)     case 29 => Some(IQ1_M)
    case _ => None
  }

  /** Decoding a code gives back the member that has that code, for every member. */
  lemma GgmlCodeRoundTrip(t: GgmlType)
    ensures GgmlTypeOfCode(GgmlCode(t)) == Some(t)
  {
  }

  /** The member decoded from a code has that code. */
  lemma GgmlTypeOfCodeInverse(c: nat)
    requires GgmlTypeOfCode(c).Some?
    ensures GgmlCode(GgmlTypeOfCode(c).value) == c
  {
  }

  /** GGUFMetadataValueType: the kind of a metadata value. */
  datatype MetadataValueType =
    | UINT8 | INT8 | UINT16 | INT16 | UINT32 | INT32 | FLOAT32
    | BOOL | STRING | ARRAY | UINT64 | INT64 | FLOAT64

  /** The uint32 wire code of each metadata value type. */
  function ValueTypeCode(t: MetadataValueType): (c: nat)
    ensures c <= 12
  {
    match t
    case UINT8 => 0   case INT8 => 1    case UINT16 => 2  case INT16 => 3
    case UINT32 => 4  case INT32 => 5   case FLOAT32 => 6 case BOOL => 7
    case STRING => 8  case ARRAY => 9   case UINT64 => 10 case INT64 => 11
    case FLOAT64 => 12
  }

  /** `GGUFMetadataValueType(code)`: the member with that code, or None where the enum raises. */
  function ValueTypeOfCode(c: nat): (r: Option<MetadataValueType>)
    ensures r.Some? <==> c <= 12
    ensures r.Some? ==> ValueTypeCode(r.value) == c
  {
    match c
    case 0 => Some(UINT8)   case 1 => Some(INT8)    case 2 => Some(UINT16)  case 3 => Some(INT16)
    case 4 => Some(UINT32)  case 5 => Some(INT32)   case 6 => Some(FLOAT32) case 7 => Some(BOOL)
    case 8 => Some(STRING)  case 9 => Some(ARRAY)   case 10 => Some(UINT64) case 11 => Some(INT64)
    case 12 => Some(FLOAT64)
    case _ => None
  }

  /**
   * Membership of GGUF_METADATA_TYPR_NUMBER_SET: the fixed-width kinds, BOOL
   * included, which is every kind but STRING and ARRAY.
   */
  predicate IsNumberType(t: MetadataValueType) {
    t != STRING && t != ARRAY
  }

  /** The numpy scalar types the reader converts unpacked values to. */
  datatype NpType =
    | NpUint8 | NpInt8 | NpUint16 | NpInt16 | NpUint32 | NpInt32
    | NpUint64 | NpInt64 | NpFloat32 | NpFloat64 | NpBool

  /**
   * FORMAT_NP_TYPE_DICT as a lookup: the numpy type of the result of each
   * format character, None for a character that is not a key.
   */
  function FormatNpType(fmt: char): Option<NpType> {
    match fmt
    case 'B' => Some(NpUint8)   case 'b' => Some(NpInt8)
    case 'H' => Some(NpUint16)  case 'h' => Some(NpInt16)
    case 'I' => Some(NpUint32)  case 'i' => Some(NpInt32)
    case 'Q' => Some(NpUint64)  case 'q' => Some(NpInt64)
    case 'f' => Some(NpFloat32) case 'd' => Some(NpFloat64)
    case '?' => Some(NpBool)
    case _ => None
  }

  /**
   * `struct.calcsize` of each single-item native format the reader uses
   * ('e' is float16); None for the characters it never passes.
   */
  function StructSize(fmt: char): Option<nat> {
    match fmt
    case 'B' => Some(1) case 'b' => Some(1) case '?' => Some(1)
    case 'H' => Some(2) case 'h' => Some(2) case 'e' => Some(2)
    case 'I' => Some(4) case 'i' => Some(4) case 'f' => Some(4)
    case 'Q' => Some(8) case 'q' => Some(8) case 'd' => Some(8)
    case _ => None
  }

  /** Every key of FORMAT_NP_TYPE_DICT has a nonzero `struct` size. */
  lemma FormatsHaveSizes(fmt: char)
    requires FormatNpType(fmt).Some?
    ensures StructSize(fmt).Some? && StructSize(fmt).value > 0
  {
  }

  /** The byte width the GGUF format gives each fixed-width metadata kind. */
  function ValueTypeWidth(t: MetadataValueType): (w: nat)
    requires IsNumberType(t)
    ensures w in {1, 2, 4, 8}
  {
    match t
    case UINT8 => 1  case INT8 => 1  case BOOL => 1
    case UINT16 => 2 case INT16 => 2
    case UINT32 => 4 case INT32 => 4 case FLOAT32 => 4
    case UINT64 => 8 case INT64 => 8 case FLOAT64 => 8
  }

  /** The numpy type a fixed-width kind is converted to. */
  function NpTypeOf(t: MetadataValueType): NpType
    requires IsNumberType(t)
  {
    match t
    case UINT8 => NpUint8   case INT8 => NpInt8     case UINT16 => NpUint16
    case INT16 => NpInt16   case UINT32 => NpUint32 case INT32 => NpInt32
    case UINT64 => NpUint64 case INT64 => NpInt64   case FLOAT32 => NpFloat32
    case FLOAT64 => NpFloat64 case BOOL => NpBool
  }

  /**
   * `FORMAT_CHARACTER_DICT[t.name]`: the format character the reader unpacks
   * a fixed-width kind with.  It is a key of FORMAT_NP_TYPE_DICT whose numpy
   * type and `struct` size are the kind's own.
   */
  function FormatOf(t: MetadataValueType): (c: char)
    requires IsNumberType(t)
    ensures FormatNpType(c) == Some(NpTypeOf(t))
    ensures StructSize(c) == Some(ValueTypeWidth(t))
  {
    match t
    case UINT8 => 'B'   case INT8 => 'b'   case UINT16 => 'H' case INT16 => 'h'
    case UINT32 => 'I'  case INT32 => 'i'  case UINT64 => 'Q' case INT64 => 'q'
    case FLOAT32 => 'f' case FLOAT64 => 'd' case BOOL => '?'
  }

  const QK_K: nat := 256

  /**
   * GGML_QUANT_SIZES_DICT as a lookup: (block size, type size) of each sized
   * tensor type, None for the types the table leaves out.
   */
  function GgmlQuantSizes(t: GgmlType): Option<(nat, nat)> {
    match t
    case F32 => Some((1, 4))
    case F16 => Some((1, 2))
    case Q4_0 => Some((32, 2 + 16))
    case Q4_1 => Some((32, 2 + 2 + 16))
    case Q5_0 => Some((32, 2 + 4 + 16))
    case Q5_1 => Some((32, 2 + 2 + 4 + 16))
    case Q8_0 => Some((32, 2 + 32))
    case Q8_1 => Some((32, 4 + 4 + 32))
    case Q2_K => Some((256, 2 + 2 + QK_K / 16 + QK_K / 4))
    case Q3_K => Some((256, 2 + QK_K / 4 + QK_K / 8 + 12))
    case Q4_K => Some((256, 2 + 2 + QK_K / 2 + 12))
    case Q5_K => Some((256, 2 + 2 + QK_K / 2 + QK_K / 8 + 12))
    case Q6_K => Some((256, 2 + QK_K / 2 + QK_K / 4 + QK_K / 16))
    case Q8_K => Some((256, 4 + QK_K + QK_K / 8))
    case _ => None
  }

  /** The block size of a sized tensor type: never zero, so payload sizing can divide by it. */
  function BlockSize(t: GgmlType): (b: nat)
    requires GgmlQuantSizes(t).Some?
    ensures b in {1, 32, 256}
  {
    GgmlQuantSizes(t).value.0
  }

  /** GGUFString: a length prefix and the UTF-8 bytes that follow it. */
  datatype GgufString = GgufString(length: nat, bytes: seq<byte>)

  /** A fixed-width value as numpy holds it; floats are kept as their raw bytes. */
  datatype Scalar =
    | Unsigned(n: nat)
    | Signed(i: int)
    | Float(bits: seq<byte>)
    | Boolean(b: bool)

  /** What the reader returns for a metadata value: a number, the bytes of a str, or a list. */
  datatype MetadataValue =
    | Number(scalar: Scalar)
    | Text(bytes: seq<byte>)
    | List(items: seq<MetadataValue>)

  /** GGUFMetadataKV. */
  datatype MetadataKv = MetadataKv(key: GgufString, valueType: MetadataValueType, value: MetadataValue)

  /** GGUFTensorInfo; the reader shifts `offset` in place once, by the aligned data start. */
  datatype TensorInfo = TensorInfo(
    name: GgufString,
    nDimensions: nat,
    dimensions: seq<nat>,
    tensorType: GgmlType,
    offset: nat)
}
