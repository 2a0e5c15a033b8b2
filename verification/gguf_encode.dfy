/**
 * A reference writer for the parts of a GGUF stream the reader decodes: the
 * header and metadata values.  Each decoder is proved to read back what the
 * writer wrote, whatever follows it in the stream.
 */
module GgufEncode {
  import opened Wrappers
  import opened ByteCodec
  import opened Utf8
  import opened Constant
  import opened GgufDecode
  import opened GgufProperties

  /** A uint64 reads back from its eight little-endian bytes. */
  lemma UInt64RoundTrip(n: nat)
    requires n < U64
    ensures LeUInt(LeBytes(n, 8)) == n
  {
    assert Pow256(8) == 256 * 256 * 256 * 256 * 256 * 256 * 256 * 256;
    LeUIntOfLeBytes(n, 8);
  }

  /** A uint32 reads back from its four little-endian bytes. */
  lemma UInt32RoundTrip(n: nat)
    requires n < 0x1_0000_0000
    ensures LeUInt(LeBytes(n, 4)) == n
  {
    assert Pow256(4) == 256 * 256 * 256 * 256;
    LeUIntOfLeBytes(n, 4);
  }

  /** The bytes at pos are the first of two parts: each part sits where it is expected. */
  lemma SliceSplit(data: seq<byte>, pos: nat, a: seq<byte>, b: seq<byte>)
    requires pos + |a| + |b| <= |data| && data[pos..pos + |a| + |b|] == a + b
    ensures data[pos..pos + |a|] == a
    ensures data[pos + |a|..pos + |a| + |b|] == b
  {
    assert data[pos..pos + |a|] == (a + b)[..|a|];
    assert data[pos + |a|..pos + |a| + |b|] == (a + b)[|a|..];
  }

  // ---------------------------------------------------------------------------
  // The header

  /** The 24-byte header: magic, version 3, tensor count, entry count. */
  function EncodeHeader(tensorCount: nat, kvCount: nat): (r: seq<byte>)
    ensures |r| == 24
  {
    ValidMagicNumber + LeBytes(ValidGgufVersion, 4) + LeBytes(tensorCount, 8) + LeBytes(kvCount, 8)
  }

  /** The header reads back the two counts it was written with. */
  lemma HeaderRoundTrip(tensorCount: nat, kvCount: nat, rest: seq<byte>)
    requires tensorCount < U64 && kvCount < U64
    ensures DecodeHeader(EncodeHeader(tensorCount, kvCount) + rest) == Success((tensorCount, kvCount))
  {
    var data := EncodeHeader(tensorCount, kvCount) + rest;
    UInt32RoundTrip(ValidGgufVersion);
    UInt64RoundTrip(tensorCount);
    UInt64RoundTrip(kvCount);
    assert data[..4] == ValidMagicNumber;
    assert data[4..8] == LeBytes(ValidGgufVersion, 4);
    assert data[8..16] == LeBytes(tensorCount, 8);
    assert data[16..24] == LeBytes(kvCount, 8);
  }

  // ---------------------------------------------------------------------------
  // Metadata values

  /** A metadata value as it is written: its kind, and for arrays the element kind. */
  datatype WireValue =
    | WireNumber(kind: MetadataValueType, bytes: seq<byte>)
    | WireText(text: seq<byte>)
    | WireArray(elementKind: MetadataValueType, items: seq<WireValue>)

  /** The kind code written before a value of this shape. */
  function KindOf(w: WireValue): MetadataValueType {
    match w
    case WireNumber(kind, _) => kind
    case WireText(_) => STRING
    case WireArray(_, _) => ARRAY
  }

  /**
   * What a well-formed stream holds: numbers of a fixed-width kind and its
   * width, UTF-8 text, arrays whose items are all of the element kind, and
   * lengths that fit a uint64.
   */
  predicate WellFormed(w: WireValue)
    decreases w
  {
    match w
    case WireNumber(kind, bytes) => IsNumberType(kind) && |bytes| == ValueTypeWidth(kind)
    case WireText(text) => ValidUtf8(text) && |text| < U64
    case WireArray(elementKind, items) => |items| < U64 && AllOfKind(items, elementKind)
  }

  /** Well-formed values, every one of kind t. */
  predicate AllOfKind(ws: seq<WireValue>, t: MetadataValueType)
    decreases ws
  {
    |ws| == 0 || (KindOf(ws[0]) == t && WellFormed(ws[0]) && AllOfKind(ws[1..], t))
  }

  /** The bytes of a value: the raw number, the length-prefixed text, or kind, count and items. */
  function Encode(w: WireValue): seq<byte>
    decreases w
  {
    match w
    case WireNumber(_, bytes) => bytes
    case WireText(text) => LeBytes(|text|, 8) + text
    case WireArray(elementKind, items) =>
      LeBytes(ValueTypeCode(elementKind), 4) + LeBytes(|items|, 8) + EncodeAll(items)
  }

  /** The bytes of values written one after another. */
  function EncodeAll(ws: seq<WireValue>): seq<byte>
    decreases ws
  {
    if |ws| == 0 then [] else Encode(ws[0]) + EncodeAll(ws[1..])
  }

  /** The value the reader returns for a written value. */
  function Read(w: WireValue): MetadataValue
    requires WellFormed(w)
    decreases w
  {
    match w
    case WireNumber(kind, bytes) => Number(Convert(NpTypeOf(kind), bytes))
    case WireText(text) => Text(text)
    case WireArray(elementKind, items) => List(ReadAll(items, elementKind))
  }

  /** The values the reader returns for values written one after another. */
  function ReadAll(ws: seq<WireValue>, t: MetadataValueType): (r: seq<MetadataValue>)
    requires AllOfKind(ws, t)
    ensures |r| == |ws|
    decreases ws
  {
    if |ws| == 0 then [] else [Read(ws[0])] + ReadAll(ws[1..], t)
  }

  /** The bytes of value w are in data at pos. */
  predicate WrittenAt(data: seq<byte>, pos: nat, w: WireValue) {
    pos + |Encode(w)| <= |data| && data[pos..pos + |Encode(w)|] == Encode(w)
  }

  /** Decoding a written value at its position gives the value back and ends right after it. */
  lemma DecodeEncode(w: WireValue, data: seq<byte>, pos: nat)
    requires WellFormed(w) && WrittenAt(data, pos, w)
    ensures GetGgufMetadataValue(data, pos, KindOf(w)) == Success((Read(w), pos + |Encode(w)|))
    decreases w, 1
  {
    if w.WireNumber? {
      DecodeNumber(w, data, pos);
    } else if w.WireText? {
      DecodeText(w, data, pos);
    } else {
      DecodeArray(w, data, pos);
    }
  }

  /** A number reads back as the scalar of its bytes. */
  lemma DecodeNumber(w: WireValue, data: seq<byte>, pos: nat)
    requires w.WireNumber? && WellFormed(w) && WrittenAt(data, pos, w)
    ensures GetGgufMetadataValue(data, pos, KindOf(w)) == Success((Read(w), pos + |Encode(w)|))
  {
  }

  /** The eight bytes of a uint64 read back as it. */
  lemma ReadBackUInt64(data: seq<byte>, pos: nat, n: nat)
    requires n < U64 && pos + 8 <= |data| && data[pos..pos + 8] == LeBytes(n, 8)
    ensures ReadUInt64(data, pos) == Success((n, pos + 8))
  {
    UInt64RoundTrip(n);
  }

  /** The four bytes of a uint32 read back as it. */
  lemma ReadBackUInt32(data: seq<byte>, pos: nat, n: nat)
    requires n < 0x1_0000_0000 && pos + 4 <= |data| && data[pos..pos + 4] == LeBytes(n, 4)
    ensures ReadUInt32(data, pos) == Success((n, pos + 4))
  {
    UInt32RoundTrip(n);
  }

  /** The bytes of a written text: its length, then its bytes. */
  lemma TextParts(text: seq<byte>, data: seq<byte>, pos: nat)
    requires |text| < U64
    requires var e := LeBytes(|text|, 8) + text; pos + |e| <= |data| && data[pos..pos + |e|] == e
    ensures pos + 8 + |text| <= |data|
    ensures ReadUInt64(data, pos) == Success((|text|, pos + 8)) && data[pos + 8..pos + 8 + |text|] == text
  {
    SliceSplit(data, pos, LeBytes(|text|, 8), text);
    ReadBackUInt64(data, pos, |text|);
  }

  /** A text value reads back as its bytes. */
  lemma DecodeText(w: WireValue, data: seq<byte>, pos: nat)
    requires w.WireText? && WellFormed(w) && WrittenAt(data, pos, w)
    ensures GetGgufMetadataValue(data, pos, KindOf(w)) == Success((Read(w), pos + |Encode(w)|))
  {
    TextParts(w.text, data, pos);
    TextValue(data, pos, w.text);
  }

  /** The bytes of a written array: element kind, count, then the items. */
  lemma ArrayParts(elementKind: MetadataValueType, items: seq<WireValue>, data: seq<byte>, pos: nat)
    requires |items| < U64
    requires var e := Encode(WireArray(elementKind, items)); pos + |e| <= |data| && data[pos..pos + |e|] == e
    ensures pos + 12 + |EncodeAll(items)| <= |data|
    ensures GetGgufMetadataValueType(data, pos) == Success((elementKind, pos + 4))
    ensures ReadUInt64(data, pos + 4) == Success((|items|, pos + 12))
    ensures data[pos + 12..pos + 12 + |EncodeAll(items)|] == EncodeAll(items)
  {
    var code, count := LeBytes(ValueTypeCode(elementKind), 4), LeBytes(|items|, 8);
    SliceSplit(data, pos, code + count, EncodeAll(items));
    SliceSplit(data, pos, code, count);
    ReadBackUInt32(data, pos, ValueTypeCode(elementKind));
    ReadBackUInt64(data, pos + 4, |items|);
    assert ValueTypeOfCode(ValueTypeCode(elementKind)) == Some(elementKind);
  }

  /** The bytes of the values ws are in data one after another from pos. */
  predicate AllWrittenAt(data: seq<byte>, pos: nat, ws: seq<WireValue>)
    decreases |ws|
  {
    |ws| == 0 || (WrittenAt(data, pos, ws[0]) && AllWrittenAt(data, pos + |Encode(ws[0])|, ws[1..]))
  }

  /** Values written one after another are each where the previous one ends. */
  lemma {:induction false} SplitAll(data: seq<byte>, pos: nat, ws: seq<WireValue>)
    requires pos + |EncodeAll(ws)| <= |data| && data[pos..pos + |EncodeAll(ws)|] == EncodeAll(ws)
    ensures AllWrittenAt(data, pos, ws)
    decreases |ws|
  {
    if |ws| > 0 {
      SliceSplit(data, pos, Encode(ws[0]), EncodeAll(ws[1..]));
      SplitAll(data, pos + |Encode(ws[0])|, ws[1..]);
    }
  }

  /** An array reads back as the list of its items, after its element kind and count. */
  lemma DecodeArray(w: WireValue, data: seq<byte>, pos: nat)
    requires w.WireArray? && WellFormed(w) && WrittenAt(data, pos, w)
    ensures GetGgufMetadataValue(data, pos, KindOf(w)) == Success((Read(w), pos + |Encode(w)|))
    decreases w, 0
  {
    var t, items := w.elementKind, w.items;
    assert w == WireArray(t, items) && |Encode(w)| == 12 + |EncodeAll(items)|;
    ArrayParts(t, items, data, pos);
    ListAt(t, items, data, pos);
  }

  /** After an element kind and a count, the items written one after another read back as the list. */
  lemma ListAt(t: MetadataValueType, items: seq<WireValue>, data: seq<byte>, pos: nat)
    requires AllOfKind(items, t) && pos + 12 + |EncodeAll(items)| <= |data|
    requires GetGgufMetadataValueType(data, pos) == Success((t, pos + 4))
    requires ReadUInt64(data, pos + 4) == Success((|items|, pos + 12))
    requires data[pos + 12..pos + 12 + |EncodeAll(items)|] == EncodeAll(items)
    ensures GetGgufMetadataValue(data, pos, ARRAY) == Success((List(ReadAll(items, t)), pos + 12 + |EncodeAll(items)|))
    decreases items, 2
  {
    DecodeEncodeAll(items, t, data, pos + 12);
    ListValue(data, pos, t, |items|, ReadAll(items, t), pos + 12 + |EncodeAll(items)|);
  }

  /** Values of kind t written one after another form a chain of reads, one value per item. */
  lemma {:induction false} EncodedChain(ws: seq<WireValue>, t: MetadataValueType, data: seq<byte>, pos: nat)
    returns (starts: seq<nat>)
    requires AllOfKind(ws, t) && pos <= |data| && AllWrittenAt(data, pos, ws)
    ensures |starts| == |ws| + 1 && starts[0] == pos && starts[|ws|] == pos + |EncodeAll(ws)|
    ensures IsValueChain(data, t, starts, ReadAll(ws, t))
    decreases ws, 0
  {
    if |ws| == 0 {
      starts := [pos];
    } else {
      var w := ws[0];
      DecodeEncode(w, data, pos);
      var tail := EncodedChain(ws[1..], t, data, pos + |Encode(w)|);
      assert KindOf(w) == t && ReadAll(ws, t) == [Read(w)] + ReadAll(ws[1..], t);
      ChainCons(data, t, pos, Read(w), tail, ReadAll(ws[1..], t));
      starts := [pos] + tail;
    }
  }

  /** Decoding values written one after another gives them all back, in order. */
  lemma DecodeEncodeAll(ws: seq<WireValue>, t: MetadataValueType, data: seq<byte>, pos: nat)
    requires AllOfKind(ws, t)
    requires pos + |EncodeAll(ws)| <= |data| && data[pos..pos + |EncodeAll(ws)|] == EncodeAll(ws)
    ensures GetGgufMetadataValues(data, pos, t, |ws|) == Success((ReadAll(ws, t), pos + |EncodeAll(ws)|))
    decreases ws, 1
  {
    SplitAll(data, pos, ws);
    var starts := EncodedChain(ws, t, data, pos);
    ValuesOfChain(data, t, starts, ReadAll(ws, t));
  }
}
