# GGUF reader and checkpoint layer renaming, in Dafny

This project models two pieces of a small Python tool for GGUF, the container
format of the ggml project.

- **The GGUF reader** (`read_gguf.py`, with the tables of `constant.py`).
  `GGUFLoader` makes one forward pass over a file in a fixed order:
  - the magic bytes `GGUF`, then version 3;
  - the tensor count and the metadata entry count;
  - the metadata table, whose values are numbers, length-prefixed UTF-8
    strings or (possibly nested) arrays;
  - the tensor descriptors;
  - the shift of every descriptor offset by the 32-byte-aligned end of the
    descriptors;
  - the tensor payloads, sized by the `(block size, type size)` table.
- **The checkpoint layer renaming** (`models/ckpt_convert_util.py`).
  `MsCkptRefactorHelper` does three things:
  - it rewrites every checkpoint layer name by folding `str.replace(k, v)`
    over a name map;
  - it moves every tensor to its new name;
  - optionally, it transposes every two-dimensional tensor.

How the model is laid out:

- **The file is a byte sequence.** The file is a `seq<byte>`, and the file
  cursor is a position in it.
- **Each reader step is a pure function.** The static decoders of
  `GGUFLoader` (`auto_struct_unpack`, `get_gguf_string`,
  `get_gguf_metadata_value_type`, `get_gguf_metadata_value`, `padding`) are
  functions in module `GgufDecode`. Each reader returns the decoded item and
  the position after it, or an `Error`. `padding` reads nothing and cannot
  fail: it returns the aligned offset as a bare number.
- **The loader is a class.** The loader is the class `ReadGguf.GgufLoader`,
  whose fields are the Python object's fields. Its step methods, with their
  `for` loops, are proved against the pure functions, step by step up to
  `LoadAndPrint`, which is tied to `GgufDecode.DecodeFile`.
- **The checkpoint helper is a class too.** It is
  `CkptConvertUtil.MsCkptRefactorHelper`, over an insertion-ordered dict
  (`PyDict.Dict`). Its methods are proved against the reference functions
  `Rename`, `MoveAll` and `Transposed`.

Module by module:

- `ByteCodec`: little-endian unsigned and two's-complement integers.
- `Utf8`: the well-formed UTF-8 byte sequences.
- `Constant`: the enums and tables of `constant.py`.
- `StreamReads`: the `for _ in range(n)` read loop, as a function and as the
  chain of facts an imperative loop accumulates.
- `GgufProperties`: properties of the decoder.
- `GgufEncode`: a writer for metadata values and headers. It exists only to
  state the round-trip properties of the decoder.

## Model

| member | source | states |
|---|---|---|
| ByteCodec.LeUIntOfLeBytes | read_gguf.py:29-33 | an unsigned value below 256^width read back from its width little-endian bytes is itself |
| ByteCodec.LeBytesOfLeUInt | read_gguf.py:29-33 | re-encoding the value of a little-endian byte string at its width gives back the bytes |
| ByteCodec.ToSigned | read_gguf.py:29-33 | the signed formats read a two's-complement value in the signed range, negative exactly when the top bit is set |
| ByteCodec.FromSigned | read_gguf.py:29-33 | every value of the signed range has a width-byte unsigned encoding |
| ByteCodec.SignedRoundTrip | read_gguf.py:29-33 | the signed reading loses nothing: the unsigned bits come back from it |
| Utf8.EncodeValid | read_gguf.py:38 | the UTF-8 encoding of any string of scalar values passes the strict `decode("utf-8")` check |
| Utf8.EncodeLength | constant.py:134-141 | a string's UTF-8 byte length is at least its character count, and equal to it exactly when every character is ASCII |
| Constant.GgmlCode | constant.py:30-58 | every GGMLType code is at most 29 and never 4 or 5 |
| Constant.GgmlTypeOfCode | constant.py:30-58 | `GGMLType(code)` succeeds exactly for codes 0..29 other than 4 and 5 |
| Constant.GgmlCodeRoundTrip | constant.py:30-58 | the codes are distinct: decoding a member's code gives back that member |
| Constant.GgmlTypeOfCodeInverse | constant.py:30-58 | the member decoded from a code has that code |
| Constant.ValueTypeCode | constant.py:61-74 | metadata kind codes are in 0..12 |
| Constant.ValueTypeOfCode | constant.py:61-74 | `GGUFMetadataValueType(code)` succeeds exactly for 0..12, giving the kind with that code |
| Constant.FormatsHaveSizes | constant.py:119-131 | every key of FORMAT_NP_TYPE_DICT is a `struct` format with a nonzero size |
| Constant.ValueTypeWidth | constant.py:105-117 | a fixed-width kind is 1, 2, 4 or 8 bytes wide |
| Constant.FormatOf | constant.py:105-131 | every kind in the number set has a format character that FORMAT_NP_TYPE_DICT maps to the kind's numpy type, and whose `struct` size is the kind's width, so scalar decoding is total on the number set |
| Constant.BlockSize | constant.py:247-264 | every block size in GGML_QUANT_SIZES_DICT is 1, 32 or 256, never zero |
| StreamReads.Repeat | read_gguf.py:112-117 | a successful loop of n reads yields exactly n items |
| StreamReads.RepeatAdvances | read_gguf.py:112-117 | a loop of reads that each move forward within the data ends between its start and the end of the data |
| StreamReads.RepeatKeeps | read_gguf.py:124-130 | a property of every single read item holds for every item of the loop |
| StreamReads.RepeatStep | read_gguf.py:112-117 | iteration n + 1 reads where the first n ended and appends its item |
| StreamReads.RepeatFailurePersists | read_gguf.py:112-117 | once the loop fails after k iterations, it fails for every larger count |
| StreamReads.ChainExtend | read_gguf.py:112-117 | each successful iteration extends the record of where every item was read |
| StreamReads.ChainRepeat | read_gguf.py:112-117 | the items read one after another, each where the previous ended, are what the loop yields, ending where the last ended |
| StreamReads.ChainStops | read_gguf.py:112-117 | a read that fails after the first k items makes the whole loop fail |
| PyDict.Without | models/ckpt_convert_util.py:51 | removing a key keeps exactly the other keys, still distinct |
| PyDict.WithoutAt | models/ckpt_convert_util.py:51 | removing the key at index i of a distinct key list leaves the keys before it and the keys after it, in order |
| PyDict.Dict.Put | models/ckpt_convert_util.py:51 | `d[k] = v`: the value is stored, a new key goes last and an existing key keeps its place |
| PyDict.Dict.Pop | models/ckpt_convert_util.py:51 | `d.pop(k)` returns k's value and removes k and nothing else |
| GgufDecode.ReadUpTo | read_gguf.py:38 | `f.read(n)` returns the next n bytes, or all that remain when fewer do |
| GgufDecode.ConvertFits | read_gguf.py:32 | the numpy conversion of unpacked bytes gives a scalar of the format's kind and range |
| GgufDecode.ConvertExact | read_gguf.py:32 | the conversion loses no bits: the bytes are recovered from the scalar, except for bool |
| GgufDecode.AutoStructUnpack | read_gguf.py:29-33 | the read succeeds exactly when `calcsize(fmt)` bytes remain, consumes that many and converts them with the format's numpy type |
| GgufDecode.UnsignedReadsAgree | read_gguf.py:29-33 | the uint32 and uint64 reads used everywhere are `auto_struct_unpack` with "I" and "Q" |
| GgufDecode.GetGgufString | read_gguf.py:35-39 | `length` is the uint64 prefix; the bytes are the (up to) `length` bytes after it, valid UTF-8; the cursor ends after them |
| GgufDecode.GetGgufMetadataValueType | read_gguf.py:41-44 | succeeds exactly when a uint32 remains and its code is 0..12 |
| GgufDecode.GetGgufMetadataValue | read_gguf.py:46-56 | every decoded value consumes at least one byte and stays within the data |
| GgufDecode.GetGgufMetadataValues | read_gguf.py:55 | the comprehension returns exactly n values |
| GgufDecode.StringAt | read_gguf.py:35-39 | a complete, well-formed string reads back whole and consumes 8 + length bytes |
| GgufDecode.TextValue | read_gguf.py:50-51 | a STRING value is the string's bytes and consumes 8 + length bytes |
| GgufDecode.ListValue | read_gguf.py:52-55 | an ARRAY value is the list of `array_length` values read after its element kind and length |
| GgufDecode.ValuesCons | read_gguf.py:55 | a value followed by n values read after it is a list of n + 1 values |
| GgufDecode.ValuesUncons | read_gguf.py:55 | a list of n + 1 values is its first value followed by n values read after it |
| GgufDecode.ChainCons | read_gguf.py:55 | a value read where a chain of values starts lengthens the chain |
| GgufDecode.ValuesOfChain | read_gguf.py:55 | values read one after another, each where the previous ended, are the comprehension's list |
| GgufDecode.ReadMetadataKv | read_gguf.py:113-116 | one entry (key, kind, value) consumes at least one byte and stays within the data |
| GgufDecode.MetadataKvsAdvance | read_gguf.py:112-117 | every metadata entry read moves forward and stays within the data |
| GgufDecode.ReadMetadataKvs | read_gguf.py:112-117 | a successful metadata table has exactly the declared number of entries and ends within the data |
| GgufDecode.ReadDimensions | read_gguf.py:127 | the n dimensions are read exactly when 8n bytes remain, and consume 8n bytes |
| GgufDecode.DimensionsAreWords | read_gguf.py:127 | dimension i is the little-endian uint64 at 8i bytes after the start |
| GgufDecode.ReadTensorInfo | read_gguf.py:125-130 | a descriptor has as many dimensions as its rank, an uncut name, and consumes 24 + name length + 8 * rank bytes |
| GgufDecode.TensorInfosAdvance | read_gguf.py:124-130 | every descriptor read moves forward and stays within the data |
| GgufDecode.ReadTensorInfos | read_gguf.py:124-130 | a successful descriptor table has exactly the declared number of descriptors and ends within the data |
| GgufDecode.Padding | read_gguf.py:58-61 | the aligned offset is a multiple of the alignment, at or after the cursor and less than one alignment past it |
| GgufDecode.AdjustOffsets | read_gguf.py:132-135 | every offset is shifted by the same amount as a uint64; names, ranks, dimensions, types and order are unchanged |
| GgufDecode.Run | read_gguf.py:149-157 | an element run has exactly `count` elements |
| GgufDecode.RunCoversSlice | read_gguf.py:149-157 | the elements are consecutive width-byte pieces that together are exactly the count * width bytes read |
| GgufDecode.RunStep | read_gguf.py:149-157 | element count + 1 is the width bytes right after the first count |
| GgufDecode.ReadRun | read_gguf.py:149-157 | the element loop succeeds exactly when count * width bytes remain and consumes exactly those |
| GgufDecode.PayloadShape | read_gguf.py:145-157 | a payload element is 4, 2 or 1 bytes wide (which type gets which width is stated by PayloadAccounting) |
| GgufDecode.ReadPayload | read_gguf.py:139-158 | a tensor is produced exactly when its offset is at or after the cursor; the cursor never moves back or past the data |
| GgufDecode.ReadPayloads | read_gguf.py:137-158 | there are never more tensors than descriptors, and the cursor ends within the data |
| GgufDecode.PayloadsStep | read_gguf.py:139-158 | descriptor i + 1 is read where the first i ended, appending a tensor unless it is skipped |
| GgufDecode.DecodeHeader | read_gguf.py:165-171 | the header is accepted exactly when there are 24 bytes, the magic is "GGUF" and the version is 3; it yields the two uint64 counts |
| GgufDecode.DecodeTables | read_gguf.py:172-175 | a successful read has exactly the declared numbers of entries and descriptors, and no more tensors than descriptors |
| GgufDecode.DecodeFile | read_gguf.py:160-180 | a decoded file passed the header checks, and its counts are the header's and match the table lengths |
| GgufDecode.PayloadsFailurePersists | read_gguf.py:137-158 | a payload failure after k descriptors makes the whole payload read fail |
| GgufProperties.PaddingIsLeast | read_gguf.py:58-61 | the aligned offset is the least multiple of the alignment at or after the cursor |
| GgufProperties.PaddingFixedPoint | read_gguf.py:58-61 | aligning leaves the cursor unchanged exactly when it is already a multiple of the alignment |
| GgufProperties.PaddingIdempotent | read_gguf.py:58-61 | aligning twice is aligning once |
| GgufProperties.BadMagicStops | read_gguf.py:77-83 | without "GGUF" at the start, decoding fails with the magic-number error, whatever follows |
| GgufProperties.BadVersionStops | read_gguf.py:85-91 | with the magic but a version other than 3, decoding fails with the version error, whatever follows |
| GgufProperties.StringConsumesLength | read_gguf.py:35-39 | a string whose bytes are all present consumes exactly 8 + length bytes, and decodes exactly when they are UTF-8 |
| GgufProperties.StringRoundTrip | constant.py:134-141 | a string written as its UTF-8 byte length and bytes reads back; the length is the byte count, which is the character count only for ASCII |
| GgufProperties.NumberConsumesWidth | read_gguf.py:48-49 | a fixed-width kind consumes exactly its width, and fails only when fewer bytes remain |
| GgufProperties.NumberWidths | constant.py:105-117 | widths are 1 for B/b/?, 2 for H/h, 4 for I/i/f and 8 for Q/q/d |
| GgufProperties.TextValueIsString | read_gguf.py:50-51 | a STRING value is decoded as `get_gguf_string` decodes a string, ending at the same place |
| GgufProperties.ArrayShape | read_gguf.py:52-55 | an ARRAY is a known element kind, a uint64 length and exactly that many values of that kind; an unknown element kind fails |
| GgufProperties.ValueShape | read_gguf.py:46-56 | a decoded value has the shape of its kind |
| GgufProperties.ValuesShape | read_gguf.py:55 | every value of a decoded list has the shape of the element kind |
| GgufProperties.UnknownEntryKind | read_gguf.py:41-44 | an entry kind code above 12 fails with that code |
| GgufProperties.MetadataInStreamOrder | read_gguf.py:112-117 | entry n + 1 of the metadata table is read where the first n end |
| GgufProperties.TensorInfosInStreamOrder | read_gguf.py:124-130 | descriptor n + 1 is read where the first n end |
| GgufProperties.TensorInfosHaveRank | read_gguf.py:124-130 | every descriptor has `len(dimensions) == n_dimensions` |
| GgufProperties.MetadataValuesMatchKinds | read_gguf.py:112-117 | every entry's value has the shape of the kind it declares |
| GgufProperties.PayloadAccounting | read_gguf.py:139-158 | a descriptor behind the cursor is skipped; otherwise the cursor moves to the offset and an unsized type fails; a sized type reads n elements of 4 bytes for F32, n of 2 bytes for F16 and n * type_size // block_size (wrapping as uint64) of 1 byte otherwise, succeeding exactly when they all fit, and the elements together are exactly the bytes after the offset |
| GgufProperties.Q4_0Payload | constant.py:252 | 64 elements of Q4_0 take 36 single-byte elements |
| GgufProperties.PartialBlockRoundsDown | read_gguf.py:147 | the division is not checked: one Q4_0 element gives an empty payload |
| GgufProperties.ValueTypeCodesRoundTrip | constant.py:61-74 | the metadata kinds' codes are distinct: each decodes back to its kind |
| GgufProperties.NumberSetCodes | constant.py:77-83 | the number set is exactly the kinds with codes 0..12 other than STRING and ARRAY, BOOL included |
| GgufProperties.QuantSizes | constant.py:247-263 | the (block size, type size) pairs of F32, F16, the legacy quantizations and the K-quants |
| GgufProperties.UnsizedTypes | constant.py:249-264 | a type has no sizes exactly when its code is 16..29 |
| GgufEncode.UInt64RoundTrip | read_gguf.py:29-33 | a uint64 reads back from its eight little-endian bytes |
| GgufEncode.UInt32RoundTrip | read_gguf.py:29-33 | a uint32 reads back from its four little-endian bytes |
| GgufEncode.EncodeHeader | read_gguf.py:165-171 | the header is 24 bytes |
| GgufEncode.HeaderRoundTrip | read_gguf.py:165-171 | a written header reads back with its two counts, whatever follows |
| GgufEncode.ReadAll | read_gguf.py:55 | reading back written values gives one value per written value |
| GgufEncode.DecodeEncode | read_gguf.py:46-56 | a written value of any kind decodes back to what the reader returns for it and ends right after its bytes |
| GgufEncode.DecodeNumber | read_gguf.py:48-49 | a written number decodes back and ends right after it |
| GgufEncode.ReadBackUInt64 | read_gguf.py:29-33 | the bytes of a uint64 read back as it |
| GgufEncode.ReadBackUInt32 | read_gguf.py:29-33 | the bytes of a uint32 read back as it |
| GgufEncode.TextParts | read_gguf.py:51 | a written text is its uint64 length and then its bytes |
| GgufEncode.DecodeText | read_gguf.py:50-51 | a written text decodes back and ends right after it |
| GgufEncode.ArrayParts | read_gguf.py:52-54 | a written array is its element kind, its count and then its items |
| GgufEncode.SplitAll | read_gguf.py:55 | values written one after another each sit where the previous one ends |
| GgufEncode.DecodeArray | read_gguf.py:52-55 | a written array, nested or not, decodes back to the list of its items and ends right after it |
| GgufEncode.ListAt | read_gguf.py:52-55 | after an element kind and count, the written items decode as the list |
| GgufEncode.EncodedChain | read_gguf.py:55 | written items decode one after another, each where the previous ended |
| GgufEncode.DecodeEncodeAll | read_gguf.py:55 | values written one after another decode back, all of them and in order |
| ReadGguf.GgufLoader.constructor | read_gguf.py:16-27 | a new loader is at position 0 with empty lists, tensor count 0, entry count 64 and alignment 32 |
| ReadGguf.GgufLoader.SetUp | read_gguf.py:63-68 | opening the file puts the cursor at its start |
| ReadGguf.GgufLoader.CheckMagicNumber | read_gguf.py:77-83 | succeeds exactly when the next (up to) four bytes are "GGUF", consuming them |
| ReadGguf.GgufLoader.CheckVersion | read_gguf.py:85-91 | succeeds exactly when the next uint32 is 3 |
| ReadGguf.GgufLoader.ReadTensorCount | read_gguf.py:93-98 | stores the next uint64 as the tensor count, or fails leaving it unchanged |
| ReadGguf.GgufLoader.ReadMetadataKvCount | read_gguf.py:100-105 | stores the next uint64 as the entry count, or fails leaving it unchanged |
| ReadGguf.GgufLoader.ReadNextMetadataKv | read_gguf.py:113-116 | one iteration: the entry at the cursor, with the cursor after it |
| ReadGguf.GgufLoader.ReadMetadataKeyValuePairs | read_gguf.py:107-117 | appends exactly the entry count's entries in stream order; on failure, exactly the entries before the failing one are appended |
| ReadGguf.GgufLoader.ReadNextTensorInfo | read_gguf.py:125-130 | one iteration: the descriptor at the cursor, with the cursor after it |
| ReadGguf.GgufLoader.ReadTensorsInfo | read_gguf.py:119-130 | appends exactly the tensor count's descriptors in stream order; on failure, exactly those before the failing one |
| ReadGguf.GgufLoader.AdjustTensorsInfo | read_gguf.py:132-135 | every descriptor's offset is shifted in place by the same amount, the rest unchanged |
| ReadGguf.GgufLoader.ReadElements | read_gguf.py:149-157 | the element loop reads count elements of width bytes, failing exactly when the data ends first |
| ReadGguf.GgufLoader.ReadTensor | read_gguf.py:140-158 | one iteration: skip to the offset and read the payload, or skip a descriptor behind the cursor |
| ReadGguf.GgufLoader.ReadTensors | read_gguf.py:137-158 | appends the payloads of the descriptors in order; on failure, exactly the tensors before the failing descriptor |
| ReadGguf.GgufLoader.ReadHeader | read_gguf.py:165-171 | the first four steps leave the header's counts and the cursor at 24; a bad magic or version leaves the counts unchanged |
| ReadGguf.GgufLoader.ReadTables | read_gguf.py:172-175 | the last four steps fill the lists as the tables of the file are decoded |
| ReadGguf.GgufLoader.LoadAndPrint | read_gguf.py:160-180 | the steps in order leave the fields as the whole file decodes; a bad magic or version changes nothing but the cursor |
| CkptConvertUtil.InsertEverywhere | models/ckpt_convert_util.py:48 | `s.replace("", r)` has len(s) + (len(s) + 1) * len(r) characters |
| CkptConvertUtil.InsertedCharAt | models/ckpt_convert_util.py:48 | in `s.replace("", r)`, character i of s sits at i * (len(r) + 1) + len(r), right after a copy of r |
| CkptConvertUtil.InsertedBlockAt | models/ckpt_convert_util.py:48 | in `s.replace("", r)`, the len(r) characters from i * (len(r) + 1) on are r, for every i up to len(s) (so r also closes the result) |
| CkptConvertUtil.InsertEverywhereAt | models/ckpt_convert_util.py:48 | `s.replace("", r)` is r before every character of s and r at the end: both facts above for all positions at once |
| CkptConvertUtil.InsertNothing | models/ckpt_convert_util.py:48 | `s.replace("", "")` is s |
| CkptConvertUtil.ReplaceAbsent | models/ckpt_convert_util.py:48 | `replace` of a pattern that does not occur changes nothing |
| CkptConvertUtil.ReplaceSelf | models/ckpt_convert_util.py:48 | replacing any pattern by itself, the empty pattern included, changes nothing |
| CkptConvertUtil.RenameUntouched | models/ckpt_convert_util.py:45-48 | a name in which no map key occurs keeps its name |
| CkptConvertUtil.RenameByIdentity | models/ckpt_convert_util.py:45-48 | a map whose every value is its own key renames nothing |
| CkptConvertUtil.Move | models/ckpt_convert_util.py:51 | moving a tensor to its new name keeps the dict well-formed |
| CkptConvertUtil.MoveToSelf | models/ckpt_convert_util.py:51 | a layer renamed to itself keeps its tensor |
| CkptConvertUtil.MoveAll | models/ckpt_convert_util.py:50-51 | the move loop keeps the dict well-formed, and keeps every layer it does not move |
| CkptConvertUtil.MoveAllPrefix | models/ckpt_convert_util.py:50-51 | the first k + 1 moves are the first k followed by the next one |
| CkptConvertUtil.MoveAllWithoutCollision | models/ckpt_convert_util.py:50-51 | without collisions each new name holds its original's tensor, unmoved layers keep theirs, and nothing else is present |
| CkptConvertUtil.RenamedKeys | models/ckpt_convert_util.py:43-51 | renaming every layer without collisions leaves exactly the new names as keys, each with its original's tensor |
| CkptConvertUtil.MoveKeeps | models/ckpt_convert_util.py:51 | a move leaves every name other than its source and target with its tensor |
| CkptConvertUtil.MoveAllKeepsStep | models/ckpt_convert_util.py:50-51 | a name that move k neither pops nor assigns keeps its tensor over that move |
| CkptConvertUtil.MoveAllKeeps | models/ckpt_convert_util.py:50-51 | a name that no move from step lo to step hi pops or assigns keeps its tensor over those steps |
| CkptConvertUtil.CollisionOverwrites | models/ckpt_convert_util.py:45-51 | when layer i is renamed onto layer j > i, which no layer in between is renamed onto, then just before j moves its entry holds i's tensor, and j carries i's tensor to j's new name: j's own tensor has been overwritten |
| CkptConvertUtil.CollisionLosesTensor | models/ckpt_convert_util.py:45-51 | one example: with the map {"a": "b"} and layers a, b, the result is the single layer b holding a's tensor |
| CkptConvertUtil.TransposedUpTo | models/ckpt_convert_util.py:55-58 | transposing keeps the dict's keys and their order |
| CkptConvertUtil.TransposedUpToStep | models/ckpt_convert_util.py:55-58 | iteration i transposes at most layer i - 1, and only when it is two-dimensional; every other layer keeps its value |
| CkptConvertUtil.TransposedUpToAt | models/ckpt_convert_util.py:55-58 | after i iterations, exactly the two-dimensional layers among the first i are transposed |
| CkptConvertUtil.TransposedUpToAll | models/ckpt_convert_util.py:55-58 | after the whole loop every two-dimensional layer is transposed and no other |
| CkptConvertUtil.MsCkptRefactorHelper.constructor | models/ckpt_convert_util.py:26-36 | the helper holds the loaded checkpoint and the transpose flag, with both name maps empty |
| CkptConvertUtil.MsCkptRefactorHelper.ReadNameMapJson | models/ckpt_convert_util.py:38-40 | the name map becomes the loaded map |
| CkptConvertUtil.MsCkptRefactorHelper.RenameOne | models/ckpt_convert_util.py:46-48 | name i becomes the fold of the map's replacements in map order; the other names are unchanged |
| CkptConvertUtil.MsCkptRefactorHelper.RecordNewNames | models/ckpt_convert_util.py:43-49 | the full-name map has exactly one entry per original layer, in checkpoint order, mapping it to its new name |
| CkptConvertUtil.MsCkptRefactorHelper.MoveLayers | models/ckpt_convert_util.py:50-51 | every layer is popped and stored under its new name, in order |
| CkptConvertUtil.MsCkptRefactorHelper.LayerRename | models/ckpt_convert_util.py:42-51 | records every layer's new name, then moves every tensor to it |
| CkptConvertUtil.MsCkptRefactorHelper.LayerTensorTranspose | models/ckpt_convert_util.py:53-58 | with the flag every two-dimensional tensor is transposed in place; without it the checkpoint is untouched |
| CkptConvertUtil.MsCkptRefactorHelper.DoRefactor | models/ckpt_convert_util.py:60-63 | read the map, rename, then transpose |

## Left out

- File I/O: opening and closing the file (`_set_up`, `_tear_down`) is not modelled. The file's bytes are a constructor parameter, and `SetUp` only resets the cursor.
- Exceptions: `GGUFException`, `struct.error` and the `ValueError` of an unknown enum code all become an `Error` value. `load_and_print` catches only `GGUFException`, prints it and then closes the file; the print, and which exception escapes, are not modelled.
- Floating point: float16, float32 and float64 values are kept as their raw little-endian bytes. Python's `struct` formats without a prefix use native byte order, and little-endian is assumed.
- `convert_ms_tensor_to_ndarray` (models/ckpt_convert_util.py:15-24) is not part of this model. It is a foreign numpy/MindSpore conversion.
- Foreign calls in the checkpoint helper: `ms.load_checkpoint` and `json.load` become parameters (the checkpoint, the name map). A tensor's `dim()` and `ops.transpose` become the function parameters `dim` and `transpose`. Tensors are opaque values.
- Name map types: JSON keys and values are taken to be strings.
- CkptConvertUtil.MsCkptRefactorHelper.LayerRename: requires the full-name map to be empty, as it is on a new helper. A second call, which would also re-move the entries left from the first, is not modelled.
- The guard `if map_key in self._ms_to_gguf_map` (models/ckpt_convert_util.py:47) is always true. `MsCkptRefactorHelper.RenameOne` keeps it. The reference functions `RenameWith` and `Rename` leave it out, and `RenameOne` is proved to compute `Rename`.
- GgufDecode.MetadataKvAt and GgufDecode.TensorInfoAt have an `else Failure(ShortRead)` branch for a position past the data. The loader never reaches it.
- Truncated strings: when the data ends inside a string, `f.read(length)` returns fewer bytes and the source does not check this. The model follows the code: for a length prefix that Python can read (see the next line), the string is accepted, and `length` stays the prefix value.
- Huge reads: `f.read(n)` with n of 2^63 or more raises `OverflowError` in Python, and a smaller n beyond the available memory raises `MemoryError`. The model does not capture either failure: `GgufDecode.ReadUpTo` returns the bytes that remain for any n. This affects the string length prefixes (read_gguf.py:38 and read_gguf.py:51) and the skip to a tensor offset (read_gguf.py:143). For such lengths the model accepts a short string or skip where Python raises.
- Recursion depth: an ARRAY value reads its items by calling the value reader again (read_gguf.py:55), and Python stops with `RecursionError` at roughly 1000 nested levels. The model has no depth limit and decodes arrays nested to any depth.
- Payload sizes: the source does not check that `tensor_length * type_size` is a multiple of `block_size`, and the division rounds down. The model follows the code. A descriptor whose offset is behind the cursor is skipped, also as in the code.
- uint64 arithmetic: numpy's wrap-around appears as `% 2^64` in the offset shift, the element count and `tensor_length * type_size`. `padding`'s own `np.uint64` cast is not modelled, because an aligned cursor within the data never reaches 2^64.
- The loader's `print`-style summaries and `__str__` methods are not modelled.
- The value wrapper classes and `GGUFHeader`/`GGUFFile` of constant.py are not modelled, because the reader never builds them. `GGML_TENSOR_QUANTIZE_DICT` and `ggml_type_np_type_dict` are not modelled either; they map into an external package.
