/**
 * GGUFLoader: the object that makes one forward pass over a GGUF file,
 * filling its fields step by step.  Each step is proved to leave exactly
 * what the matching decoding function of GgufDecode describes, and the
 * whole pass to leave what DecodeFile describes.
 */
module ReadGguf {
  import opened Wrappers
  import opened ByteCodec
  import opened Constant
  import opened GgufDecode
  import opened StreamReads

  class GgufLoader {
    /** The bytes of the file at `gguf_file_path`. */
    const data: seq<byte>
    /** `f.tell()`: the cursor of the open file. */
    var pos: nat
    var tensorCount: nat
    var metadataKvCount: nat
    var metadata: seq<MetadataKv>
    var tensorInfos: seq<TensorInfo>
    const alignment: nat
    var tensors: seq<TensorData>

    ghost predicate Valid()
      reads this
    {
      pos <= |data| && alignment == DefaultAlignment
    }

    /** `__init__`; note that `metadata_kv_count` starts as `np.uint(64)`, the number 64. */
    constructor (fileData: seq<byte>)
      ensures Valid() && data == fileData
      ensures pos == 0 && tensorCount == 0 && metadataKvCount == 64
      ensures metadata == [] && tensorInfos == [] && tensors == []
    {
      data := fileData;
      pos := 0;
      tensorCount := 0;
      metadataKvCount := 64;
      metadata := [];
      tensorInfos := [];
      alignment := DefaultAlignment;
      tensors := [];
    }

    /** `_set_up`: opening the file puts the cursor at its start. */
    method SetUp()
      modifies this`pos
      ensures pos == 0
    {
      pos := 0;
    }

    /** `_check_magic_number`: the next (up to) four bytes must be "GGUF". */
    method CheckMagicNumber() returns (ok: bool)
      requires Valid()
      modifies this`pos
      ensures Valid()
      ensures var read := ReadUpTo(data, old(pos), 4);
        ok == (read.0 == ValidMagicNumber) && pos == read.1
    {
      var read := ReadUpTo(data, pos, 4);
      pos := read.1;
      ok := read.0 == ValidMagicNumber;
    }

    /** `_check_version`: the next uint32 must be 3. */
    method CheckVersion() returns (ok: bool)
      requires Valid()
      modifies this`pos
      ensures Valid()
      ensures var version := ReadUInt32(data, old(pos));
        && ok == (version.Success? && version.value.0 == ValidGgufVersion)
        && (version.Success? ==> pos == version.value.1)
    {
      var version := ReadUInt32(data, pos);
      if version.Failure? {
        return false;
      }
      pos := version.value.1;
      ok := version.value.0 == ValidGgufVersion;
    }

    /** `_read_tensor_count`: a uint64. */
    method ReadTensorCount() returns (ok: bool)
      requires Valid()
      modifies this`pos, this`tensorCount
      ensures Valid()
      ensures var count := ReadUInt64(data, old(pos));
        && ok == count.Success?
        && (ok ==> tensorCount == count.value.0 && pos == count.value.1)
        && (!ok ==> tensorCount == old(tensorCount))
    {
      var count := ReadUInt64(data, pos);
      if count.Failure? {
        return false;
      }
      tensorCount, pos := count.value.0, count.value.1;
      ok := true;
    }

    /** `_read_metadata_kv_count`: a uint64. */
    method ReadMetadataKvCount() returns (ok: bool)
      requires Valid()
      modifies this`pos, this`metadataKvCount
      ensures Valid()
      ensures var count := ReadUInt64(data, old(pos));
        && ok == count.Success?
        && (ok ==> metadataKvCount == count.value.0 && pos == count.value.1)
        && (!ok ==> metadataKvCount == old(metadataKvCount))
    {
      var count := ReadUInt64(data, pos);
      if count.Failure? {
        return false;
      }
      metadataKvCount, pos := count.value.0, count.value.1;
      ok := true;
    }

    /** The body of the loop of `_read_metadata_key_value_pairs`: one entry, or None when it fails. */
    method ReadNextMetadataKv() returns (kv: Option<MetadataKv>)
      requires Valid()
      modifies this`pos
      ensures Valid()
      ensures var read := ReadMetadataKv(data, old(pos));
        && kv.Some? == read.Success?
        && (kv.Some? ==> kv.value == read.value.0 && pos == read.value.1)
        && (kv.None? ==> pos == old(pos))
    {
      var read := ReadMetadataKv(data, pos);
      if read.Failure? {
        return None;
      }
      kv, pos := Some(read.value.0), read.value.1;
    }

    /**
     * `_read_metadata_key_value_pairs`: appends metadataKvCount entries in
     * stream order.  When an entry fails, the entries before it stay appended.
     */
    method ReadMetadataKeyValuePairs() returns (ok: bool, ghost failedAt: nat, ghost got: seq<MetadataKv>)
      requires Valid()
      modifies this`pos, this`metadata
      ensures Valid()
      ensures var kvs := ReadMetadataKvs(data, old(pos), metadataKvCount);
        && ok == kvs.Success?
        && (ok ==> metadata == old(metadata) + kvs.value.0 && pos == kvs.value.1)
      ensures !ok ==>
        && failedAt < metadataKvCount
        && ReadMetadataKvs(data, old(pos), failedAt) == Success((got, pos))
        && metadata == old(metadata) + got
        && ReadMetadataKvs(data, old(pos), failedAt + 1).Failure?
    {
      var i := 0;
      ghost var starts, read := [pos], [];
      failedAt, got := 0, [];
      while i < metadataKvCount
        invariant 0 <= i <= metadataKvCount && Valid()
        invariant |read| == i && metadata == old(metadata) + read
        invariant Chain(MetadataKvAt(data), starts, read) && starts[0] == old(pos) && starts[i] == pos
      {
        var kv := ReadNextMetadataKv();
        if kv.None? {
          ChainStops(MetadataKvAt(data), starts, read, metadataKvCount);
          ChainRepeat(MetadataKvAt(data), starts, read);
          return false, i, read;
        }
        ChainExtend(MetadataKvAt(data), starts, read, kv.value, pos);
        metadata, read, starts := metadata + [kv.value], read + [kv.value], starts + [pos];
        i := i + 1;
      }
      ChainRepeat(MetadataKvAt(data), starts, read);
      ok := true;
    }

    /** The body of the loop of `_read_tensors_info`: one descriptor, or None when it fails. */
    method ReadNextTensorInfo() returns (info: Option<TensorInfo>)
      requires Valid()
      modifies this`pos
      ensures Valid()
      ensures var read := ReadTensorInfo(data, old(pos));
        && info.Some? == read.Success?
        && (info.Some? ==> info.value == read.value.0 && pos == read.value.1)
        && (info.None? ==> pos == old(pos))
    {
      var read := ReadTensorInfo(data, pos);
      if read.Failure? {
        return None;
      }
      info, pos := Some(read.value.0), read.value.1;
    }

    /**
     * `_read_tensors_info`: appends tensorCount descriptors in stream order.
     * When a descriptor fails, the descriptors before it stay appended.
     */
    method ReadTensorsInfo() returns (ok: bool, ghost failedAt: nat, ghost got: seq<TensorInfo>)
      requires Valid()
      modifies this`pos, this`tensorInfos
      ensures Valid()
      ensures var infos := ReadTensorInfos(data, old(pos), tensorCount);
        && ok == infos.Success?
        && (ok ==> tensorInfos == old(tensorInfos) + infos.value.0 && pos == infos.value.1)
      ensures !ok ==>
        && failedAt < tensorCount
        && ReadTensorInfos(data, old(pos), failedAt) == Success((got, pos))
        && tensorInfos == old(tensorInfos) + got
        && ReadTensorInfos(data, old(pos), failedAt + 1).Failure?
    {
      var i := 0;
      ghost var starts, read := [pos], [];
      failedAt, got := 0, [];
      while i < tensorCount
        invariant 0 <= i <= tensorCount && Valid()
        invariant |read| == i && tensorInfos == old(tensorInfos) + read
        invariant Chain(TensorInfoAt(data), starts, read) && starts[0] == old(pos) && starts[i] == pos
      {
        var info := ReadNextTensorInfo();
        if info.None? {
          ChainStops(TensorInfoAt(data), starts, read, tensorCount);
          ChainRepeat(TensorInfoAt(data), starts, read);
          return false, i, read;
        }
        ChainExtend(TensorInfoAt(data), starts, read, info.value, pos);
        tensorInfos, read, starts := tensorInfos + [info.value], read + [info.value], starts + [pos];
        i := i + 1;
      }
      ChainRepeat(TensorInfoAt(data), starts, read);
      ok := true;
    }

    /** `_adjust_tensors_info(d)`: adds d to every descriptor's offset, in place. */
    method AdjustTensorsInfo(adjustOffset: nat)
      modifies this`tensorInfos
      ensures tensorInfos == AdjustOffsets(old(tensorInfos), adjustOffset)
    {
      var i := 0;
      while i < |tensorInfos|
        invariant 0 <= i <= |tensorInfos| == |old(tensorInfos)|
        invariant forall j :: 0 <= j < i ==>
          tensorInfos[j] == old(tensorInfos)[j].(offset := (old(tensorInfos)[j].offset + adjustOffset) % U64)
        invariant forall j :: i <= j < |tensorInfos| ==> tensorInfos[j] == old(tensorInfos)[j]
      {
        tensorInfos := tensorInfos[i := tensorInfos[i].(offset := (tensorInfos[i].offset + adjustOffset) % U64)];
        i := i + 1;
      }
    }

    /** The element loop of `_read_tensors`: count elements of width bytes each. */
    method ReadElements(count: nat, width: nat) returns (ok: bool, elements: seq<seq<byte>>)
      requires Valid()
      modifies this`pos
      ensures Valid()
      ensures var run := ReadRun(data, old(pos), count, width);
        ok == run.Success? && (ok ==> elements == run.value.0 && pos == run.value.1)
    {
      elements := [];
      var i := 0;
      while i < count
        invariant 0 <= i <= count && Valid()
        invariant pos == old(pos) + i * width
        invariant elements == Run(data, old(pos), i, width)
      {
        if pos + width > |data| {
          MulStep(i + 1, width);
          MulMonotone(i + 1, count, width);
          return false, elements;
        }
        MulStep(i + 1, width);
        MulMonotone(i + 1, count, width);
        RunStep(data, old(pos), i, width);
        elements := elements + [data[pos..pos + width]];
        pos := pos + width;
        i := i + 1;
      }
      ok := true;
    }

    /**
     * The body of the loop of `_read_tensors` for one descriptor: skips
     * forward to its offset and reads its payload, with the element type its
     * tensor type calls for; a descriptor behind the cursor yields nothing.
     */
    method ReadTensor(info: TensorInfo) returns (ok: bool, tensor: Option<TensorData>)
      requires Valid()
      modifies this`pos
      ensures Valid()
      ensures var step := ReadPayload(data, old(pos), info);
        ok == step.Success? && (ok ==> tensor == step.value.0 && pos == step.value.1)
    {
      if info.offset < pos {
        return true, None;
      }
      pos := ReadUpTo(data, pos, info.offset - pos).1;
      if GgmlQuantSizes(info.tensorType).None? {
        return false, None;
      }
      var tensorLength := TensorLength(info);
      var typeSize := GgmlQuantSizes(info.tensorType).value.1;
      var count, width;
      if info.tensorType == F32 {
        count, width := tensorLength, 4;
      } else if info.tensorType == F16 {
        count, width := tensorLength, 2;
      } else {
        count, width := (tensorLength * typeSize) % U64 / BlockSize(info.tensorType), 1;
      }
      assert (count, width) == PayloadShape(info);
      var elements;
      ok, elements := ReadElements(count, width);
      tensor := Some(elements);
    }

    /**
     * `_read_tensors`: the payloads of the descriptors in order.  When one
     * fails, the tensors before it stay appended.
     */
    method ReadTensors() returns (ok: bool, ghost failedAt: nat)
      requires Valid()
      modifies this`pos, this`tensors
      ensures Valid()
      ensures var payloads := ReadPayloads(data, old(pos), tensorInfos);
        && ok == payloads.Success?
        && (ok ==> tensors == old(tensors) + payloads.value.0 && pos == payloads.value.1)
      ensures !ok ==>
        && failedAt < |tensorInfos|
        && ReadPayloads(data, old(pos), tensorInfos[..failedAt]).Success?
        && tensors == old(tensors) + ReadPayloads(data, old(pos), tensorInfos[..failedAt]).value.0
        && ReadPayloads(data, old(pos), tensorInfos[..failedAt + 1]).Failure?
    {
      var i := 0;
      ghost var read := [];
      failedAt := 0;
      while i < |tensorInfos|
        invariant 0 <= i <= |tensorInfos| && Valid()
        invariant tensors == old(tensors) + read
        invariant ReadPayloads(data, old(pos), tensorInfos[..i]) == Success((read, pos))
      {
        PayloadsStep(data, old(pos), tensorInfos, i);
        var tensorOk, tensor := ReadTensor(tensorInfos[i]);
        if !tensorOk {
          PayloadsFailurePersists(data, old(pos), tensorInfos, i + 1);
          return false, i;
        }
        if tensor.Some? {
          tensors, read := tensors + [tensor.value], read + [tensor.value];
        }
        i := i + 1;
      }
      assert tensorInfos[..i] == tensorInfos;
      ok := true;
    }

    /**
     * The first four steps of `load_and_print`: opening the file, the magic
     * number, the version and the two counts.  A bad magic number or version
     * leaves both counts as they were.
     */
    method ReadHeader() returns (ok: bool)
      requires Valid()
      modifies this`pos, this`tensorCount, this`metadataKvCount
      ensures Valid()
      ensures var header := DecodeHeader(data);
        && ok == header.Success?
        && (ok ==> tensorCount == header.value.0 && metadataKvCount == header.value.1 && pos == 24)
      ensures var magic := ReadUpTo(data, 0, 4);
        var version := ReadUInt32(data, magic.1);
        magic.0 != ValidMagicNumber || (version.Success? && version.value.0 != ValidGgufVersion) ==>
        tensorCount == old(tensorCount) && metadataKvCount == old(metadataKvCount)
    {
      SetUp();
      ok := CheckMagicNumber();
      if !ok {
        return;
      }
      ok := CheckVersion();
      if !ok {
        return;
      }
      ok := ReadTensorCount();
      if !ok {
        return;
      }
      ok := ReadMetadataKvCount();
    }

    /**
     * The last four steps of `load_and_print`, from byte 24: the metadata
     * table, the descriptors, the offset adjustment by the aligned cursor,
     * and the payloads.
     */
    method ReadTables() returns (ok: bool)
      requires Valid() && pos == 24
      modifies this`pos, this`metadata, this`tensorInfos, this`tensors
      ensures Valid()
      ensures old(metadata) == [] && old(tensorInfos) == [] && old(tensors) == [] ==>
        var tables := DecodeTables(data, tensorCount, metadataKvCount);
        && ok == tables.Success?
        && (ok ==>
              && metadata == tables.value.metadata
              && tensorInfos == tables.value.tensorInfos
              && tensors == tables.value.tensors)
    {
      ghost var empty := metadata == [] && tensorInfos == [] && tensors == [];
      ghost var failedAt, kvsGot, infosGot;
      ok, failedAt, kvsGot := ReadMetadataKeyValuePairs();
      ghost var kvs := ReadMetadataKvs(data, 24, metadataKvCount);
      if !ok {
        return;
      }
      assert empty ==> metadata == kvs.value.0;
      ok, failedAt, infosGot := ReadTensorsInfo();
      ghost var infos := ReadTensorInfos(data, kvs.value.1, tensorCount);
      if !ok {
        return;
      }
      assert empty ==> tensorInfos == infos.value.0;
      ghost var adjusted := AdjustOffsets(tensorInfos, Padding(pos, DefaultAlignment));
      AdjustTensorsInfo(Padding(pos, alignment));
      assert tensorInfos == adjusted;
      ok, failedAt := ReadTensors();
      ghost var payloads := ReadPayloads(data, infos.value.1, adjusted);
      assert ok == payloads.Success?;
      assert empty && ok ==> tensors == payloads.value.0;
    }

    /**
     * `load_and_print`: the steps in their required order, stopping at the
     * first failure.  On a loader whose lists are empty, as a new one's are,
     * the fields end up as DecodeFile describes; a bad magic number or
     * version leaves every field but the cursor as it was.
     */
    method LoadAndPrint() returns (ok: bool)
      requires Valid()
      modifies this
      ensures Valid()
      ensures old(metadata) == [] && old(tensorInfos) == [] && old(tensors) == [] ==>
        var file := DecodeFile(data);
        && ok == file.Success?
        && (ok ==>
              && tensorCount == file.value.tensorCount
              && metadataKvCount == file.value.metadataKvCount
              && metadata == file.value.metadata
              && tensorInfos == file.value.tensorInfos
              && tensors == file.value.tensors)
      ensures var magic := ReadUpTo(data, 0, 4);
        var version := ReadUInt32(data, magic.1);
        magic.0 != ValidMagicNumber || (version.Success? && version.value.0 != ValidGgufVersion) ==>
        && !ok
        && tensorCount == old(tensorCount) && metadataKvCount == old(metadataKvCount)
        && metadata == old(metadata) && tensorInfos == old(tensorInfos) && tensors == old(tensors)
    {
      ok := ReadHeader();
      if !ok {
        return;
      }
      ok := ReadTables();
    }
  }
}
