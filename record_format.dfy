// RecordStorage<BlockSize>::RecordFormat (src/RecordStorage.h:117-187): the
// bytes a record keeps at the front of a block's payload.
//
//   offset 0    nextBlockId   uint64_t   the next block of the record, 0 for none
//   offset 8    size          uint64_t   the record bytes held in this block
//   offset 16   data...                  offsetof(RecordFormat, data)
//
// `sizeof(RecordFormat)` is 24 (one data byte and seven bytes of padding),
// which `add` uses as its per-block overhead although the data starts at 16.

module RecordFormat {
  import opened Bytes
  import opened Errors
  import opened BlockLayout

  const RECORD_NEXT_BLOCK_ID_OFFSET: nat := 0
  const RECORD_SIZE_OFFSET: nat := 8
  /** `offsetof(RecordFormat, data)`. */
  const RECORD_DATA_OFFSET: nat := 16
  /** `sizeof(RecordFormat)`. */
  const RECORD_FORMAT_SIZE: nat := 24

  /** `nextBlockId(block)` (src/RecordStorage.h:133-137). */
  function NextBlockId(payload: seq<Byte>): (r: nat)
    requires |payload| >= RECORD_DATA_OFFSET
    ensures r < U64_MODULUS
  {
    DecodeU64(payload[RECORD_NEXT_BLOCK_ID_OFFSET..RECORD_NEXT_BLOCK_ID_OFFSET + U64_SIZE])
  }

  /** `hasNextBlockId(block)` (src/RecordStorage.h:127-131). */
  predicate HasNextBlockId(payload: seq<Byte>)
    requires |payload| >= RECORD_DATA_OFFSET
  {
    NextBlockId(payload) != 0
  }

  /** A block has a next block exactly when one of the eight bytes of its
      `nextBlockId` field is not zero. */
  lemma HasNextBlockIdIffLinkBytes(payload: seq<Byte>)
    requires |payload| >= RECORD_DATA_OFFSET
    ensures HasNextBlockId(payload) <==>
      exists k :: RECORD_NEXT_BLOCK_ID_OFFSET <= k < RECORD_NEXT_BLOCK_ID_OFFSET + U64_SIZE && payload[k] != 0
  {
    var link := payload[RECORD_NEXT_BLOCK_ID_OFFSET..RECORD_NEXT_BLOCK_ID_OFFSET + U64_SIZE];
    DecodeLEZero(link);
    assert forall k :: 0 <= k < U64_SIZE ==> link[k] == payload[k];
  }

  /** `recordDataSize(block)` (src/RecordStorage.h:144-148). */
  function RecordDataSize(payload: seq<Byte>): (r: nat)
    requires |payload| >= RECORD_DATA_OFFSET
    ensures r < U64_MODULUS
  {
    DecodeU64(payload[RECORD_SIZE_OFFSET..RECORD_SIZE_OFFSET + U64_SIZE])
  }

  /** `recordCapacity(block)` (src/RecordStorage.h:139-142): the data bytes
      a block can hold behind the 16-byte record header. */
  function RecordCapacity(blockSize: nat): (r: nat)
    requires blockSize >= BLOCK_HEADER_SIZE + RECORD_DATA_OFFSET
    ensures RECORD_DATA_OFFSET + r == Capacity(blockSize)
  {
    Capacity(blockSize) - RECORD_DATA_OFFSET
  }

  /** `recordData(block)` (src/RecordStorage.h:150-154) together with the
      `recordDataSize` bytes it points at. A size that runs past the payload
      is an error: the source would read beyond the block. */
  function RecordData(payload: seq<Byte>): (r: Result<seq<Byte>>)
    requires |payload| >= RECORD_DATA_OFFSET
    ensures r.Success? <==> RECORD_DATA_OFFSET + RecordDataSize(payload) <= |payload|
    ensures r.Failure? ==> r.error == InvalidArgument
    ensures r.Success? ==> |r.value| == RecordDataSize(payload)
  {
    var size := RecordDataSize(payload);
    if RECORD_DATA_OFFSET + size <= |payload| then
      Success(payload[RECORD_DATA_OFFSET..RECORD_DATA_OFFSET + size])
    else
      Failure(InvalidArgument)
  }

  /** A record part that links to block `next`: the format `toRecordFormat`
      builds, with the link the chained variant of `add` stores. */
  function LinkedRecordFormat(next: nat, data: seq<Byte>): (r: seq<Byte>)
    requires RECORD_DATA_OFFSET + |data| < U32_MODULUS
    ensures |r| == RECORD_DATA_OFFSET + |data|
  {
    EncodeU64(next) + EncodeU64(|data|) + data
  }

  /** The decoders read back the link, the size and the bytes. */
  lemma LinkedRecordFormatFields(next: nat, data: seq<Byte>)
    requires RECORD_DATA_OFFSET + |data| < U32_MODULUS
    ensures var r := LinkedRecordFormat(next, data);
      NextBlockId(r) == next % U64_MODULUS && RecordDataSize(r) == |data| && RecordData(r) == Success(data)
  {
    var r := LinkedRecordFormat(next, data);
    assert r[RECORD_NEXT_BLOCK_ID_OFFSET..RECORD_NEXT_BLOCK_ID_OFFSET + U64_SIZE] == EncodeU64(next);
    assert r[RECORD_SIZE_OFFSET..RECORD_SIZE_OFFSET + U64_SIZE] == EncodeU64(|data|);
    DecodeEncodeU64(next);
    DecodeEncodeU64Small(|data|);
    assert r[RECORD_DATA_OFFSET..RECORD_DATA_OFFSET + |data|] == data;
  }

  /** `toRecordFormat(data, size)` (src/RecordStorage.h:174-187): a buffer of
      `16 + size` bytes holding no link, the size, and the bytes. The
      `uint32_t` cast of the length is assumed not to wrap; a wrapped length
      would make the `memcpy` overrun the buffer. */
  function ToRecordFormat(data: seq<Byte>): (r: seq<Byte>)
    requires RECORD_DATA_OFFSET + |data| < U32_MODULUS
    ensures |r| == RECORD_DATA_OFFSET + |data|
  {
    LinkedRecordFormat(0, data)
  }

  /** Decoding what `toRecordFormat` encodes: no next block, the size, and
      the data bytes. */
  lemma ToRecordFormatRoundTrip(data: seq<Byte>)
    requires RECORD_DATA_OFFSET + |data| < U32_MODULUS
    ensures var r := ToRecordFormat(data);
      NextBlockId(r) == 0 && !HasNextBlockId(r) && RecordDataSize(r) == |data| && RecordData(r) == Success(data)
  {
    LinkedRecordFormatFields(0, data);
  }

  /** The record header and data are read from the front of a payload
      only, so a payload that starts with a record reads as that record. */
  lemma RecordPrefix(payload: seq<Byte>, record: seq<Byte>)
    requires RECORD_DATA_OFFSET <= |record| <= |payload| && payload[..|record|] == record
    ensures NextBlockId(payload) == NextBlockId(record)
    ensures RecordDataSize(payload) == RecordDataSize(record)
    ensures RecordData(record).Success? ==> RecordData(payload) == RecordData(record)
  {
    SliceOfPrefix(payload, |record|, RECORD_NEXT_BLOCK_ID_OFFSET, RECORD_NEXT_BLOCK_ID_OFFSET + U64_SIZE);
    SliceOfPrefix(payload, |record|, RECORD_SIZE_OFFSET, RECORD_SIZE_OFFSET + U64_SIZE);
    if RecordData(record).Success? {
      var size := RecordDataSize(record);
      SliceOfPrefix(payload, |record|, RECORD_DATA_OFFSET, RECORD_DATA_OFFSET + size);
    }
  }

  /** The other direction: the front of a payload that holds an unlinked
      record is the encoding of that record's bytes. */
  lemma RecordFormatOfPayload(payload: seq<Byte>, data: seq<Byte>)
    requires |payload| >= RECORD_DATA_OFFSET && RECORD_DATA_OFFSET + |data| < U32_MODULUS
    requires NextBlockId(payload) == 0 && RecordData(payload) == Success(data)
    ensures payload[..RECORD_DATA_OFFSET + |data|] == ToRecordFormat(data)
  {
    var n := RECORD_DATA_OFFSET + |data|;
    var link := payload[RECORD_NEXT_BLOCK_ID_OFFSET..RECORD_SIZE_OFFSET];
    var size := payload[RECORD_SIZE_OFFSET..RECORD_DATA_OFFSET];
    EncodeDecodeU64(link);
    EncodeDecodeU64(size);
    PrefixOfSlices(payload, RECORD_SIZE_OFFSET, RECORD_DATA_OFFSET, n);
    assert payload[RECORD_DATA_OFFSET..n] == data;
  }
}
