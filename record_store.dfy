// RecordStorage<BlockSize> (src/RecordStorage.h:13-240): records kept in
// the blocks of a BlockStorage. Block 0 holds the record store header;
// every record occupies blocks of its own, each starting with a
// `RecordFormat`. Every method works through the block handles of the
// store and changes the region only by `Block::set`, `BlockStorage::create`
// and stores through the address `Block::data()` returns.
//
// The header as published does not compile; the model follows its evident
// intent: `Block` stands for `Block<BlockSize>`, the header field
// `freedBlockBlockId` written at src/RecordStorage.h:200 is
// `freedBlocksBlockId`, and `markAsFree` takes no block, since the one
// caller passes a vector and the body never uses its parameter.
// `lock`/`unlock` and the `std::lock_guard` of the constructor guard
// against other processes and are left out.

module RecordStore {
  import opened Bytes
  import opened Errors
  import opened BlockLayout
  import opened BlockStore
  import opened RecordFormat
  import opened RecordLayout
  import opened RecordAdd
  import opened RecordChained
  import opened RecordRegistry

  /** A store of zeros over zeros changes nothing: the header fields the
      constructor clears are already zero in the block `create` stamped. */
  lemma ZeroFieldOfFreshBlock(blockSize: nat, offset: nat)
    requires blockSize >= BLOCK_HEADER_SIZE && offset + U64_SIZE <= Capacity(blockSize)
    ensures AfterWrite(FreshBlock(HEADER_BLOCK, blockSize), offset, EncodeU64(0)) == FreshBlock(HEADER_BLOCK, blockSize)
  {
    var b := FreshBlock(HEADER_BLOCK, blockSize);
    var r := AfterWrite(b, offset, EncodeU64(0));
    EncodeU64Zero();
    forall k | 0 <= k < |b.payload| ensures r.payload[k] == b.payload[k] {
      if offset <= k < offset + U64_SIZE {
        assert r.payload[k] == r.payload[offset..offset + U64_SIZE][k - offset];
      }
    }
  }

  /** A lone fresh block lays out a record store. */
  lemma EmptyRecordLayout(blockSize: nat)
    requires MIN_RECORD_BLOCK_SIZE <= blockSize < U32_MODULUS
    ensures ValidRecordLayout(blockSize, [FreshBlock(HEADER_BLOCK, blockSize)])
  {
    FreshBlockEmpty(HEADER_BLOCK, blockSize);
  }

  /** The record store the constructor sets up in an empty block store:
      only the header block, with no records, no free blocks and no
      registry, so that no record id can be read. */
  lemma EmptyRecordStore(blockSize: nat, id: nat)
    requires MIN_RECORD_BLOCK_SIZE <= blockSize < U32_MODULUS && id != HEADER_BLOCK
    ensures var blocks := [FreshBlock(HEADER_BLOCK, blockSize)];
      ValidRecordLayout(blockSize, blocks) &&
      RecordCount(blocks) == 0 && NumFreeBlocks(blocks) == 0 && FreedBlocksBlockId(blocks) == 0 &&
      GetSpec(blockSize, blocks, id) == Failure(OutOfBounds) &&
      GetRecordSpec(blocks, id) == Failure(OutOfBounds)
  {
    var blocks := [FreshBlock(HEADER_BLOCK, blockSize)];
    EmptyRecordLayout(blockSize);
    var p := blocks[HEADER_BLOCK].payload;
    assert p[HEADER_SIZE_OFFSET..HEADER_SIZE_OFFSET + U64_SIZE] == Zeros(U64_SIZE);
    assert p[HEADER_NUM_FREE_BLOCKS_OFFSET..HEADER_NUM_FREE_BLOCKS_OFFSET + U64_SIZE] == Zeros(U64_SIZE);
    assert p[HEADER_FREED_BLOCKS_BLOCK_ID_OFFSET..HEADER_FREED_BLOCKS_BLOCK_ID_OFFSET + U64_SIZE] == Zeros(U64_SIZE);
    DecodeZeros(U64_SIZE);
  }

  /** The handles `findBlocks` collects for a list of block ids. */
  function Handles(storage: BlockStorage, ids: seq<nat>): (r: seq<Block>)
    ensures |r| == |ids| && forall k :: 0 <= k < |ids| ==> r[k] == Block(storage, ids[k])
  {
    seq(|ids|, k requires 0 <= k < |ids| => Block(storage, ids[k]))
  }

  lemma HandlesAppend(storage: BlockStorage, ids: seq<nat>, id: nat)
    ensures Handles(storage, ids + [id]) == Handles(storage, ids) + [Block(storage, id)]
  {
  }

  /** One more call of `create` in the loop of `getFreeBlocks`: the block
      list and the handles both grow by the next fresh block. */
  lemma CreateStep(storage: BlockStorage, blockSize: nat, before: seq<BlockView>, i: nat,
                   prior: seq<BlockView>, created: seq<Block>, block: Block)
    requires blockSize >= BLOCK_HEADER_SIZE
    requires prior == before + FreshBlocks(blockSize, |before|, i)
    requires created == Handles(storage, Consecutive(|before|, i))
    requires block.storage == storage && block.index == |prior|
    ensures prior + [FreshBlock(|prior|, blockSize)] == before + FreshBlocks(blockSize, |before|, i + 1)
    ensures created + [block] == Handles(storage, Consecutive(|before|, i + 1))
  {
    FreshBlocksAppend(blockSize, |before|, i);
    ConsecutiveAppend(|before|, i);
    HandlesAppend(storage, Consecutive(|before|, i), |before| + i);
  }

  /** `std::max`. */
  function Max(a: nat, b: nat): nat
  {
    if a < b then b else a
  }

  class RecordStorage {
    const storage: BlockStorage

    /** The block store is consistent and lays out a record store. */
    ghost predicate Valid()
      reads storage, storage.memory
    {
      storage.Valid() && ValidRecordLayout(storage.BlockSize, storage.blocks)
    }

    /** The constructor (src/RecordStorage.h:17-34). On an empty block store
        it creates block 0 and clears the three header fields; a non-empty
        store is taken as it is. */
    constructor (storage: BlockStorage)
      requires storage.Valid() && MIN_RECORD_BLOCK_SIZE <= storage.BlockSize < U32_MODULUS
      modifies storage, storage.memory
      ensures this.storage == storage && storage.Valid()
      ensures old(storage.blocks) == [] ==> storage.blocks == [FreshBlock(HEADER_BLOCK, storage.BlockSize)]
      ensures old(storage.blocks) != [] ==> storage.blocks == old(storage.blocks)
      ensures old(storage.blocks) == [] || ValidRecordLayout(storage.BlockSize, old(storage.blocks)) ==> Valid()
    {
      this.storage := storage;
      new;
      storage.SizeIsCount();
      if storage.Size() == 0 {
        CreateHeader();
      }
    }

    /** The constructor's work on an empty block store
        (src/RecordStorage.h:23-32): `create` must return block 0, and the
        header fields are cleared. */
    method CreateHeader()
      requires storage.Valid() && MIN_RECORD_BLOCK_SIZE <= storage.BlockSize < U32_MODULUS
      requires storage.blocks == []
      modifies storage, storage.memory
      ensures Valid() && storage.blocks == [FreshBlock(HEADER_BLOCK, storage.BlockSize)]
    {
      var headerBlock := storage.Create();
      EmptyRecordLayout(storage.BlockSize);
      ClearHeader();
    }

    /** The stores `header->size = 0`, `header->numFreeBlocks = 0` and
        `header->freedBlocksBlockId = 0` (src/RecordStorage.h:27-31) into the
        block `create` just stamped, which leave it as it was. */
    method ClearHeader()
      requires storage.Valid() && MIN_RECORD_BLOCK_SIZE <= storage.BlockSize
      requires storage.blocks == [FreshBlock(HEADER_BLOCK, storage.BlockSize)]
      modifies storage, storage.memory
      ensures storage.Valid() && storage.blocks == old(storage.blocks)
    {
      var header := HeaderBlock();
      header.WriteData(HEADER_SIZE_OFFSET, EncodeU64(0));
      ZeroFieldOfFreshBlock(storage.BlockSize, HEADER_SIZE_OFFSET);
      header.WriteData(HEADER_NUM_FREE_BLOCKS_OFFSET, EncodeU64(0));
      ZeroFieldOfFreshBlock(storage.BlockSize, HEADER_NUM_FREE_BLOCKS_OFFSET);
      header.WriteData(HEADER_FREED_BLOCKS_BLOCK_ID_OFFSET, EncodeU64(0));
      ZeroFieldOfFreshBlock(storage.BlockSize, HEADER_FREED_BLOCKS_BLOCK_ID_OFFSET);
    }

    /** `getHeader()` (src/RecordStorage.h:189-193): block 0. */
    function HeaderBlock(): (b: Block)
      reads storage, storage.memory
      requires storage.Valid() && |storage.blocks| >= 1
      ensures b == Block(storage, HEADER_BLOCK) && b.Live()
    {
      storage.At(HEADER_BLOCK).value
    }

    /** `size()` (src/RecordStorage.h:92-95): the record count the header holds. */
    function Size(): (n: nat)
      reads storage, storage.memory
      requires Valid()
      ensures n == RecordCount(storage.blocks) && n < U64_MODULUS
    {
      assert WellFormedBlock(storage.BlockSize, HEADER_BLOCK, storage.blocks[HEADER_BLOCK]);
      var header := HeaderBlock().Data();
      DecodeU64(header[HEADER_SIZE_OFFSET..HEADER_SIZE_OFFSET + U64_SIZE])
    }

    /** `findBlocks(recordId)` (src/RecordStorage.h:158-172): the handles of
        the chain from `recordId`. A link at or beyond the block count is
        the out-of-range `at` the source leaves as a TODO. */
    method FindBlocks(recordId: nat) returns (r: Result<seq<Block>>)
      requires Valid()
      ensures r.Failure? ==> Chain(storage.blocks, recordId) == Failure(r.error)
      ensures r.Success? ==>
        Chain(storage.blocks, recordId).Success? &&
        r.value == Handles(storage, Chain(storage.blocks, recordId).value)
    {
      ghost var blocks := storage.blocks;
      var at := storage.At(recordId);
      if at.Failure? {
        return Failure(at.error);
      }
      var block := at.value;
      var found := [block];
      ghost var walked: seq<nat> := [];
      assert walked + [recordId] == [recordId];
      PrependNothing(Chain(blocks, recordId));
      while HasNextBlockId(block.Data())
        invariant block.storage == storage && block.index < |blocks|
        invariant found == Handles(storage, walked + [block.index])
        invariant Chain(blocks, recordId) == Prepend(walked, Chain(blocks, block.index))
        decreases |blocks| - block.index
      {
        var next := NextBlockId(block.Data());
        ChainStep(blocks, walked, block.index);
        at := storage.At(next);
        if at.Failure? {
          return Failure(at.error);
        }
        HandlesAppend(storage, walked + [block.index], next);
        walked := walked + [block.index];
        block := at.value;
        found := found + [block];
      }
      ChainStop(blocks, walked, block.index);
      return Success(found);
    }

    /** `get(recordId)` (src/RecordStorage.h:46-56): the first `size()`
        bytes of every block of the record, one after the other. For a
        record `add` wrote, that is the record header followed by the data. */
    method Get(recordId: nat) returns (r: Result<seq<Byte>>)
      requires Valid()
      ensures r == GetSpec(storage.BlockSize, storage.blocks, recordId)
    {
      var found := FindBlocks(recordId);
      if found.Failure? {
        return Failure(found.error);
      }
      ghost var ids := Chain(storage.blocks, recordId).value;
      ChainIsChain(storage.blocks, recordId, ids);
      ChainBlocksFit(storage.BlockSize, storage.blocks, recordId, ids);
      var data := GatherBlocks(found.value, ids);
      return Success(data);
    }

    /** The loop of `get` (src/RecordStorage.h:51-53): the first `size()`
        bytes of each block appended in turn. */
    method GatherBlocks(found: seq<Block>, ghost ids: seq<nat>) returns (data: seq<Byte>)
      requires storage.Valid() && found == Handles(storage, ids)
      requires forall k :: 0 <= k < |ids| ==> ids[k] < |storage.blocks| && storage.blocks[ids[k]].size <= |storage.blocks[ids[k]].payload|
      ensures data == Gather(storage.blocks, ids)
    {
      data := [];
      for i := 0 to |found|
        invariant data == Gather(storage.blocks, ids[..i])
      {
        var block := found[i];
        GatherStep(storage.blocks, ids, i);
        data := data + block.Data()[..block.Size()];
      }
      assert ids[..|ids|] == ids;
    }

    /** What `get` is meant to return: the `recordData` of every block of
        the record, one after the other, without the record headers. */
    method GetRecord(recordId: nat) returns (r: Result<seq<Byte>>)
      requires Valid()
      ensures r == GetRecordSpec(storage.blocks, recordId)
    {
      var found := FindBlocks(recordId);
      if found.Failure? {
        return Failure(found.error);
      }
      ghost var ids := Chain(storage.blocks, recordId).value;
      ChainIsChain(storage.blocks, recordId, ids);
      r := RecordBytesOfBlocks(found.value, ids);
    }

    /** The record bytes of the blocks `findBlocks` collected: each block's
        `recordData` appended in turn, and the first error if a block's
        record size runs past its payload. */
    method RecordBytesOfBlocks(found: seq<Block>, ghost ids: seq<nat>) returns (r: Result<seq<Byte>>)
      requires storage.Valid() && found == Handles(storage, ids)
      requires forall k :: 0 <= k < |ids| ==> ids[k] < |storage.blocks| && |storage.blocks[ids[k]].payload| >= RECORD_DATA_OFFSET
      ensures r == RecordBytes(storage.blocks, ids)
    {
      var data := [];
      assert ids[..0] == [];
      for i := 0 to |found|
        invariant RecordBytes(storage.blocks, ids[..i]) == Success(data)
      {
        var block := found[i];
        var part := RecordData(block.Data());
        RecordBytesStep(storage.blocks, ids, i, data);
        if part.Failure? {
          RecordBytesFailure(storage.blocks, ids, i + 1);
          return Failure(part.error);
        }
        data := data + part.value;
      }
      assert ids[..|ids|] == ids;
      return Success(data);
    }

    /** `count` calls of `create`, the loop of `getFreeBlocks`
        (src/RecordStorage.h:234-236): the fresh blocks appended, and their
        handles in order. */
    method CreateBlocks(count: nat) returns (created: seq<Block>)
      requires Valid() && |storage.blocks| + count < U64_MODULUS
      modifies storage, storage.memory
      ensures Valid()
      ensures storage.blocks == old(storage.blocks) + FreshBlocks(storage.BlockSize, |old(storage.blocks)|, count)
      ensures created == Handles(storage, Consecutive(|old(storage.blocks)|, count))
    {
      ghost var before := storage.blocks;
      created := [];
      for i := 0 to count
        invariant Valid()
        invariant storage.blocks == before + FreshBlocks(storage.BlockSize, |before|, i)
        invariant created == Handles(storage, Consecutive(|before|, i))
      {
        ghost var prior := storage.blocks;
        FreshAppendKeepsLayout(storage.BlockSize, prior);
        var block := storage.Create();
        CreateStep(storage, storage.BlockSize, before, i, prior, created, block);
        created := created + [block];
      }
    }

    /** `getFreeBlocks(size)` (src/RecordStorage.h:225-239): as many fresh
        blocks as `ceil(size / BlockSize)`. Freed blocks are not reused,
        which the source leaves as a TODO. */
    method GetFreeBlocks(size: nat) returns (created: seq<Block>)
      requires Valid() && |storage.blocks| + NumBlocksAsWritten(size, storage.BlockSize) < U64_MODULUS
      modifies storage, storage.memory
      ensures Valid()
      ensures var count := NumBlocksAsWritten(size, storage.BlockSize);
        storage.blocks == old(storage.blocks) + FreshBlocks(storage.BlockSize, |old(storage.blocks)|, count) &&
        created == Handles(storage, Consecutive(|old(storage.blocks)|, count))
    {
      var remainder := if size % storage.BlockSize == 0 then 0 else 1;
      var numBlocks := size / storage.BlockSize + remainder;
      created := CreateBlocks(numBlocks);
    }

    /** `header->size += 1` (src/RecordStorage.h:76-77): the record count in
        block 0 goes up by one, wrapping as a `uint64_t`. */
    method IncrementSize()
      requires storage.Valid() && |storage.blocks| >= 1 && storage.BlockSize >= MIN_RECORD_BLOCK_SIZE
      modifies storage, storage.memory
      ensures |old(storage.blocks)[HEADER_BLOCK].payload| >= RECORD_HEADER_SIZE
      ensures storage.Valid()
      ensures storage.blocks == WithRecordCounted(old(storage.blocks))
    {
      ghost var before := storage.blocks;
      assert WellFormedBlock(storage.BlockSize, HEADER_BLOCK, before[HEADER_BLOCK]);
      var header := HeaderBlock();
      var fields := header.Data();
      var size := DecodeU64(fields[HEADER_SIZE_OFFSET..HEADER_SIZE_OFFSET + U64_SIZE]);
      RecordCountedIsWrite(before, size);
      header.WriteData(HEADER_SIZE_OFFSET, EncodeU64(size + 1));
    }

    /** One pass of a store loop: `set` of the next staged block to the
        record format its part gets, which fits the payload. */
    method StoreStaged(block: Block, record: seq<Byte>, ghost before: seq<BlockView>, ghost added: seq<BlockView>, ghost i: nat)
      requires storage.Valid() && i < |added| && |record| <= Capacity(storage.BlockSize)
      requires storage.blocks == Staged(storage.BlockSize, before, added, i)
      requires block == Block(storage, |before| + i)
      requires added[i] == AfterSet(FreshBlock(|before| + i, storage.BlockSize), record)
      modifies storage, storage.memory
      ensures storage.Valid() && storage.blocks == Staged(storage.BlockSize, before, added, i + 1)
    {
      StagedStep(storage.BlockSize, before, added, i);
      var outcome := block.Set(record);
    }

    /** The loop of `add` (src/RecordStorage.h:63-74) as written: every block
        receives the unlinked record format of the next `AddChunkSize`
        bytes, because `remainingSize` is compared but never decremented. */
    method StoreParts(created: seq<Block>, data: seq<Byte>, ghost before: seq<BlockView>)
      requires storage.Valid() && MIN_RECORD_BLOCK_SIZE <= storage.BlockSize < U32_MODULUS
      requires AddReadsInBounds(storage.BlockSize, |data|)
      requires |created| == NumBlocksAsWritten(|data|, storage.BlockSize)
      requires storage.blocks == before + FreshBlocks(storage.BlockSize, |before|, |created|)
      requires created == Handles(storage, Consecutive(|before|, |created|))
      modifies storage, storage.memory
      ensures storage.Valid()
      ensures storage.blocks == before + AddedBlocksAsWritten(storage.BlockSize, |before|, data)
    {
      ghost var added := AddedBlocksAsWritten(storage.BlockSize, |before|, data);
      ghost var chunk := AddChunkSize(storage.BlockSize, |data|);
      StagedEnds(storage.BlockSize, before, added);
      var dataAddress: nat := 0;
      var remainingSize := |data|;
      for i := 0 to |created|
        invariant storage.Valid() && storage.blocks == Staged(storage.BlockSize, before, added, i)
        invariant dataAddress == i * chunk
      {
        var block := created[i];
        AddStep(storage.BlockSize, |before|, data, i);
        var maxCapacity := block.Capacity() - RECORD_FORMAT_SIZE;
        assert maxCapacity == AddBlockLimit(storage.BlockSize);
        var part;
        if Max(maxCapacity, remainingSize) == remainingSize {
          part := data[dataAddress..dataAddress + maxCapacity];
        } else {
          part := data[dataAddress..dataAddress + remainingSize];
        }
        assert part == AddPart(data, chunk, i);
        StoreStaged(block, ToRecordFormat(part), before, added, i);
        dataAddress := dataAddress + |part|;
      }
    }

    /** `add(data, size)` (src/RecordStorage.h:58-84) as written. The id
        returned is the first block `getFreeBlocks` created; an empty record
        gets no block, which the assert at src/RecordStorage.h:82 rejects,
        and is reported as `InvalidArgument` after the count was bumped. */
    method Add(data: seq<Byte>) returns (r: Result<nat>)
      requires Valid() && AddPre(storage.BlockSize, storage.blocks, |data|)
      modifies storage, storage.memory
      ensures Valid()
      ensures storage.blocks == AddAsWritten(storage.BlockSize, old(storage.blocks), data)
      ensures r.Success? <==> |data| > 0
      ensures r.Success? ==> r.value == |old(storage.blocks)| && r.value != INVALID_RECORD_ID
      ensures r.Failure? ==> r.error == InvalidArgument
    {
      ghost var before := storage.blocks;
      var created := StoreRecord(data);
      if |created| == 0 {
        return Failure(InvalidArgument);
      }
      var id := created[0].Id();
      return Success(id);
    }

    /** `add` as written up to its return: the blocks appended and the
        record count bumped. */
    method StoreRecord(data: seq<Byte>) returns (created: seq<Block>)
      requires Valid() && AddPre(storage.BlockSize, storage.blocks, |data|)
      modifies storage, storage.memory
      ensures Valid()
      ensures storage.blocks == AddAsWritten(storage.BlockSize, old(storage.blocks), data)
      ensures |created| == 0 <==> |data| == 0
      ensures |created| > 0 ==> created[0] == Block(storage, |old(storage.blocks)|) && created[0].Live()
    {
      ghost var before := storage.blocks;
      ghost var grown := before + AddedBlocksAsWritten(storage.BlockSize, |before|, data);
      created := AppendParts(data);
      NumBlocksIsCeiling(|data|, storage.BlockSize);
      assert storage.blocks == grown;
      IncrementSize();
      assert storage.blocks == AddAsWritten(storage.BlockSize, before, data);
      AddAsWrittenLayout(storage.BlockSize, before, data);
    }

    /** The blocks of `add` before the count is bumped
        (src/RecordStorage.h:60-74): `getFreeBlocks`, then the loop that
        stores the parts. */
    method AppendParts(data: seq<Byte>) returns (created: seq<Block>)
      requires Valid() && AddPre(storage.BlockSize, storage.blocks, |data|)
      modifies storage, storage.memory
      ensures storage.Valid()
      ensures storage.blocks == old(storage.blocks) + AddedBlocksAsWritten(storage.BlockSize, |old(storage.blocks)|, data)
      ensures created == Handles(storage, Consecutive(|old(storage.blocks)|, NumBlocksAsWritten(|data|, storage.BlockSize)))
    {
      ghost var before := storage.blocks;
      created := GetFreeBlocks(|data|);
      StoreParts(created, data, before);
    }

    /** The intended `add`: the record split into `recordCapacity()`-byte
        parts, one fresh block per part and at least one, every block linked
        to the next, and the record count bumped. The id returned is the
        first block, from which `findBlocks` collects the record again. */
    method AddLinked(data: seq<Byte>) returns (id: nat)
      requires Valid() && AddChainedPre(storage.BlockSize, storage.blocks, data)
      modifies storage, storage.memory
      ensures Valid()
      ensures storage.blocks == AddChained(storage.BlockSize, old(storage.blocks), data)
      ensures id == |old(storage.blocks)| && id != INVALID_RECORD_ID
      ensures GetRecordSpec(storage.blocks, id) == Success(data)
    {
      ghost var before := storage.blocks;
      var first := StoreLinkedRecord(data);
      AddChainedRoundTrip(storage.BlockSize, before, data);
      id := first.Id();
    }

    /** The intended `add` up to its return: the linked blocks appended and
        the record count bumped. */
    method StoreLinkedRecord(data: seq<Byte>) returns (first: Block)
      requires Valid() && AddChainedPre(storage.BlockSize, storage.blocks, data)
      modifies storage, storage.memory
      ensures Valid()
      ensures storage.blocks == AddChained(storage.BlockSize, old(storage.blocks), data)
      ensures first == Block(storage, |old(storage.blocks)|)
    {
      ghost var before := storage.blocks;
      ghost var grown := before + ChainedBlocks(storage.BlockSize, |before|, ChainedParts(storage.BlockSize, data));
      var created := AppendLinkedParts(data);
      first := created[0];
      assert storage.blocks == grown;
      IncrementSize();
      assert storage.blocks == AddChained(storage.BlockSize, before, data);
      AddChainedLayout(storage.BlockSize, before, data);
    }

    /** The blocks of the intended `add` before the count is bumped: as many
        fresh blocks as parts, then each part stored with the id of the
        block after it. */
    method AppendLinkedParts(data: seq<Byte>) returns (created: seq<Block>)
      requires Valid() && AddChainedPre(storage.BlockSize, storage.blocks, data)
      modifies storage, storage.memory
      ensures storage.Valid()
      ensures storage.blocks == old(storage.blocks) + ChainedBlocks(storage.BlockSize, |old(storage.blocks)|, ChainedParts(storage.BlockSize, data))
      ensures created == Handles(storage, Consecutive(|old(storage.blocks)|, |ChainedParts(storage.BlockSize, data)|))
    {
      ghost var before := storage.blocks;
      var parts := ChainedParts(storage.BlockSize, data);
      created := CreateBlocks(|parts|);
      StoreLinkedParts(created, parts, before);
    }

    /** Every part set into its block in the linked record format, with the
        id of the next created block, or 0 in the last. */
    method StoreLinkedParts(created: seq<Block>, parts: seq<seq<Byte>>, ghost before: seq<BlockView>)
      requires storage.Valid() && MIN_RECORD_BLOCK_SIZE <= storage.BlockSize < U32_MODULUS
      requires forall k :: 0 <= k < |parts| ==> BLOCK_HEADER_SIZE + RECORD_DATA_OFFSET + |parts[k]| <= storage.BlockSize
      requires |created| == |parts| && |before| + |parts| < U64_MODULUS
      requires storage.blocks == before + FreshBlocks(storage.BlockSize, |before|, |parts|)
      requires created == Handles(storage, Consecutive(|before|, |parts|))
      modifies storage, storage.memory
      ensures storage.Valid()
      ensures storage.blocks == before + ChainedBlocks(storage.BlockSize, |before|, parts)
    {
      ghost var added := ChainedBlocks(storage.BlockSize, |before|, parts);
      StagedEnds(storage.BlockSize, before, added);
      for i := 0 to |created|
        invariant storage.Valid() && storage.blocks == Staged(storage.BlockSize, before, added, i)
      {
        ChainedStep(storage.BlockSize, |before|, parts, i);
        var next := if i + 1 < |created| then created[i + 1].index else 0;
        assert next == ChainedLink(|before|, i, |parts|);
        StoreStaged(created[i], LinkedRecordFormat(next, parts[i]), before, added, i);
      }
    }

    /** `getSpaceTrackingBlock()` (src/RecordStorage.h:195-205): the block
        the header names as the free-space registry, created and recorded in
        the header when it names none. A registry id at or beyond the block
        count is the out-of-range `at`. */
    method GetSpaceTrackingBlock() returns (r: Result<Block>)
      requires Valid() && |storage.blocks| + 1 < U64_MODULUS
      modifies storage, storage.memory
      ensures Valid()
      ensures storage.blocks == TrackingAfter(storage.BlockSize, old(storage.blocks))
      ensures r.Success? <==> TrackingBlockId(old(storage.blocks)) < |storage.blocks|
      ensures r.Success? ==> r.value == Block(storage, TrackingBlockId(old(storage.blocks)))
      ensures r.Failure? ==> r.error == OutOfBounds
    {
      assert WellFormedBlock(storage.BlockSize, HEADER_BLOCK, storage.blocks[HEADER_BLOCK]);
      var header := HeaderBlock();
      var freed := DecodeU64(header.Data()[HEADER_FREED_BLOCKS_BLOCK_ID_OFFSET..HEADER_FREED_BLOCKS_BLOCK_ID_OFFSET + U64_SIZE]);
      if freed == 0 {
        var block := CreateRegistry(header);
        return Success(block);
      }
      r := storage.At(freed);
    }

    /** The branch of `getSpaceTrackingBlock` (src/RecordStorage.h:198-202)
        that creates the registry and stores its id in the header. */
    method CreateRegistry(header: Block) returns (block: Block)
      requires Valid() && |storage.blocks| + 1 < U64_MODULUS
      requires header == Block(storage, HEADER_BLOCK) && FreedBlocksBlockId(storage.blocks) == 0
      modifies storage, storage.memory
      ensures Valid() && storage.blocks == TrackingAfter(storage.BlockSize, old(storage.blocks))
      ensures block == Block(storage, |old(storage.blocks)|)
    {
      ghost var prior := storage.blocks;
      FreshAppendKeepsLayout(storage.BlockSize, prior);
      block := storage.Create();
      header.WriteData(HEADER_FREED_BLOCKS_BLOCK_ID_OFFSET, EncodeU64(block.Id()));
    }

    /** The walk of `markAsFree` (src/RecordStorage.h:210-212): from the
        registry block along `nextBlockId` to the first block without one. */
    method RegistryTail(start: Block) returns (r: Result<Block>)
      requires Valid() && start.storage == storage && start.index < |storage.blocks|
      ensures r.Failure? ==> ChainLast(storage.blocks, start.index) == Failure(r.error)
      ensures r.Success? ==>
        ChainLast(storage.blocks, start.index) == Success(r.value.index) && r.value.storage == storage
    {
      var block := start;
      while HasNextBlockId(block.Data())
        invariant block.storage == storage && block.index < |storage.blocks|
        invariant ChainLast(storage.blocks, start.index) == ChainLast(storage.blocks, block.index)
        decreases |storage.blocks| - block.index
      {
        var at := storage.At(NextBlockId(block.Data()));
        if at.Failure? {
          return Failure(at.error);
        }
        block := at.value;
      }
      return Success(block);
    }

    /** `header->numFreeBlocks -= 1` (src/RecordStorage.h:221-222): the
        count in block 0 goes down by one, wrapping as a `uint64_t`. */
    method DecrementFreeBlocks()
      requires Valid()
      modifies storage, storage.memory
      ensures |old(storage.blocks)[HEADER_BLOCK].payload| >= RECORD_HEADER_SIZE
      ensures Valid()
      ensures storage.blocks ==
        WithHeaderField(old(storage.blocks), HEADER_NUM_FREE_BLOCKS_OFFSET, DecrementU64(NumFreeBlocks(old(storage.blocks))))
    {
      HeaderWriteKeepsLayout(storage.BlockSize, storage.blocks, HEADER_NUM_FREE_BLOCKS_OFFSET, DecrementU64(NumFreeBlocks(storage.blocks)));
      var header := HeaderBlock();
      var count := DecodeU64(header.Data()[HEADER_NUM_FREE_BLOCKS_OFFSET..HEADER_NUM_FREE_BLOCKS_OFFSET + U64_SIZE]);
      header.WriteData(HEADER_NUM_FREE_BLOCKS_OFFSET, EncodeU64(DecrementU64(count)));
    }

    /** The first part of `markAsFree` (src/RecordStorage.h:209-212): the
        registry found or created, then walked to its last block. */
    method FindRegistryTail() returns (r: Result<Block>)
      requires Valid() && |storage.blocks| + 1 < U64_MODULUS
      modifies storage, storage.memory
      ensures Valid()
      ensures storage.blocks == TrackingAfter(storage.BlockSize, old(storage.blocks))
      ensures r.Failure? ==> ChainLast(storage.blocks, TrackingBlockId(old(storage.blocks))) == Failure(r.error)
      ensures r.Success? ==>
        ChainLast(storage.blocks, TrackingBlockId(old(storage.blocks))) == Success(r.value.index) &&
        r.value.storage == storage
    {
      var tracking := GetSpaceTrackingBlock();
      if tracking.Failure? {
        return Failure(tracking.error);
      }
      r := RegistryTail(tracking.value);
    }

    /** The check of `markAsFree` (src/RecordStorage.h:214-215) on a block:
        `recordDataSize + sizeof(uint64_t)`, wrapping in a `size_t`, is
        not above `recordCapacity`. */
    function HasRoom(block: Block): (b: bool)
      reads storage, storage.memory
      requires Valid() && block.storage == storage && block.index < |storage.blocks|
      ensures b == HasRoomForId(storage.BlockSize, storage.blocks[block.index].payload)
    {
      var neededSize := (RecordDataSize(block.Data()) + U64_SIZE) % U64_MODULUS;
      !(neededSize > block.Capacity() - RECORD_DATA_OFFSET)
    }

    /** `markAsFree` (src/RecordStorage.h:207-223): the registry found or
        created, the walk to its last block, the check whether one more
        block id fits there, and `numFreeBlocks` decremented. Both branches
        of the check are empty in the source, so no id is stored; the result
        reports what the check found. */
    method MarkAsFree() returns (r: Result<bool>)
      requires Valid() && |storage.blocks| + 1 < U64_MODULUS
      modifies storage, storage.memory
      ensures Valid()
      ensures storage.blocks == MarkAsFreeAfter(storage.BlockSize, old(storage.blocks))
      ensures r == MarkAsFreeRoom(storage.BlockSize, old(storage.blocks))
    {
      ghost var before := storage.blocks;
      var tail := FindRegistryTail();
      if tail.Failure? {
        return Failure(tail.error);
      }
      var room := CheckAndCount(tail.value, before);
      return Success(room);
    }

    /** The rest of `markAsFree` (src/RecordStorage.h:214-222) once the walk
        reached the registry's last block: the room check, then the
        decrement of `numFreeBlocks`. */
    method CheckAndCount(tail: Block, ghost before: seq<BlockView>) returns (room: bool)
      requires Valid() && ValidRecordLayout(storage.BlockSize, before) && |before| + 1 < U64_MODULUS
      requires storage.blocks == TrackingAfter(storage.BlockSize, before) && tail.storage == storage
      requires ChainLast(storage.blocks, TrackingBlockId(before)) == Success(tail.index)
      modifies storage, storage.memory
      ensures Valid()
      ensures storage.blocks == MarkAsFreeAfter(storage.BlockSize, before)
      ensures MarkAsFreeRoom(storage.BlockSize, before) == Success(room)
    {
      ghost var tracked := storage.blocks;
      MarkAsFreeReachesTail(storage.BlockSize, before, tracked, tail.index);
      room := HasRoom(tail);
      DecrementFreeBlocks();
    }
  }
}
