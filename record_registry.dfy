// The free-space registry of the record store: the block the header field
// `freedBlocksBlockId` names, created on first use by
// `getSpaceTrackingBlock` (src/RecordStorage.h:195-205), and the part of
// `markAsFree` (src/RecordStorage.h:207-223) that walks to the registry's
// last block and checks whether one more 8-byte block id fits in it.

module RecordRegistry {
  import opened Bytes
  import opened Errors
  import opened BlockLayout
  import opened RecordFormat
  import opened RecordLayout

  /** The block `getSpaceTrackingBlock` returns: the registry the header
      names, or the block it creates when the header names none. Never the
      header block. */
  function TrackingBlockId(blocks: seq<BlockView>): (r: nat)
    requires |blocks| >= 1 && |blocks[HEADER_BLOCK].payload| >= RECORD_HEADER_SIZE
    ensures r != HEADER_BLOCK
  {
    if FreedBlocksBlockId(blocks) == 0 then |blocks| else FreedBlocksBlockId(blocks)
  }

  /** The block list after `getSpaceTrackingBlock`: unchanged when the
      header names a registry; otherwise one fresh block appended and its id
      stored in `freedBlocksBlockId`. It is again a record store. */
  ghost function TrackingAfter(blockSize: nat, blocks: seq<BlockView>): (r: seq<BlockView>)
    requires ValidRecordLayout(blockSize, blocks) && |blocks| + 1 < U64_MODULUS
    ensures ValidRecordLayout(blockSize, r) && KeepsRecordBlocks(blocks, r)
  {
    if FreedBlocksBlockId(blocks) != 0 then blocks
    else
      var grown := blocks + [FreshBlock(|blocks|, blockSize)];
      FreshAppendKeepsLayout(blockSize, blocks);
      HeaderWriteKeepsLayout(blockSize, grown, HEADER_FREED_BLOCKS_BLOCK_ID_OFFSET, |blocks|);
      WithHeaderField(grown, HEADER_FREED_BLOCKS_BLOCK_ID_OFFSET, |blocks|)
  }

  /** Afterwards the header names the block the call returned, and the
      record count and `numFreeBlocks` are unchanged. */
  lemma TrackingRegistered(blockSize: nat, blocks: seq<BlockView>)
    requires ValidRecordLayout(blockSize, blocks) && |blocks| + 1 < U64_MODULUS
    ensures var after := TrackingAfter(blockSize, blocks);
      FreedBlocksBlockId(after) == TrackingBlockId(blocks) &&
      RecordCount(after) == RecordCount(blocks) && NumFreeBlocks(after) == NumFreeBlocks(blocks)
    ensures FreedBlocksBlockId(blocks) != 0 ==> TrackingAfter(blockSize, blocks) == blocks
  {
    if FreedBlocksBlockId(blocks) == 0 {
      var grown := blocks + [FreshBlock(|blocks|, blockSize)];
      assert grown[HEADER_BLOCK] == blocks[HEADER_BLOCK];
      assert TrackingAfter(blockSize, blocks) == WithHeaderField(grown, HEADER_FREED_BLOCKS_BLOCK_ID_OFFSET, |blocks|);
      HeaderFieldWritten(grown, HEADER_FREED_BLOCKS_BLOCK_ID_OFFSET, |blocks|, HEADER_SIZE_OFFSET);
      HeaderFieldWritten(grown, HEADER_FREED_BLOCKS_BLOCK_ID_OFFSET, |blocks|, HEADER_NUM_FREE_BLOCKS_OFFSET);
      ModSmall(|blocks|);
    }
  }

  /** A block is created, empty and unlinked, exactly when the header named
      no registry. */
  lemma TrackingCreatesBlock(blockSize: nat, blocks: seq<BlockView>)
    requires ValidRecordLayout(blockSize, blocks) && |blocks| + 1 < U64_MODULUS
    requires FreedBlocksBlockId(blocks) == 0
    ensures var after := TrackingAfter(blockSize, blocks);
      |after| == |blocks| + 1 && after[|blocks|] == FreshBlock(|blocks|, blockSize) &&
      NextBlockId(after[|blocks|].payload) == 0 && RecordDataSize(after[|blocks|].payload) == 0
  {
    var grown := blocks + [FreshBlock(|blocks|, blockSize)];
    var after := TrackingAfter(blockSize, blocks);
    assert after[|blocks|] == after[1..][|blocks| - 1] == grown[1..][|blocks| - 1];
    FreshBlockEmpty(|blocks|, blockSize);
  }

  /** A second call finds the registry the first one created: it returns
      the same block and changes nothing. */
  lemma TrackingIdempotent(blockSize: nat, blocks: seq<BlockView>)
    requires ValidRecordLayout(blockSize, blocks) && |blocks| + 2 < U64_MODULUS
    ensures var after := TrackingAfter(blockSize, blocks);
      TrackingBlockId(after) == TrackingBlockId(blocks) && TrackingAfter(blockSize, after) == after
  {
    TrackingRegistered(blockSize, blocks);
  }

  /** Creating the registry leaves every record readable as before. */
  lemma TrackingKeepsRecords(blockSize: nat, blocks: seq<BlockView>, id: nat)
    requires ValidRecordLayout(blockSize, blocks) && |blocks| + 1 < U64_MODULUS
    requires id >= 1 && Chain(blocks, id).Success?
    ensures GetSpec(blockSize, TrackingAfter(blockSize, blocks), id) == GetSpec(blockSize, blocks, id)
    ensures GetRecordSpec(TrackingAfter(blockSize, blocks), id) == GetRecordSpec(blocks, id)
  {
    RecordsKept(blockSize, blocks, TrackingAfter(blockSize, blocks), id);
  }

  /** The block where the walk of `markAsFree` (src/RecordStorage.h:210-212)
      stops: the first block from `id` on whose `hasNextBlockId` is false. */
  function ChainLast(blocks: seq<BlockView>, id: nat): (r: Result<nat>)
    requires ForwardLinks(blocks)
    ensures r.Failure? ==> r.error == OutOfBounds
    ensures r.Success? ==> r.value < |blocks| && !HasNextBlockId(blocks[r.value].payload)
    decreases |blocks| - id
  {
    if id >= |blocks| then Failure(OutOfBounds)
    else
      var next := NextBlockId(blocks[id].payload);
      if next == 0 then Success(id) else ChainLast(blocks, next)
  }

  /** The walk stops at the last block of the chain `findBlocks` collects
      from the same block, and fails exactly when that chain does. */
  lemma {:induction false} ChainLastIsChainEnd(blocks: seq<BlockView>, id: nat)
    requires ForwardLinks(blocks)
    ensures ChainLast(blocks, id).Success? <==> Chain(blocks, id).Success?
    ensures ChainLast(blocks, id).Success? ==>
      ChainLast(blocks, id).value == Chain(blocks, id).value[|Chain(blocks, id).value| - 1]
    decreases |blocks| - id
  {
    if id < |blocks| {
      var next := NextBlockId(blocks[id].payload);
      if next != 0 {
        ChainLastIsChainEnd(blocks, next);
      }
    }
  }

  /** The byte count `markAsFree` needs in the registry's last block:
      `recordDataSize + sizeof(uint64_t)` in a `size_t`, which wraps at 2^64. */
  function NeededSize(payload: seq<Byte>): (r: nat)
    requires |payload| >= RECORD_DATA_OFFSET
    ensures r < U64_MODULUS
  {
    (RecordDataSize(payload) + U64_SIZE) % U64_MODULUS
  }

  /** The check of `markAsFree` (src/RecordStorage.h:214-215): the needed
      size does not exceed `recordCapacity()`. */
  predicate HasRoomForId(blockSize: nat, payload: seq<Byte>)
    requires blockSize >= MIN_RECORD_BLOCK_SIZE && |payload| >= RECORD_DATA_OFFSET
  {
    !(NeededSize(payload) > RecordCapacity(blockSize))
  }

  /** For a registry block whose record fits its payload, the check says
      exactly whether the 8 bytes behind the stored ids still lie inside the
      payload. */
  lemma HasRoomMeansSlotFits(blockSize: nat, payload: seq<Byte>)
    requires MIN_RECORD_BLOCK_SIZE <= blockSize < U32_MODULUS && |payload| == Capacity(blockSize)
    requires RecordData(payload).Success?
    ensures HasRoomForId(blockSize, payload) <==>
      RECORD_DATA_OFFSET + RecordDataSize(payload) + U64_SIZE <= |payload|
  {
    assert RecordDataSize(payload) + U64_SIZE < U64_MODULUS;
  }

  /** A registry block that was just created has room for one id, even in
      the smallest record block. */
  lemma FreshRegistryHasRoom(blockSize: nat, id: nat)
    requires blockSize >= MIN_RECORD_BLOCK_SIZE
    ensures HasRoomForId(blockSize, FreshBlock(id, blockSize).payload)
  {
    FreshBlockEmpty(id, blockSize);
  }

  /** The block list after `markAsFree`: the registry found or created, and
      when the walk from it reaches its last block, `numFreeBlocks` one lower,
      wrapping as a `uint64_t`. A link past the block count is the
      out-of-range `at` that ends the call before the header is written. */
  ghost function MarkAsFreeAfter(blockSize: nat, blocks: seq<BlockView>): (r: seq<BlockView>)
    requires ValidRecordLayout(blockSize, blocks) && |blocks| + 1 < U64_MODULUS
    ensures ValidRecordLayout(blockSize, r) && KeepsRecordBlocks(blocks, r)
  {
    var tracked := TrackingAfter(blockSize, blocks);
    if ChainLast(tracked, TrackingBlockId(blocks)).Failure? then tracked
    else
      HeaderWriteKeepsLayout(blockSize, tracked, HEADER_NUM_FREE_BLOCKS_OFFSET, DecrementU64(NumFreeBlocks(tracked)));
      WithHeaderField(tracked, HEADER_NUM_FREE_BLOCKS_OFFSET, DecrementU64(NumFreeBlocks(tracked)))
  }

  /** What the room check of `markAsFree` finds in the registry's last block,
      or the error of the walk to it. */
  ghost function MarkAsFreeRoom(blockSize: nat, blocks: seq<BlockView>): (r: Result<bool>)
    requires ValidRecordLayout(blockSize, blocks) && |blocks| + 1 < U64_MODULUS
  {
    var tracked := TrackingAfter(blockSize, blocks);
    match ChainLast(tracked, TrackingBlockId(blocks))
    case Failure(e) => Failure(e)
    case Success(tail) => Success(HasRoomForId(blockSize, tracked[tail].payload))
  }

  /** `markAsFree` when the walk reaches the registry's last block `tail`. */
  lemma MarkAsFreeReachesTail(blockSize: nat, blocks: seq<BlockView>, tracked: seq<BlockView>, tail: nat)
    requires ValidRecordLayout(blockSize, blocks) && |blocks| + 1 < U64_MODULUS
    requires tracked == TrackingAfter(blockSize, blocks)
    requires ChainLast(tracked, TrackingBlockId(blocks)) == Success(tail)
    ensures |tracked[HEADER_BLOCK].payload| >= RECORD_HEADER_SIZE && tail < |tracked|
    ensures MarkAsFreeAfter(blockSize, blocks) ==
      WithHeaderField(tracked, HEADER_NUM_FREE_BLOCKS_OFFSET, DecrementU64(NumFreeBlocks(tracked)))
    ensures MarkAsFreeRoom(blockSize, blocks) == Success(HasRoomForId(blockSize, tracked[tail].payload))
  {
    assert WellFormedBlock(blockSize, HEADER_BLOCK, tracked[HEADER_BLOCK]);
  }

  /** `markAsFree` leaves the record count, and the header names the
      registry. When the walk succeeds, `numFreeBlocks` is one lower, from 0
      to 2^64 - 1. */
  lemma MarkAsFreeCounts(blockSize: nat, blocks: seq<BlockView>)
    requires ValidRecordLayout(blockSize, blocks) && |blocks| + 1 < U64_MODULUS
    ensures var after := MarkAsFreeAfter(blockSize, blocks);
      RecordCount(after) == RecordCount(blocks) &&
      FreedBlocksBlockId(after) == TrackingBlockId(blocks)
    ensures MarkAsFreeRoom(blockSize, blocks).Success? ==>
      NumFreeBlocks(MarkAsFreeAfter(blockSize, blocks)) ==
        if NumFreeBlocks(blocks) == 0 then U64_MODULUS - 1 else NumFreeBlocks(blocks) - 1
  {
    var tracked := TrackingAfter(blockSize, blocks);
    TrackingRegistered(blockSize, blocks);
    var walk := ChainLast(tracked, TrackingBlockId(blocks));
    if walk.Success? {
      MarkAsFreeReachesTail(blockSize, blocks, tracked, walk.value);
      NumFreeDecremented(tracked);
    }
  }

  /** The walk fails only from a registry the header already named, beyond
      the block count or linking past it; the header is then left as it was. */
  lemma MarkAsFreeWalkFails(blockSize: nat, blocks: seq<BlockView>)
    requires ValidRecordLayout(blockSize, blocks) && |blocks| + 1 < U64_MODULUS
    requires MarkAsFreeRoom(blockSize, blocks).Failure?
    ensures MarkAsFreeRoom(blockSize, blocks).error == OutOfBounds
    ensures FreedBlocksBlockId(blocks) != 0 && MarkAsFreeAfter(blockSize, blocks) == blocks
    ensures Chain(blocks, FreedBlocksBlockId(blocks)).Failure?
  {
    TrackingRegistered(blockSize, blocks);
    if FreedBlocksBlockId(blocks) == 0 {
      TrackingCreatesBlock(blockSize, blocks);
    }
    ChainLastIsChainEnd(TrackingAfter(blockSize, blocks), TrackingBlockId(blocks));
  }

  /** Every record that could be read before `markAsFree` reads the same after. */
  lemma MarkAsFreeKeepsRecords(blockSize: nat, blocks: seq<BlockView>, id: nat)
    requires ValidRecordLayout(blockSize, blocks) && |blocks| + 1 < U64_MODULUS
    requires id >= 1 && Chain(blocks, id).Success?
    ensures GetRecordSpec(MarkAsFreeAfter(blockSize, blocks), id) == GetRecordSpec(blocks, id)
    ensures GetSpec(blockSize, MarkAsFreeAfter(blockSize, blocks), id) == GetSpec(blockSize, blocks, id)
  {
    RecordsKept(blockSize, blocks, MarkAsFreeAfter(blockSize, blocks), id);
  }

  /** The first `markAsFree` in a new record store creates the registry,
      which has room, and takes `numFreeBlocks` from 0 to 2^64 - 1: the count
      is only ever decremented. */
  lemma MarkAsFreeOnEmptyStore(blockSize: nat)
    requires MIN_RECORD_BLOCK_SIZE <= blockSize < U32_MODULUS
    ensures var blocks := [FreshBlock(HEADER_BLOCK, blockSize)];
      ValidRecordLayout(blockSize, blocks) &&
      MarkAsFreeRoom(blockSize, blocks) == Success(true) &&
      |MarkAsFreeAfter(blockSize, blocks)| == 2 &&
      NumFreeBlocks(MarkAsFreeAfter(blockSize, blocks)) == U64_MODULUS - 1
  {
    var blocks := [FreshBlock(HEADER_BLOCK, blockSize)];
    FreshBlockEmpty(HEADER_BLOCK, blockSize);
    var p := blocks[HEADER_BLOCK].payload;
    assert p[HEADER_NUM_FREE_BLOCKS_OFFSET..HEADER_NUM_FREE_BLOCKS_OFFSET + U64_SIZE] == Zeros(U64_SIZE);
    assert p[HEADER_FREED_BLOCKS_BLOCK_ID_OFFSET..HEADER_FREED_BLOCKS_BLOCK_ID_OFFSET + U64_SIZE] == Zeros(U64_SIZE);
    DecodeZeros(U64_SIZE);
    assert ValidRecordLayout(blockSize, blocks);
    TrackingCreatesBlock(blockSize, blocks);
    MarkAsFreeCounts(blockSize, blocks);
    FreshRegistryHasRoom(blockSize, 1);
  }
}
