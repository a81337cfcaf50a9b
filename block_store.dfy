// BlockStorage<BlockSize> and Block<BlockSize> (src/BlockStorage.h:130-312):
// a growable array of fixed-size blocks laid out in one FakeSharedMemory
// region. The template parameter `BlockSize` is the constant `BlockSize` of
// the store. `blocks` is the ghost list of blocks the region encodes; every
// operation reads and writes only the bytes of the region, and `Valid` ties
// the two together.

module BlockStore {
  import opened Bytes
  import opened Errors
  import opened Memory
  import opened BlockLayout
  import opened StoreLayout

  class BlockStorage {
    const BlockSize: nat
    const memory: FakeSharedMemory
    ghost var blocks: seq<BlockView>

    /** The region is exactly the encoding of a well-formed list of blocks. */
    ghost predicate Valid()
      reads this, memory
    {
      WellFormed(BlockSize, blocks) && memory.buffer == EncodeStore(BlockSize, blocks)
    }

    /** The constructor (src/BlockStorage.h:224-247). A region shorter than
        the store header is grown to the header, zeroed, and stamped with the
        block size. A longer region is taken as it is; the block-size check
        there is a TODO in the source, stated separately by `AttachStatus`. */
    constructor (blockSize: nat, memory: FakeSharedMemory)
      requires BLOCK_HEADER_SIZE <= blockSize < U64_MODULUS
      modifies memory
      ensures BlockSize == blockSize && this.memory == memory
      ensures |old(memory.buffer)| < STORE_HEADER_SIZE ==>
        memory.buffer == EncodeStoreHeader(blockSize, 0) && blocks == [] && Valid()
      ensures |old(memory.buffer)| >= STORE_HEADER_SIZE ==> memory.buffer == old(memory.buffer)
      ensures (exists bl :: WellFormed(blockSize, bl) && old(memory.buffer) == EncodeStore(blockSize, bl)) ==> Valid()
    {
      BlockSize := blockSize;
      this.memory := memory;
      if memory.Size() < STORE_HEADER_SIZE {
        memory.Realloc(STORE_HEADER_SIZE);
        memory.Write(0, Zeros(STORE_HEADER_SIZE));
        memory.Write(STORE_BLOCK_SIZE_OFFSET, EncodeU64(blockSize));
        blocks := [];
        assert memory.buffer == EncodeStoreHeader(blockSize, 0) by {
          SplicePrefix(Zeros(STORE_HEADER_SIZE), EncodeU64(blockSize));
          assert Zeros(STORE_HEADER_SIZE)[U64_SIZE..] == Zeros(U64_SIZE);
          EncodeU64Zero();
        }
        assert EncodeStore(blockSize, []) == EncodeStoreHeader(blockSize, 0);
      } else if exists bl :: WellFormed(blockSize, bl) && memory.buffer == EncodeStore(blockSize, bl) {
        ghost var found :| WellFormed(blockSize, found) && memory.buffer == EncodeStore(blockSize, found);
        blocks := found;
      }
    }

    /** `size()` (src/BlockStorage.h:259-263): the block count read from the store header. */
    function Size(): (n: nat)
      reads this, memory
      requires |memory.buffer| >= STORE_HEADER_SIZE
      ensures n < U64_MODULUS
    {
      DecodeU64(memory.buffer[STORE_SIZE_OFFSET..STORE_SIZE_OFFSET + U64_SIZE])
    }

    /** The stored count is the number of blocks the region holds. */
    lemma SizeIsCount()
      requires Valid()
      ensures |memory.buffer| >= STORE_HEADER_SIZE && Size() == |blocks|
    {
      StoreHeaderFields(BlockSize, blocks);
      DecodeEncodeU64Small(|blocks|);
    }

    /** The region always holds the header and exactly `Size()` blocks
        (src/BlockStorage.h:235, 276-277). */
    lemma RegionLength()
      requires Valid()
      ensures |memory.buffer| == STORE_HEADER_SIZE + BlockSize * Size()
    {
      StoreLength(BlockSize, blocks);
      SizeIsCount();
    }

    /** `at(index)` (src/BlockStorage.h:265-272); an index at or beyond
        `size()` is the error the source leaves as a TODO. */
    function At(index: nat): (r: Result<Block>)
      reads this, memory
      requires Valid()
      ensures r.Success? <==> index < |blocks|
      ensures r.Success? ==> r.value.storage == this && r.value.index == index && r.value.Live()
    {
      SizeIsCount();
      if index >= Size() then Failure(OutOfBounds) else Success(Block(this, index))
    }

    /** `create()` (src/BlockStorage.h:274-283): grow the region by one block,
        bump the stored count, and stamp the new block's header. */
    method Create() returns (b: Block)
      requires Valid() && |blocks| + 1 < U64_MODULUS
      modifies this, memory
      ensures Valid()
      ensures blocks == old(blocks) + [FreshBlock(|old(blocks)|, BlockSize)]
      ensures |memory.buffer| == |old(memory.buffer)| + BlockSize
      ensures b.storage == this && b.index == |old(blocks)| && b.Live()
    {
      ghost var n := |blocks|;
      CreateSteps(BlockSize, blocks);
      ghost var before := memory.buffer;
      memory.Realloc(memory.Size() + BlockSize);
      assert memory.buffer == before + Zeros(BlockSize) by {
        assert memory.buffer == memory.buffer[..|before|] + memory.buffer[|before|..];
      }
      var count := DecodeU64(memory.buffer[STORE_SIZE_OFFSET..STORE_SIZE_OFFSET + U64_SIZE]);
      assert count == n;
      memory.Write(STORE_SIZE_OFFSET, EncodeU64(count + 1));
      var zeroBasedIndex := DecodeU64(memory.buffer[STORE_SIZE_OFFSET..STORE_SIZE_OFFSET + U64_SIZE]) - 1;
      assert zeroBasedIndex == n;
      memory.Write(BlockOffset(BlockSize, zeroBasedIndex), EncodeBlockHeader(zeroBasedIndex, BlockSize, 0));
      ghost var grownBlocks := blocks + [FreshBlock(n, BlockSize)];
      assert memory.buffer == EncodeStore(BlockSize, grownBlocks);
      blocks := grownBlocks;
      b := Block(this, zeroBasedIndex);
    }
  }

  /** A handle on block `index` of `storage` (src/BlockStorage.h:133-214).
      Every accessor reads the block's bytes in the region. */
  datatype Block = Block(storage: BlockStorage, index: nat)
  {
    /** The handle names an existing block of a consistent store. */
    ghost predicate Live()
      reads storage, storage.memory
    {
      storage.Valid() && index < |storage.blocks|
    }

    /** `getHeader()` (src/BlockStorage.h:202-205): where the block starts. */
    function Start(): nat
      reads storage
    {
      BlockOffset(storage.BlockSize, index)
    }

    /** The 8 bytes of the block header field at offset `field`. */
    function Field(field: nat): (r: nat)
      reads storage, storage.memory
      requires Live() && field + U64_SIZE <= BLOCK_HEADER_SIZE
    {
      BlockInStore(storage.BlockSize, storage.blocks, index, field, field + U64_SIZE);
      DecodeU64(storage.memory.buffer[Start() + field..Start() + field + U64_SIZE])
    }

    /** `id()` (src/BlockStorage.h:151-154): the id `createBlock` stamped, which is the block's index. */
    function Id(): (r: nat)
      reads storage, storage.memory
      requires Live()
      ensures r == storage.blocks[index].id && r == index
    {
      var b := storage.blocks[index];
      assert WellFormedBlock(storage.BlockSize, index, b);
      BlockInStore(storage.BlockSize, storage.blocks, index, BLOCK_ID_OFFSET, BLOCK_ID_OFFSET + U64_SIZE);
      BlockFields(b);
      DecodeEncodeU64Small(b.id);
      Field(BLOCK_ID_OFFSET)
    }

    /** `blockSize()` (src/BlockStorage.h:156-159): always the store's block size. */
    function BlockSize(): (r: nat)
      reads storage, storage.memory
      requires Live()
      ensures r == storage.blocks[index].blockSize && r == storage.BlockSize
    {
      var b := storage.blocks[index];
      assert WellFormedBlock(storage.BlockSize, index, b);
      BlockInStore(storage.BlockSize, storage.blocks, index, BLOCK_BLOCK_SIZE_OFFSET, BLOCK_BLOCK_SIZE_OFFSET + U64_SIZE);
      BlockFields(b);
      DecodeEncodeU64Small(b.blockSize);
      Field(BLOCK_BLOCK_SIZE_OFFSET)
    }

    /** `capacity()` (src/BlockStorage.h:161-164): the payload length behind the header. */
    function Capacity(): (r: nat)
      reads storage, storage.memory
      requires Live()
      ensures r == |storage.blocks[index].payload|
    {
      assert WellFormedBlock(storage.BlockSize, index, storage.blocks[index]);
      BlockSize() - BLOCK_HEADER_SIZE
    }

    /** `size()` (src/BlockStorage.h:166-169): the byte count the last `set` stored. */
    function Size(): (r: nat)
      reads storage, storage.memory
      requires Live()
      ensures r == storage.blocks[index].size && r <= Capacity()
    {
      var b := storage.blocks[index];
      assert WellFormedBlock(storage.BlockSize, index, b);
      BlockInStore(storage.BlockSize, storage.blocks, index, BLOCK_SIZE_OFFSET, BLOCK_SIZE_OFFSET + U64_SIZE);
      BlockFields(b);
      DecodeEncodeU64Small(b.size);
      Field(BLOCK_SIZE_OFFSET)
    }

    /** `data()` (src/BlockStorage.h:171-179): the payload bytes. */
    function Data(): (r: seq<Byte>)
      reads storage, storage.memory
      requires Live()
      ensures r == storage.blocks[index].payload && |r| == Capacity()
    {
      var b := storage.blocks[index];
      assert WellFormedBlock(storage.BlockSize, index, b);
      BlockInStore(storage.BlockSize, storage.blocks, index, BLOCK_HEADER_SIZE, storage.BlockSize);
      BlockFields(b);
      storage.memory.buffer[Start() + BLOCK_HEADER_SIZE..Start() + storage.BlockSize]
    }

    /** `set(data, size)` (src/BlockStorage.h:181-190) with the guard the
        payload needs: more bytes than `capacity()` are refused and nothing
        changes. Otherwise the bytes go to the front of the payload, the
        rest of the payload is kept, `size()` becomes `|data|`, and no other
        block and no store header byte changes. */
    method Set(data: seq<Byte>) returns (r: Outcome)
      requires Live()
      modifies storage, storage.memory
      ensures storage.Valid()
      ensures SetGuardRejects(storage.BlockSize, |data|) ==>
        r == Fail(PayloadTooLarge) && storage.blocks == old(storage.blocks) &&
        storage.memory.buffer == old(storage.memory.buffer)
      ensures !SetGuardRejects(storage.BlockSize, |data|) ==>
        r == Pass && storage.blocks == old(storage.blocks)[index := AfterSet(old(storage.blocks)[index], data)]
    {
      if |data| > Capacity() {
        return Fail(PayloadTooLarge);
      }
      ghost var after := storage.blocks[index := AfterSet(storage.blocks[index], data)];
      SetSteps(storage.BlockSize, storage.blocks, index, data);
      storage.memory.Write(Start() + BLOCK_HEADER_SIZE, data);
      storage.memory.Write(Start() + BLOCK_SIZE_OFFSET, EncodeU64(|data|));
      assert storage.memory.buffer == EncodeStore(storage.BlockSize, after);
      storage.blocks := after;
      return Pass;
    }

    /** A store of `bytes` at `offset` through the address `data()` returns,
        as the record layer does when it assigns a field of a header it has
        laid over a payload: those payload bytes change and nothing else. */
    method WriteData(offset: nat, bytes: seq<Byte>)
      requires Live() && offset + |bytes| <= storage.BlockSize - BLOCK_HEADER_SIZE
      modifies storage, storage.memory
      ensures storage.Valid()
      ensures storage.blocks == old(storage.blocks)[index := AfterWrite(old(storage.blocks)[index], offset, bytes)]
    {
      ghost var after := storage.blocks[index := AfterWrite(storage.blocks[index], offset, bytes)];
      WriteSteps(storage.BlockSize, storage.blocks, index, offset, bytes);
      storage.memory.Write(Start() + BLOCK_HEADER_SIZE + offset, bytes);
      storage.blocks := after;
    }
  }
}
