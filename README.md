# BlockStorage: a verified model of the block allocator and the record layer

BlockStorage lays out records in one flat byte region that only ever grows.
It has two layers:

- **Block allocator.** `BlockStorage<BlockSize>` and `Block<BlockSize>` live in `src/BlockStorage.h`.
  - Offset 0 of the region holds a 16-byte store header `{blockSize, size}`.
  - Block `i` starts at offset `16 + BlockSize * i`.
  - Each block starts with a 24-byte header `{id, blockSize, size}`, followed by `BlockSize - 24` payload bytes.
- **Record layer.** `RecordStorage<BlockSize>` lives in `src/RecordStorage.h`.
  - Block 0 is the header block. Its payload is `{size, numFreeBlocks, freedBlocksBlockId}`.
  - Every other record block's payload is a `RecordFormat`: `{nextBlockId, size, data...}`, with the data starting at offset 16.

This project models both layers in Dafny.

**What is modelled as state.**
- The region is the byte sequence of `FakeSharedMemory` (class `Memory.FakeSharedMemory`). Only its `realloc` and stores change it.
- `BlockStore.BlockStorage` keeps a ghost list of `BlockView`s. Its invariant `Valid()` says the region is exactly the encoding of those blocks. The encoding (`BlockLayout`) writes every `uint64_t` field as 8 little-endian bytes, truncated to 64 bits.
- `BlockStore.Block` is the `(storage, index)` handle the C++ `Block` is. Its accessors read the bytes of the region.
- `RecordStore.RecordStorage` runs over a block store. Its invariant adds a header block and forward record links (`RecordLayout.ValidRecordLayout`).

**How the operations are specified.** Each imperative operation is a method whose postcondition ties the new block list to a specification function of the old one:

| method | specification function |
|---|---|
| `Add` | `AddAsWritten` |
| `Get` | `GetSpec` |
| `GetSpaceTrackingBlock` | `TrackingAfter` |
| `MarkAsFree` | `MarkAsFreeAfter` |

The properties of those functions are proved as lemmas: round trips, record count, records kept, and chain walks.

**Where the model follows the code rather than the design.** `add` is modelled as written. It does not decrement `remainingSize`, never links blocks, counts blocks by `BlockSize`, and for empty data allocates no block. The record layer's evident intent, a linked multi-block record, is modelled beside it as `AddChained`/`AddLinked`, and "## Findings" lists the gaps between the two. The header does not compile as shown, so the model follows its evident intent:

- `Block` stands for `Block<BlockSize>`.
- `freedBlockBlockId` on line 200 is read as `freedBlocksBlockId`.
- `markAsFree` takes no block, because its caller passes a vector and its body never uses the parameter.

## Model

| member | source | states |
|---|---|---|
| Memory.FakeSharedMemory.constructor | src/BlockStorage.h:24-27 | the region starts as `sizeInBytes` zero bytes |
| Memory.Resized | src/BlockStorage.h:48-53 | a request no larger than the region keeps it unchanged; a larger one grows it to exactly the requested length, keeping the old bytes and zero-filling the rest |
| Memory.FakeSharedMemory.Realloc | src/BlockStorage.h:48-53 | the new region is `Resized(old region, requested)` |
| Memory.FakeSharedMemory.Write | src/BlockStorage.h:38-41 | a store through `get()` replaces exactly the bytes it covers and keeps every other byte |
| Bytes.DecodeEncodeU64 | src/BlockStorage.h:194-199 | loading a stored `uint64_t` field gives back the stored value modulo 2^64 |
| Bytes.EncodeDecodeU64 | src/BlockStorage.h:194-199 | storing the value just loaded from 8 bytes leaves them as they were |
| Bytes.DecrementU64 | src/RecordStorage.h:221-222 | `numFreeBlocks -= 1` on a `uint64_t` wraps from 0 to 2^64 - 1 |
| Bytes.SpliceEffect | src/BlockStorage.h:188 | after a `memcpy` the written range reads back as the data and every byte outside it is unchanged |
| BlockLayout.BlockFields | src/BlockStorage.h:194-199 | an encoded block holds its id at offset 0, its block size at 8, its size at 16 and its payload from offset 24 |
| BlockLayout.StoreHeaderFields | src/BlockStorage.h:288-292 | an encoded store holds the block size at offset 0 and the block count at offset 8 |
| BlockLayout.StoreLength | src/BlockStorage.h:274-283 | a well-formed store of n blocks takes exactly 16 + BlockSize * n bytes |
| BlockLayout.AfterSet | src/BlockStorage.h:181-190 | `set` keeps id, block size and payload length; the size becomes the byte count; the payload starts with the data; the rest of the payload is unchanged |
| BlockLayout.AfterWrite | src/BlockStorage.h:171-179 | a store through `data()` changes only the payload bytes it covers; id, block size and size are unchanged |
| BlockLayout.WellFormedAppend | src/BlockStorage.h:274-283 | appending a fresh block whose id is the old count (size 0, zero payload) keeps every block's id equal to its index and every block the same length |
| BlockLayout.AttachStatus | src/BlockStorage.h:240-244 | the attach check can fail only with the corrupt-store error |
| BlockLayout.SetGuardAdmitsOverflow | src/BlockStorage.h:183 | a byte count of capacity + 1 passes the guard as written, fails the intended guard, and its copy runs past the end of the block |
| StoreLayout.AttachToStore | src/BlockStorage.h:240-244 | attaching to a valid store passes exactly when the stored block size equals the requested one |
| StoreLayout.StoreSplit | src/BlockStorage.h:202-205 | block i's encoding sits at offset 16 + BlockSize * i of the region |
| StoreLayout.BlockInStore | src/BlockStorage.h:202-205 | any byte range inside block i's slot of the region is that range of block i's encoding |
| StoreLayout.StoreUpdate | src/BlockStorage.h:188-189 | a byte write inside block i's slot of the region is a change of block i alone |
| StoreLayout.StoreAppend | src/BlockStorage.h:276-281 | growing a store by BlockSize zero bytes, storing count + 1 and stamping a block header with id n, size 0 at the old end gives the store with a fresh block n appended |
| StoreLayout.CreateSteps | src/BlockStorage.h:274-283 | the grow, bump and stamp steps of `create` turn a store of n blocks into the store with a fresh block n appended |
| StoreLayout.SetSteps | src/BlockStorage.h:181-190 | the payload copy and the size store of `set` turn the region into the encoding of the blocks with block i replaced by `AfterSet` |
| StoreLayout.WriteSteps | src/BlockStorage.h:171-179 | a store into block i's payload turns the region into the encoding of the blocks with block i replaced by `AfterWrite` |
| BlockStore.BlockStorage.constructor | src/BlockStorage.h:224-247 | a region shorter than 16 bytes becomes the 16-byte header with the block size stamped and count 0; a longer region is not modified, and it is valid when it encodes a store of this block size |
| BlockStore.BlockStorage.Size | src/BlockStorage.h:259-263 | the stored count is always below 2^64 |
| BlockStore.BlockStorage.SizeIsCount | src/BlockStorage.h:259-263 | `size()` is the number of blocks in the region |
| BlockStore.BlockStorage.RegionLength | src/BlockStorage.h:233-239 | the region is exactly 16 + BlockSize * size() bytes long |
| BlockStore.BlockStorage.At | src/BlockStorage.h:265-272 | `at(i)` succeeds exactly when i < size() and then returns the live handle of block i |
| BlockStore.BlockStorage.Create | src/BlockStorage.h:274-283 | `create` keeps every earlier block, appends a fresh block whose id is the old count, grows the region by exactly BlockSize bytes and returns the handle of the new block |
| BlockStore.Block.Id | src/BlockStorage.h:151-154 | a block's stored id equals its index |
| BlockStore.Block.BlockSize | src/BlockStorage.h:156-159 | every block stores the store's block size |
| BlockStore.Block.Capacity | src/BlockStorage.h:161-164 | the capacity is the block's payload length, which the store invariant fixes at BlockSize - 24 |
| BlockStore.Block.Size | src/BlockStorage.h:166-169 | a block's size is its stored size and never exceeds its capacity |
| BlockStore.Block.Data | src/BlockStorage.h:171-179 | `data()` is the block's payload, of capacity length |
| BlockStore.Block.Set | src/BlockStorage.h:181-190 | more bytes than the capacity are refused and nothing changes; otherwise only this block changes, as `AfterSet` says |
| BlockStore.Block.WriteData | src/BlockStorage.h:171-179 | a store through `data()` changes this block's payload as `AfterWrite` says and no other block |
| RecordFormat.NextBlockId | src/RecordStorage.h:133-137 | the link read from a payload is a `uint64_t`, below 2^64 |
| RecordFormat.HasNextBlockIdIffLinkBytes | src/RecordStorage.h:127-131 | a block has a next block exactly when one of the eight bytes of its `nextBlockId` field is non-zero |
| RecordFormat.RecordDataSize | src/RecordStorage.h:144-148 | the stored record size is a `uint64_t`, below 2^64 |
| RecordFormat.ToRecordFormat | src/RecordStorage.h:174-187 | the encoding of n data bytes is 16 + n bytes long; `ToRecordFormatRoundTrip` and `RecordFormatOfPayload` relate it to the decoders in both directions |
| RecordFormat.RecordCapacity | src/RecordStorage.h:139-142 | the record capacity plus the 16-byte record header is the block capacity |
| RecordFormat.RecordData | src/RecordStorage.h:150-154 | the record data is readable exactly when the stored size fits the payload; it then has the stored size, and otherwise the result is the invalid-argument error |
| RecordFormat.ToRecordFormatRoundTrip | src/RecordStorage.h:174-187 | decoding `toRecordFormat(data)` with the decoders of lines 127-154 gives no next block, the data's length as size, and the data itself |
| RecordFormat.LinkedRecordFormatFields | src/RecordStorage.h:174-187 | a record format with a link decodes to that link modulo 2^64, the data size and the data |
| RecordFormat.RecordFormatOfPayload | src/RecordStorage.h:174-187 | an unlinked payload whose record data is `data` starts with `toRecordFormat(data)` |
| RecordFormat.RecordPrefix | src/RecordStorage.h:127-154 | the decoders read only the record prefix of a payload |
| RecordLayout.HeaderFieldWritten | src/RecordStorage.h:103-108 | writing one header field stores the value modulo 2^64 and leaves the other header fields and every record block unchanged |
| RecordLayout.RecordCounted | src/RecordStorage.h:77-78 | `header->size += 1` raises the record count by one modulo 2^64 and keeps the other two header fields |
| RecordLayout.NumFreeDecremented | src/RecordStorage.h:221-222 | the decrement lowers `numFreeBlocks` by one, wrapping 0 to 2^64 - 1, and keeps the other two header fields |
| RecordLayout.GetSpec | src/RecordStorage.h:46-56 | what `get` returns as written: it succeeds exactly when the walk from the id succeeds, and fails only out-of-bounds |
| RecordLayout.GetRecordSpec | src/RecordStorage.h:46-56 | what `get` is meant to return: an id whose walk fails reads out-of-bounds; a chain whose stored size runs past a block's payload is an invalid-argument error |
| RecordLayout.Chain | src/RecordStorage.h:158-172 | a chain walk that succeeds starts at the given id; one that fails reports out-of-bounds |
| RecordLayout.ChainIsChain | src/RecordStorage.h:158-172 | the walk returns ids exactly when they start at the given id, each next id is the previous block's non-zero `nextBlockId`, and the last block has none |
| RecordLayout.ChainSound | src/RecordStorage.h:158-172 | every successful walk is a chain |
| RecordLayout.ChainComplete | src/RecordStorage.h:158-172 | every chain is what the walk returns |
| RecordLayout.ChainStep | src/RecordStorage.h:165-169 | one loop step of `findBlocks` follows the block's `nextBlockId` |
| RecordLayout.ChainStop | src/RecordStorage.h:165 | the walk stops at the first block without a next id |
| RecordLayout.RecordBlockFields | src/RecordStorage.h:174-187 | a block set to a record format decodes to its link and its data, and its payload starts with that record format |
| RecordLayout.UnlinkedRecordBlock | src/RecordStorage.h:158-172 | for a block holding an unlinked record, the walk is that block alone, `get` returns the record format and the record data is the data |
| RecordLayout.SingleBlockRecord | src/RecordStorage.h:46-56 | for any block without a next id, `get` returns its first size() payload bytes |
| RecordLayout.FreshBlockEmpty | src/RecordStorage.h:195-205 | a freshly created block reads as a record with no next block and size 0 |
| RecordLayout.FreshAppendKeepsLayout | src/RecordStorage.h:233-236 | appending a fresh block keeps the record layout and every existing record block |
| RecordLayout.HeaderWriteKeepsLayout | src/RecordStorage.h:77-78 | a header field write keeps the record layout and every record block |
| RecordLayout.RecordsKept | src/RecordStorage.h:46-56 | when every record block is kept, every record that was readable reads the same afterwards |
| RecordAdd.AddBlockLimit | src/RecordStorage.h:65 | the per-block limit is the capacity minus `sizeof(RecordFormat)` (24), 8 bytes below the record capacity |
| RecordAdd.NumBlocksIsCeiling | src/RecordStorage.h:229-230 | the block count is ceil(size / BlockSize); it is zero exactly for size 0 |
| RecordAdd.AddChunkSize | src/RecordStorage.h:66-74 | each block is given min(limit, size) bytes; the whole data fits exactly when size is within the limit |
| RecordAdd.AddStep | src/RecordStorage.h:64-74 | block k of `add` is a fresh block set to the record format of the k-th chunk |
| RecordAdd.AddedBlocksUnlinked | src/RecordStorage.h:182 | every block `add` writes is well formed and has `nextBlockId` 0 |
| RecordAdd.AddAsWrittenLayout | src/RecordStorage.h:58-84 | `add` keeps the record layout and every existing record block |
| RecordAdd.AddCountsRecord | src/RecordStorage.h:77-78 | `add` raises the record count by one modulo 2^64 and keeps the other header fields |
| RecordAdd.AddKeepsRecords | src/RecordStorage.h:58-84 | every record readable before `add` reads the same afterwards |
| RecordAdd.AddRoundTrip | src/RecordStorage.h:58-84 | for data within one block's limit, the record data at the returned id is the data and `get` returns its record format |
| RecordAdd.AddStoresFirstPart | src/RecordStorage.h:63-74 | for any non-empty data the record at the returned id holds only the first chunk |
| RecordAdd.AddGetsFirstPart | src/RecordStorage.h:46-56 | `get` of the returned id yields the record format of the first chunk |
| RecordAdd.AddLosesData | src/RecordStorage.h:63-74 | data longer than one block's limit does not read back |
| RecordAdd.AddLeavesBlocksUnlinked | src/RecordStorage.h:63-74 | every block `add` writes is a record of its own, holding its chunk, with no link |
| RecordAdd.AddEmptyAllocatesNothing | src/RecordStorage.h:80-83 | empty data allocates no block; `add` then only bumps the count |
| RecordAdd.AddOverreads | src/RecordStorage.h:225-239 | from BlockSize 98 on, data of BlockSize + 1 bytes makes `add` read past the end of the data |
| RecordChained.RecordChunks | src/RecordStorage.h:63-74 | intended: the data cut into at least one chunk, every chunk within capacity and all but the last full, which concatenate back to the data |
| RecordChained.ChainedLinksForward | src/RecordStorage.h:118-124 | each block of a linked record is well formed, holds its chunk and links to the next id, the last to 0 |
| RecordChained.AddChainedChain | src/RecordStorage.h:158-172 | the walk from the first block of a linked record visits its blocks in order |
| RecordChained.AddChainedRoundTrip | src/RecordStorage.h:46-84 | a linked record reads back as the whole data |
| RecordChained.AddChainedCountsRecord | src/RecordStorage.h:77-78 | the linked add raises the count by one modulo 2^64 and keeps the other header fields |
| RecordChained.AddChainedKeepsRecords | src/RecordStorage.h:58-84 | every record readable before a linked add reads the same afterwards |
| RecordRegistry.TrackingBlockId | src/RecordStorage.h:195-205 | the registry block is never the header block |
| RecordRegistry.TrackingAfter | src/RecordStorage.h:195-205 | registry lookup keeps the record layout and every record block |
| RecordRegistry.TrackingRegistered | src/RecordStorage.h:198-204 | afterwards the header names the registry block and the other fields are unchanged; with a registry already named, nothing changes |
| RecordRegistry.TrackingCreatesBlock | src/RecordStorage.h:198-201 | with no registry, exactly one fresh empty block is appended |
| RecordRegistry.TrackingIdempotent | src/RecordStorage.h:195-205 | a second lookup returns the same block and changes nothing |
| RecordRegistry.TrackingKeepsRecords | src/RecordStorage.h:195-205 | registry lookup changes no record a reader can see |
| RecordRegistry.ChainLastIsChainEnd | src/RecordStorage.h:209-212 | the tail walk succeeds exactly when the chain walk does, and ends at the chain's last block |
| RecordRegistry.HasRoomMeansSlotFits | src/RecordStorage.h:214-215 | one more 8-byte id fits the tail block exactly when its record data plus 8 fits the record capacity |
| RecordRegistry.FreshRegistryHasRoom | src/RecordStorage.h:198-201 | a new registry block has room for an id |
| RecordRegistry.MarkAsFreeAfter | src/RecordStorage.h:207-223 | `markAsFree` keeps the record layout and every record block |
| RecordRegistry.MarkAsFreeReachesTail | src/RecordStorage.h:209-222 | `markAsFree` decrements `numFreeBlocks` after lookup, and its room check is the check on the registry tail |
| RecordRegistry.MarkAsFreeCounts | src/RecordStorage.h:221-222 | `markAsFree` keeps the record count, names the registry, and lowers `numFreeBlocks` by one with 64-bit wrap |
| RecordRegistry.MarkAsFreeWalkFails | src/RecordStorage.h:209-212 | a registry chain that leaves the store fails out-of-bounds and changes nothing |
| RecordRegistry.MarkAsFreeKeepsRecords | src/RecordStorage.h:207-223 | `markAsFree` changes no record a reader can see |
| RecordRegistry.MarkAsFreeOnEmptyStore | src/RecordStorage.h:207-223 | on an empty store, `markAsFree` creates the registry, finds room and wraps `numFreeBlocks` to 2^64 - 1 |
| RecordStore.EmptyRecordStore | src/RecordStorage.h:23-32 | the store made by the constructor holds no records, its header fields are all 0, and every id reads out-of-bounds |
| RecordStore.RecordStorage.constructor | src/RecordStorage.h:17-34 | over an empty block store, the header block 0 is created with all fields 0; any other store is not modified |
| RecordStore.RecordStorage.CreateHeader | src/RecordStorage.h:23-31 | the store becomes the single fresh header block and satisfies the record invariant |
| RecordStore.RecordStorage.ClearHeader | src/RecordStorage.h:29-31 | zeroing the three header fields of a freshly created header block keeps the region valid and the block list unchanged |
| RecordStore.RecordStorage.HeaderBlock | src/RecordStorage.h:189-193 | `getHeader()` is the live handle of block 0 |
| RecordStore.RecordStorage.Size | src/RecordStorage.h:92-95 | `size()` is the header's record count |
| RecordStore.RecordStorage.FindBlocks | src/RecordStorage.h:158-172 | returns the handles of exactly the chain walk's ids, or the walk's error |
| RecordStore.RecordStorage.Get | src/RecordStorage.h:46-56 | returns `GetSpec`: the concatenated first size() payload bytes of the chain's blocks |
| RecordStore.RecordStorage.GatherBlocks | src/RecordStorage.h:51-53 | the loop appends each block's first size() payload bytes in chain order |
| RecordStore.RecordStorage.GetRecord | src/RecordStorage.h:46-56 | returns the concatenated record data of the chain's blocks |
| RecordStore.RecordStorage.GetFreeBlocks | src/RecordStorage.h:225-239 | appends exactly ceil(size / BlockSize) fresh blocks with consecutive ids and returns their handles |
| RecordStore.RecordStorage.CreateBlocks | src/RecordStorage.h:233-236 | the loop appends `count` fresh blocks with consecutive ids |
| RecordStore.RecordStorage.StoreParts | src/RecordStorage.h:64-75 | the loop leaves the new blocks as `add` writes them |
| RecordStore.RecordStorage.IncrementSize | src/RecordStorage.h:77-78 | only the header's count field changes, by one modulo 2^64 |
| RecordStore.RecordStorage.Add | src/RecordStorage.h:58-84 | the store becomes `AddAsWritten`; non-empty data returns the first new block's id, never the invalid id 0; empty data is an invalid-argument error |
| RecordStore.RecordStorage.AddLinked | src/RecordStorage.h:58-84 | the intended add: the store becomes `AddChained`, and the returned id reads back as the data |
| RecordStore.RecordStorage.StoreLinkedParts | src/RecordStorage.h:64-75 | intended: the loop writes each chunk linked to the next block, the last to 0 |
| RecordStore.RecordStorage.GetSpaceTrackingBlock | src/RecordStorage.h:195-205 | the store becomes `TrackingAfter`; the result is the registry block when its id is in bounds, otherwise out-of-bounds |
| RecordStore.RecordStorage.CreateRegistry | src/RecordStorage.h:198-201 | with no registry named, the store becomes `TrackingAfter` (one fresh block appended, its id stored in the header) and the new block's handle is returned |
| RecordStore.RecordStorage.FindRegistryTail | src/RecordStorage.h:209-212 | after registry lookup, the result is the last block of the registry chain, or the chain's error |
| RecordStore.RecordStorage.CheckAndCount | src/RecordStorage.h:214-222 | from the registry tail, the room check is the one `MarkAsFreeRoom` specifies and the store becomes `MarkAsFreeAfter` |
| RecordStore.RecordStorage.RegistryTail | src/RecordStorage.h:210-212 | the walk ends at the last block of the registry chain, or reports the chain's error |
| RecordStore.RecordStorage.DecrementFreeBlocks | src/RecordStorage.h:221-222 | only `numFreeBlocks` changes, decremented modulo 2^64 |
| RecordStore.RecordStorage.HasRoom | src/RecordStorage.h:214-215 | true exactly when one more 8-byte id fits after the block's record data (`HasRoomForId`) |
| RecordStore.RecordStorage.MarkAsFree | src/RecordStorage.h:207-223 | the store becomes `MarkAsFreeAfter`; the result is the room check on the registry tail, or the walk's error |

## Left out

- Locking: `lock`/`unlock`, the `std::mutex` and the `std::lock_guard`s in both constructors are concurrency. Every operation runs as if it held the lock.
- Shared memory across processes: only the in-process byte vector of `FakeSharedMemory` is modelled. `ISharedMemory` is that one class.
- Raw addresses: `get()`, `data()`, `getHeader()` and the record layer's casts are modelled as offsets into the region. Loads and stores are little-endian 8-byte decodes and encodes.
- The `Header*` that `getSpaceTrackingBlock` takes before `create` may dangle once `realloc` moves the vector. The model writes the id through a handle that survives the move.
- `src/BTree.h` and `src/BTreeView.h` are declarations that do not compile, so they have no behaviour to model.
- `VectorView`, `RecordView`, `BlockStorage::free`, `numFreeBlocks`, `Block::MIN_BLOCK_SIZE` and `getFreeBlockIds` appear only in tests and `src/main.cpp`, with no implementation.
- `erase` and free-block reuse: `erase` passes a vector where `markAsFree` expects a `Block&`, and both branches of `markAsFree` are empty. Only what `markAsFree` does is modelled: registry lookup, the tail walk, the room check and the decrement. Pushing and popping freed ids is not modelled.
- The commented-out `Block` class and `initializeHeader` have no effect.
- BlockStore.BlockStorage.constructor: it does not fail on a stored block size other than `BlockSize`. The source leaves that check as a TODO, so the check is stated separately by `AttachStatus`.
- BlockStore.BlockStorage.constructor: a region of 16 or more bytes that encodes no store leaves the invariant unestablished.
- BlockStore.BlockStorage.constructor: it requires `BlockSize >= 24`. The template accepts any block size (`MIN_BLOCK_SIZE` is a TODO at src/BlockStorage.h:137), but below 24 the block header `create` stamps runs past the block's slot.
- RecordFormat.RecordData: it fails with an invalid-argument error when 16 + the stored size runs past the payload. `recordData` returns its address unchecked, and a reader would go beyond the block.
- RecordLayout.Chain: the record invariant `ForwardLinks` requires every stored link to point to a higher id, which rules out link cycles. On a cycle `findBlocks` would loop forever, and the model does not capture that.
- BlockStore.BlockStorage.At: out-of-range `at` is modelled as an out-of-bounds failure. The source leaves the throw as a TODO and returns a handle that reads past the region.
- BlockStore.Block.Set: it rejects more bytes than the capacity. The guard as written compares with the block size and its body is empty (see Findings).
- BlockStore.BlockStorage.Create: it requires the block count to stay below 2^64, because a `uint64_t` count that wraps is not modelled.
- RecordStore.RecordStorage.constructor: it requires `48 <= BlockSize < 2^32`. The header block needs room for the 24-byte record header, and the `uint32_t` cast in `toRecordFormat` is assumed not to truncate.
- RecordFormat.ToRecordFormat: it requires `16 + |data| < 2^32`. The `static_cast<uint32_t>` that would otherwise truncate is not modelled.
- RecordStore.RecordStorage.Add: it requires `AddPre`. That means every chunk read stays inside the data (the as-written overread is stated by `AddOverreads`) and the new ids fit in 64 bits.
- RecordStore.RecordStorage.Add: empty data returns an invalid-argument failure after bumping the count. The source fails its assert and then indexes an empty vector.
- RecordStore.RecordStorage.MarkAsFree: it returns the room check as a result so that the check can be stated. The source discards it.
- Sizes and ids are unbounded naturals. The 64-bit wrap is modelled explicitly where the source's arithmetic wraps: header counts, `numFreeBlocks`, and stored fields.

## Findings

| source | as written | input that shows it | evidently intended | confidence | as-written member | corrected member |
|---|---|---|---|---|---|---|
| src/BlockStorage.h:183 | `set` guards with `size > blockSize()`, and the guard's body is empty | `set` of `BlockSize - 23` bytes (capacity + 1) passes the guard and its copy runs into the next block's header | reject more than `capacity()` bytes | not executed | BlockLayout.SetGuardAdmitsOverflow | BlockStore.Block.Set |
| src/RecordStorage.h:63-74 | `remainingSize` is never decremented and `nextBlockId` is always 0, so every block gets a chunk of the same size and none is linked, so only the first chunk reads back | any data longer than `BlockSize - 48` bytes: only its first chunk reads back | cut the data into linked chunks that read back whole | not executed | RecordAdd.AddLosesData | RecordChained.AddChainedRoundTrip |
| src/RecordStorage.h:229-230 | the block count is ceil(size / BlockSize), not based on the chunk size | BlockSize ≥ 98 and size = BlockSize + 1: two blocks, and the second chunk is read past the data's end | allocate one block per chunk of record capacity | not executed | RecordAdd.AddOverreads | RecordStore.RecordStorage.AddLinked |
| src/RecordStorage.h:80-83 | size 0 allocates no block, so `blocks[0]` indexes an empty vector | `add(data, 0)` | every record, even an empty one, owns at least one block | not executed | RecordAdd.AddEmptyAllocatesNothing | RecordChained.RecordChunks |
| src/RecordStorage.h:52 | `get` copies the first `size()` payload bytes, which include the 16-byte record header | `add` of "TestString0" then `get`: the result starts with 16 header bytes | return only the record data | not executed | RecordAdd.AddGetsFirstPart | RecordStore.RecordStorage.GetRecord |
