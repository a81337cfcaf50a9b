// What `RecordStorage::add` (src/RecordStorage.h:58-84) and
// `getFreeBlocks` (src/RecordStorage.h:225-239) do to the block list, as
// written, and the chained variant that stores a record of any length.
//
// As written, `add` asks `getFreeBlocks` for `ceil(size / BlockSize)` fresh
// blocks and then, for each of them, copies the same number of bytes: the
// per-block limit `capacity() - sizeof(RecordFormat)` when `remainingSize`
// reaches it, and `remainingSize` otherwise. `remainingSize` is never
// decremented and no block is given a `nextBlockId`, so a record longer than
// the limit keeps only its first part, and `size == 0` allocates no block at
// all. The chained variant splits the record into parts of
// `recordCapacity()` bytes and links each block to the next.

module RecordAdd {
  import opened Bytes
  import opened Errors
  import opened BlockLayout
  import opened RecordFormat
  import opened RecordLayout

  /** `add`'s per-block limit `capacity() - sizeof(RecordFormat)`
      (src/RecordStorage.h:65): 24 bytes of overhead where the record
      header takes 16. */
  function AddBlockLimit(blockSize: nat): (r: nat)
    requires blockSize >= MIN_RECORD_BLOCK_SIZE
    ensures r + RECORD_FORMAT_SIZE == Capacity(blockSize)
    ensures r + (RECORD_FORMAT_SIZE - RECORD_DATA_OFFSET) == RecordCapacity(blockSize)
  {
    Capacity(blockSize) - RECORD_FORMAT_SIZE
  }

  /** The number of blocks `getFreeBlocks(size)` creates
      (src/RecordStorage.h:229-230): the block size, not the record
      capacity, is the divisor. */
  function NumBlocksAsWritten(size: nat, blockSize: nat): nat
    requires blockSize > 0
  {
    size / blockSize + (if size % blockSize == 0 then 0 else 1)
  }

  /** The count is the ceiling of `size / blockSize`: no block at all for an
      empty record, and otherwise the fewest blocks of `blockSize` bytes
      that cover `size` bytes. */
  lemma NumBlocksIsCeiling(size: nat, blockSize: nat)
    requires blockSize > 0
    ensures var m := NumBlocksAsWritten(size, blockSize);
      (m == 0 <==> size == 0) && size <= m * blockSize && (m > 0 ==> (m - 1) * blockSize < size)
  {
    var q, r := size / blockSize, size % blockSize;
    assert size == q * blockSize + r;
    if r != 0 {
      assert (q + 1) * blockSize == q * blockSize + blockSize;
    } else if q > 0 {
      assert (q - 1) * blockSize == q * blockSize - blockSize;
    }
  }

  /** The bytes `add` copies into every one of its blocks: the branch at
      src/RecordStorage.h:66 compares the unchanged `remainingSize` with the
      limit, so each block takes the limit, or the whole record when it is
      shorter. */
  function AddChunkSize(blockSize: nat, size: nat): (r: nat)
    requires blockSize >= MIN_RECORD_BLOCK_SIZE
    ensures r <= size && r <= AddBlockLimit(blockSize)
    ensures r == size <==> size <= AddBlockLimit(blockSize)
  {
    var maxCapacity := AddBlockLimit(blockSize);
    if size >= maxCapacity then maxCapacity else size
  }

  /** `add` reads `AddChunkSize` bytes per block from a caller buffer of
      `size` bytes; past its end the source reads memory it does not own. */
  predicate AddReadsInBounds(blockSize: nat, size: nat)
    requires blockSize >= MIN_RECORD_BLOCK_SIZE
  {
    NumBlocksAsWritten(size, blockSize) * AddChunkSize(blockSize, size) <= size
  }

  /** The record store `add` can run on: the fresh block ids fit a
      `uint64_t` and the copies stay inside the caller's buffer. */
  ghost predicate AddPre(blockSize: nat, blocks: seq<BlockView>, size: nat)
  {
    ValidRecordLayout(blockSize, blocks) && AddReadsInBounds(blockSize, size) &&
    |blocks| + NumBlocksAsWritten(size, blockSize) < U64_MODULUS
  }

  /** The part of the record the `k`-th block of `add` receives. */
  function AddPart(data: seq<Byte>, chunk: nat, k: nat): (r: seq<Byte>)
    requires k * chunk + chunk <= |data|
    ensures |r| == chunk
  {
    data[k * chunk..k * chunk + chunk]
  }

  /** The blocks `add` appends, as written: block `start + k` holds the
      unlinked record format of the `k`-th part. */
  function AddedBlocksAsWritten(blockSize: nat, start: nat, data: seq<Byte>): (r: seq<BlockView>)
    requires MIN_RECORD_BLOCK_SIZE <= blockSize < U32_MODULUS && AddReadsInBounds(blockSize, |data|)
    ensures |r| == NumBlocksAsWritten(|data|, blockSize)
  {
    var m := NumBlocksAsWritten(|data|, blockSize);
    var chunk := AddChunkSize(blockSize, |data|);
    PartsInBounds(m, chunk, |data|);
    seq(m, k requires 0 <= k < m => RecordBlock(blockSize, start + k, 0, AddPart(data, chunk, k)))
  }

  /** Block `k` that `add` appends holds the `k`-th part, which lies in the data. */
  lemma AddedBlockAt(blockSize: nat, start: nat, data: seq<Byte>, k: nat)
    requires MIN_RECORD_BLOCK_SIZE <= blockSize < U32_MODULUS && AddReadsInBounds(blockSize, |data|)
    requires k < NumBlocksAsWritten(|data|, blockSize)
    ensures var chunk := AddChunkSize(blockSize, |data|);
      k * chunk + chunk <= |data| &&
      AddedBlocksAsWritten(blockSize, start, data)[k] == RecordBlock(blockSize, start + k, 0, AddPart(data, chunk, k))
  {
    PartsInBounds(NumBlocksAsWritten(|data|, blockSize), AddChunkSize(blockSize, |data|), |data|);
  }

  /** The `k`-th pass of `add`'s loop: where its part starts, that the
      part lies in the data, and the block it leaves. */
  lemma AddStep(blockSize: nat, start: nat, data: seq<Byte>, k: nat)
    requires MIN_RECORD_BLOCK_SIZE <= blockSize < U32_MODULUS && AddReadsInBounds(blockSize, |data|)
    requires k < NumBlocksAsWritten(|data|, blockSize)
    ensures var chunk := AddChunkSize(blockSize, |data|);
      k * chunk + chunk <= |data| && (k + 1) * chunk == k * chunk + chunk &&
      AddedBlocksAsWritten(blockSize, start, data)[k] ==
        AfterSet(FreshBlock(start + k, blockSize), ToRecordFormat(AddPart(data, chunk, k)))
  {
    var chunk := AddChunkSize(blockSize, |data|);
    AddedBlockAt(blockSize, start, data, k);
    MulDistrib(chunk, k, 1);
    var part := AddPart(data, chunk, k);
    assert RecordBlock(blockSize, start + k, 0, part) == AfterSet(FreshBlock(start + k, blockSize), ToRecordFormat(part));
  }

  /** No block `add` writes links to another. */
  lemma AddedBlocksUnlinked(blockSize: nat, start: nat, data: seq<Byte>)
    requires MIN_RECORD_BLOCK_SIZE <= blockSize < U32_MODULUS && AddReadsInBounds(blockSize, |data|)
    ensures var added := AddedBlocksAsWritten(blockSize, start, data);
      forall k :: 0 <= k < |added| ==>
        WellFormedBlock(blockSize, start + k, added[k]) && |added[k].payload| >= RECORD_DATA_OFFSET &&
        NextBlockId(added[k].payload) == 0
  {
    var added := AddedBlocksAsWritten(blockSize, start, data);
    var chunk := AddChunkSize(blockSize, |data|);
    forall k | 0 <= k < |added|
      ensures WellFormedBlock(blockSize, start + k, added[k]) && |added[k].payload| >= RECORD_DATA_OFFSET
      ensures NextBlockId(added[k].payload) == 0
    {
      AddedBlockAt(blockSize, start, data, k);
      RecordBlockFields(blockSize, start + k, 0, AddPart(data, chunk, k));
    }
  }

  /** `m` parts of `chunk` bytes taken one after the other stay within `n` bytes. */
  lemma PartsInBounds(m: nat, chunk: nat, n: nat)
    requires m * chunk <= n
    ensures forall k :: 0 <= k < m ==> k * chunk + chunk <= n
  {
    forall k | 0 <= k < m ensures k * chunk + chunk <= n {
      MulMonotone(chunk, k + 1, m);
    }
  }

  /** The block list after `add(data, |data|)` as written: the fresh blocks
      `getFreeBlocks` appended, each holding its part, and the record count
      in the header one higher (wrapping at 2^64 as `header->size += 1`
      does). It is again a record store. */
  ghost function AddAsWritten(blockSize: nat, blocks: seq<BlockView>, data: seq<Byte>): (r: seq<BlockView>)
    requires AddPre(blockSize, blocks, |data|)
    ensures |r| == |blocks| + NumBlocksAsWritten(|data|, blockSize)
  {
    var added := AddedBlocksAsWritten(blockSize, |blocks|, data);
    assert (blocks + added)[HEADER_BLOCK] == blocks[HEADER_BLOCK];
    assert WellFormedBlock(blockSize, HEADER_BLOCK, blocks[HEADER_BLOCK]);
    WithRecordCounted(blocks + added)
  }

  /** The block list after `add` is again a record store, with every
      record block of before in place. */
  lemma AddAsWrittenLayout(blockSize: nat, blocks: seq<BlockView>, data: seq<Byte>)
    requires AddPre(blockSize, blocks, |data|)
    ensures var after := AddAsWritten(blockSize, blocks, data);
      ValidRecordLayout(blockSize, after) && KeepsRecordBlocks(blocks, after)
  {
    var added := AddedBlocksAsWritten(blockSize, |blocks|, data);
    AddedBlocksUnlinked(blockSize, |blocks|, data);
    AppendedLayout(blockSize, blocks, added);
  }

  /** Block `j` past the old ones after `add` is the one it appended there. */
  lemma AddAsWrittenBlockAt(blockSize: nat, blocks: seq<BlockView>, data: seq<Byte>, j: nat)
    requires AddPre(blockSize, blocks, |data|)
    requires |blocks| <= j < |blocks| + NumBlocksAsWritten(|data|, blockSize)
    ensures AddAsWritten(blockSize, blocks, data)[j] == AddedBlocksAsWritten(blockSize, |blocks|, data)[j - |blocks|]
  {
    CountedBlockAt(blocks, AddedBlocksAsWritten(blockSize, |blocks|, data), j);
  }

  /** Appending well-formed blocks whose links point forward keeps the
      record layout and every record block, and so does bumping the record
      count afterwards. */
  lemma AppendedLayout(blockSize: nat, blocks: seq<BlockView>, added: seq<BlockView>)
    requires ValidRecordLayout(blockSize, blocks) && |blocks| + |added| < U64_MODULUS
    requires forall k :: 0 <= k < |added| ==>
      WellFormedBlock(blockSize, |blocks| + k, added[k]) && |added[k].payload| >= RECORD_DATA_OFFSET &&
      (NextBlockId(added[k].payload) == 0 || NextBlockId(added[k].payload) > |blocks| + k)
    ensures ValidRecordLayout(blockSize, blocks + added) && KeepsRecordBlocks(blocks, blocks + added)
    ensures |(blocks + added)[HEADER_BLOCK].payload| >= RECORD_HEADER_SIZE &&
      RecordCount(blocks + added) == RecordCount(blocks)
    ensures var after := WithRecordCounted(blocks + added);
      ValidRecordLayout(blockSize, after) && KeepsRecordBlocks(blocks, after)
  {
    var grown := blocks + added;
    forall j | 0 <= j < |grown|
      ensures WellFormedBlock(blockSize, j, grown[j])
      ensures |grown[j].payload| >= RECORD_DATA_OFFSET &&
        (NextBlockId(grown[j].payload) == 0 || NextBlockId(grown[j].payload) > j)
    {
      if j >= |blocks| {
        assert grown[j] == added[j - |blocks|];
      }
    }
    assert grown[HEADER_BLOCK] == blocks[HEADER_BLOCK];
    HeaderWriteKeepsLayout(blockSize, grown, HEADER_SIZE_OFFSET, RecordCount(grown) + 1);
  }

  /** `add` increments the record count by one (modulo 2^64, as the
      `uint64_t` field does) and leaves the other two header fields. */
  lemma AddCountsRecord(blockSize: nat, blocks: seq<BlockView>, data: seq<Byte>)
    requires AddPre(blockSize, blocks, |data|)
    ensures var after := AddAsWritten(blockSize, blocks, data);
      RecordCount(after) == (RecordCount(blocks) + 1) % U64_MODULUS &&
      NumFreeBlocks(after) == NumFreeBlocks(blocks) &&
      FreedBlocksBlockId(after) == FreedBlocksBlockId(blocks)
  {
    RecordCounted(blocks, AddedBlocksAsWritten(blockSize, |blocks|, data));
  }

  /** `add` keeps every record that could be read before. */
  lemma AddKeepsRecords(blockSize: nat, blocks: seq<BlockView>, data: seq<Byte>, id: nat)
    requires AddPre(blockSize, blocks, |data|) && 1 <= id && Chain(blocks, id).Success?
    ensures var after := AddAsWritten(blockSize, blocks, data);
      ValidRecordLayout(blockSize, after) &&
      GetSpec(blockSize, after, id) == GetSpec(blockSize, blocks, id) &&
      GetRecordSpec(after, id) == GetRecordSpec(blocks, id)
  {
    AddAsWrittenLayout(blockSize, blocks, data);
    RecordsKept(blockSize, blocks, AddAsWritten(blockSize, blocks, data), id);
  }

  /** Each block `add` writes is a record of its own: its chain is the block
      alone, and it holds its part of the data. */
  lemma {:induction false} AddLeavesBlocksUnlinked(blockSize: nat, blocks: seq<BlockView>, data: seq<Byte>, k: nat)
    requires AddPre(blockSize, blocks, |data|) && k < NumBlocksAsWritten(|data|, blockSize)
    ensures ValidRecordLayout(blockSize, AddAsWritten(blockSize, blocks, data))
    ensures NextBlockId(AddAsWritten(blockSize, blocks, data)[|blocks| + k].payload) == 0
    ensures Chain(AddAsWritten(blockSize, blocks, data), |blocks| + k) == Success([|blocks| + k])
    ensures var chunk := AddChunkSize(blockSize, |data|);
      k * chunk + chunk <= |data| &&
      GetSpec(blockSize, AddAsWritten(blockSize, blocks, data), |blocks| + k) ==
        Success(ToRecordFormat(AddPart(data, chunk, k))) &&
      GetRecordSpec(AddAsWritten(blockSize, blocks, data), |blocks| + k) == Success(AddPart(data, chunk, k))
  {
    var chunk := AddChunkSize(blockSize, |data|);
    AddWritesPart(blockSize, blocks, data, k);
    RecordBlockFields(blockSize, |blocks| + k, 0, AddPart(data, chunk, k));
    AddAsWrittenLayout(blockSize, blocks, data);
    UnlinkedRecordBlock(blockSize, AddAsWritten(blockSize, blocks, data), |blocks| + k, AddPart(data, chunk, k));
  }

  /** Block `k` past the old ones after `add` holds the `k`-th part without a link. */
  lemma AddWritesPart(blockSize: nat, blocks: seq<BlockView>, data: seq<Byte>, k: nat)
    requires AddPre(blockSize, blocks, |data|) && k < NumBlocksAsWritten(|data|, blockSize)
    ensures var chunk := AddChunkSize(blockSize, |data|);
      k * chunk + chunk <= |data| &&
      AddAsWritten(blockSize, blocks, data)[|blocks| + k] == RecordBlock(blockSize, |blocks| + k, 0, AddPart(data, chunk, k))
  {
    AddedBlockAt(blockSize, |blocks|, data, k);
    AddAsWrittenBlockAt(blockSize, blocks, data, |blocks| + k);
  }

  /** The first block `add` writes holds the first `AddChunkSize` bytes of
      the data and no link. */
  lemma AddFirstBlock(blockSize: nat, blocks: seq<BlockView>, data: seq<Byte>)
    requires AddPre(blockSize, blocks, |data|) && |data| > 0
    ensures var after := AddAsWritten(blockSize, blocks, data);
      var chunk := AddChunkSize(blockSize, |data|);
      ValidRecordLayout(blockSize, after) && |blocks| < |after| &&
      after[|blocks|] == RecordBlock(blockSize, |blocks|, 0, data[..chunk]) &&
      NextBlockId(after[|blocks|].payload) == 0
  {
    NumBlocksIsCeiling(|data|, blockSize);
    var chunk := AddChunkSize(blockSize, |data|);
    AddWritesPart(blockSize, blocks, data, 0);
    assert AddPart(data, chunk, 0) == data[..chunk];
    RecordBlockFields(blockSize, |blocks|, 0, data[..chunk]);
    AddAsWrittenLayout(blockSize, blocks, data);
  }

  /** The record `add` returns keeps only the first part of the data: all of
      it when it fits one block's limit, and the first `AddBlockLimit` bytes
      otherwise, however many blocks were allocated. */
  lemma AddStoresFirstPart(blockSize: nat, blocks: seq<BlockView>, data: seq<Byte>)
    requires AddPre(blockSize, blocks, |data|) && |data| > 0
    ensures var after := AddAsWritten(blockSize, blocks, data);
      ValidRecordLayout(blockSize, after) &&
      GetRecordSpec(after, |blocks|) == Success(data[..AddChunkSize(blockSize, |data|)])
  {
    var chunk := AddChunkSize(blockSize, |data|);
    AddFirstBlock(blockSize, blocks, data);
    UnlinkedRecordBlock(blockSize, AddAsWritten(blockSize, blocks, data), |blocks|, data[..chunk]);
  }

  /** `get` as written returns that first part behind its 16-byte record
      header. */
  lemma AddGetsFirstPart(blockSize: nat, blocks: seq<BlockView>, data: seq<Byte>)
    requires AddPre(blockSize, blocks, |data|) && |data| > 0
    ensures var after := AddAsWritten(blockSize, blocks, data);
      ValidRecordLayout(blockSize, after) &&
      GetSpec(blockSize, after, |blocks|) == Success(ToRecordFormat(data[..AddChunkSize(blockSize, |data|)]))
  {
    var chunk := AddChunkSize(blockSize, |data|);
    AddFirstBlock(blockSize, blocks, data);
    UnlinkedRecordBlock(blockSize, AddAsWritten(blockSize, blocks, data), |blocks|, data[..chunk]);
  }

  /** Round trip for a record within one block's limit: the record bytes read
      back are the data, and `get` as written returns the data behind the
      record header. */
  lemma AddRoundTrip(blockSize: nat, blocks: seq<BlockView>, data: seq<Byte>)
    requires AddPre(blockSize, blocks, |data|) && 0 < |data| <= AddBlockLimit(blockSize)
    ensures ValidRecordLayout(blockSize, AddAsWritten(blockSize, blocks, data))
    ensures GetRecordSpec(AddAsWritten(blockSize, blocks, data), |blocks|) == Success(data)
    ensures GetSpec(blockSize, AddAsWritten(blockSize, blocks, data), |blocks|) == Success(ToRecordFormat(data))
  {
    AddStoresFirstPart(blockSize, blocks, data);
    AddGetsFirstPart(blockSize, blocks, data);
    assert data[..|data|] == data;
  }

  /** A record longer than one block's limit does not read back. */
  lemma AddLosesData(blockSize: nat, blocks: seq<BlockView>, data: seq<Byte>)
    requires AddPre(blockSize, blocks, |data|) && |data| > AddBlockLimit(blockSize)
    ensures ValidRecordLayout(blockSize, AddAsWritten(blockSize, blocks, data))
    ensures GetRecordSpec(AddAsWritten(blockSize, blocks, data), |blocks|) != Success(data)
  {
    AddStoresFirstPart(blockSize, blocks, data);
  }

  /** An empty record gets no block: `blocks[0]` at src/RecordStorage.h:83
      then names no block. */
  lemma AddEmptyAllocatesNothing(blockSize: nat, blocks: seq<BlockView>)
    requires AddPre(blockSize, blocks, 0)
    ensures NumBlocksAsWritten(0, blockSize) == 0
    ensures AddAsWritten(blockSize, blocks, []) == WithRecordCounted(blocks)
  {
    assert blocks + AddedBlocksAsWritten(blockSize, |blocks|, []) == blocks;
  }

  /** With a block size of 98 or more, a record one byte longer than a block
      gets two blocks of `AddBlockLimit` bytes each, which is more than the
      record holds: the second copy reads past the caller's buffer. */
  lemma AddOverreads(blockSize: nat)
    requires blockSize >= 98
    ensures !AddReadsInBounds(blockSize, blockSize + 1)
  {
    var size := blockSize + 1;
    assert size / blockSize == 1 && size % blockSize == 1 by {
      DivModUnique(size, blockSize, 1, 1);
    }
    assert NumBlocksAsWritten(size, blockSize) == 2;
  }
}
