// The intended `add`: the record is split into parts of `recordCapacity()`
// bytes (src/RecordStorage.h:139-142), one fresh block per part and at
// least one block even for an empty record, and every block but the last
// links to the next through `nextBlockId`, so that `findBlocks` collects the
// whole record and its parts concatenate back to the data.

module RecordChained {
  import opened Bytes
  import opened Errors
  import opened BlockLayout
  import opened RecordFormat
  import opened RecordLayout
  import opened RecordAdd

  /** The parts laid end to end. */
  function Concat(parts: seq<seq<Byte>>): seq<Byte>
  {
    if parts == [] then [] else Concat(parts[..|parts| - 1]) + parts[|parts| - 1]
  }

  lemma {:induction false} ConcatFront(first: seq<Byte>, rest: seq<seq<Byte>>)
    ensures Concat([first] + rest) == first + Concat(rest)
    decreases |rest|
  {
    var parts := [first] + rest;
    if rest == [] {
      assert parts[..0] == [];
    } else {
      var front := rest[..|rest| - 1];
      assert parts[..|parts| - 1] == [first] + front;
      assert parts[|parts| - 1] == rest[|rest| - 1];
      ConcatFront(first, front);
      assert Concat(parts) == first + Concat(front) + rest[|rest| - 1];
    }
  }

  /** The parts of `data` with `capacity` bytes each, the last one holding
      what is left: there is always at least one part, every part but the
      last is full, and together they are the data. */
  function RecordChunks(data: seq<Byte>, capacity: nat): (parts: seq<seq<Byte>>)
    requires capacity > 0
    ensures |parts| >= 1 && Concat(parts) == data
    ensures forall k :: 0 <= k < |parts| ==> |parts[k]| <= capacity
    ensures forall k :: 0 <= k < |parts| - 1 ==> |parts[k]| == capacity
    decreases |data|
  {
    if |data| <= capacity then
      assert [data][..0] == [];
      [data]
    else
      var rest := RecordChunks(data[capacity..], capacity);
      ConcatFront(data[..capacity], rest);
      assert data[..capacity] + data[capacity..] == data;
      [data[..capacity]] + rest
  }

  /** The `nextBlockId` the `k`-th of `count` blocks from `start` stores. */
  function ChainedLink(start: nat, k: nat, count: nat): nat
  {
    if k + 1 < count then start + k + 1 else 0
  }

  /** The blocks the intended `add` appends from block `start`. */
  function ChainedBlocks(blockSize: nat, start: nat, parts: seq<seq<Byte>>): (r: seq<BlockView>)
    requires blockSize < U32_MODULUS
    requires forall k :: 0 <= k < |parts| ==> BLOCK_HEADER_SIZE + RECORD_DATA_OFFSET + |parts[k]| <= blockSize
    ensures |r| == |parts|
  {
    seq(|parts|, k requires 0 <= k < |parts| =>
      RecordBlock(blockSize, start + k, ChainedLink(start, k, |parts|), parts[k]))
  }

  /** Block `k` of them holds part `k` and links to block `k + 1`. */
  lemma ChainedBlockAt(blockSize: nat, start: nat, parts: seq<seq<Byte>>, k: nat)
    requires blockSize < U32_MODULUS && k < |parts|
    requires forall j :: 0 <= j < |parts| ==> BLOCK_HEADER_SIZE + RECORD_DATA_OFFSET + |parts[j]| <= blockSize
    ensures ChainedBlocks(blockSize, start, parts)[k] == RecordBlock(blockSize, start + k, ChainedLink(start, k, |parts|), parts[k])
  {
  }

  /** Each appended block links to the one after it, and the last to none. */
  lemma ChainedLinksForward(blockSize: nat, start: nat, parts: seq<seq<Byte>>)
    requires blockSize < U32_MODULUS && start + |parts| < U64_MODULUS
    requires forall k :: 0 <= k < |parts| ==> BLOCK_HEADER_SIZE + RECORD_DATA_OFFSET + |parts[k]| <= blockSize
    ensures var added := ChainedBlocks(blockSize, start, parts);
      forall k :: 0 <= k < |added| ==>
        WellFormedBlock(blockSize, start + k, added[k]) && |added[k].payload| >= RECORD_DATA_OFFSET &&
        NextBlockId(added[k].payload) == ChainedLink(start, k, |parts|) &&
        RecordData(added[k].payload) == Success(parts[k])
  {
    var added := ChainedBlocks(blockSize, start, parts);
    forall k | 0 <= k < |added|
      ensures WellFormedBlock(blockSize, start + k, added[k]) && |added[k].payload| >= RECORD_DATA_OFFSET
      ensures NextBlockId(added[k].payload) == ChainedLink(start, k, |parts|)
      ensures RecordData(added[k].payload) == Success(parts[k])
    {
      ChainedBlockAt(blockSize, start, parts, k);
      RecordBlockFields(blockSize, start + k, ChainedLink(start, k, |parts|), parts[k]);
      ModSmall(ChainedLink(start, k, |parts|));
    }
  }

  /** The parts the intended `add` stores for `data`. */
  function ChainedParts(blockSize: nat, data: seq<Byte>): (parts: seq<seq<Byte>>)
    requires blockSize >= MIN_RECORD_BLOCK_SIZE
    ensures |parts| >= 1 && Concat(parts) == data
    ensures forall k :: 0 <= k < |parts| ==> BLOCK_HEADER_SIZE + RECORD_DATA_OFFSET + |parts[k]| <= blockSize
  {
    var capacity := RecordCapacity(blockSize);
    assert BLOCK_HEADER_SIZE + RECORD_DATA_OFFSET + capacity == blockSize;
    RecordChunks(data, capacity)
  }

  ghost predicate AddChainedPre(blockSize: nat, blocks: seq<BlockView>, data: seq<Byte>)
  {
    ValidRecordLayout(blockSize, blocks) && |blocks| + |ChainedParts(blockSize, data)| < U64_MODULUS
  }

  /** The block list after the intended `add`: the linked blocks appended
      and the record count one higher. It is again a record store. */
  ghost function AddChained(blockSize: nat, blocks: seq<BlockView>, data: seq<Byte>): (r: seq<BlockView>)
    requires AddChainedPre(blockSize, blocks, data)
    ensures |r| == |blocks| + |ChainedParts(blockSize, data)|
  {
    var added := ChainedBlocks(blockSize, |blocks|, ChainedParts(blockSize, data));
    assert (blocks + added)[HEADER_BLOCK] == blocks[HEADER_BLOCK];
    assert WellFormedBlock(blockSize, HEADER_BLOCK, blocks[HEADER_BLOCK]);
    WithRecordCounted(blocks + added)
  }

  /** The block list after the intended `add` is again a record store, with
      every record block of before in place. */
  lemma AddChainedLayout(blockSize: nat, blocks: seq<BlockView>, data: seq<Byte>)
    requires AddChainedPre(blockSize, blocks, data)
    ensures var after := AddChained(blockSize, blocks, data);
      ValidRecordLayout(blockSize, after) && KeepsRecordBlocks(blocks, after)
  {
    var added := ChainedBlocks(blockSize, |blocks|, ChainedParts(blockSize, data));
    ChainedLinksForward(blockSize, |blocks|, ChainedParts(blockSize, data));
    AppendedLayout(blockSize, blocks, added);
  }

  /** Block `j` past the old ones after the intended `add` is the one it
      appended there. */
  lemma AddChainedBlockAt(blockSize: nat, blocks: seq<BlockView>, data: seq<Byte>, j: nat)
    requires AddChainedPre(blockSize, blocks, data)
    requires |blocks| <= j < |blocks| + |ChainedParts(blockSize, data)|
    ensures AddChained(blockSize, blocks, data)[j] ==
      ChainedBlocks(blockSize, |blocks|, ChainedParts(blockSize, data))[j - |blocks|]
  {
    CountedBlockAt(blocks, ChainedBlocks(blockSize, |blocks|, ChainedParts(blockSize, data)), j);
  }

  /** The `k`-th appended block is what `set` leaves in a fresh block given
      the linked record format of the `k`-th part, which fits its payload. */
  lemma ChainedStep(blockSize: nat, start: nat, parts: seq<seq<Byte>>, k: nat)
    requires MIN_RECORD_BLOCK_SIZE <= blockSize < U32_MODULUS && k < |parts|
    requires forall j :: 0 <= j < |parts| ==> BLOCK_HEADER_SIZE + RECORD_DATA_OFFSET + |parts[j]| <= blockSize
    ensures RECORD_DATA_OFFSET + |parts[k]| <= Capacity(blockSize)
    ensures ChainedBlocks(blockSize, start, parts)[k] ==
      AfterSet(FreshBlock(start + k, blockSize), LinkedRecordFormat(ChainedLink(start, k, |parts|), parts[k]))
  {
    ChainedBlockAt(blockSize, start, parts, k);
  }

  /** The blocks the intended `add` appended form the chain `findBlocks`
      walks from the first of them. */
  lemma ChainedIsChain(blockSize: nat, blocks: seq<BlockView>, data: seq<Byte>)
    requires AddChainedPre(blockSize, blocks, data)
    ensures var after := AddChained(blockSize, blocks, data);
      IsChain(after, |blocks|, Consecutive(|blocks|, |ChainedParts(blockSize, data)|))
  {
    var after := AddChained(blockSize, blocks, data);
    var parts := ChainedParts(blockSize, data);
    var added := ChainedBlocks(blockSize, |blocks|, parts);
    var ids := Consecutive(|blocks|, |parts|);
    ChainedLinksForward(blockSize, |blocks|, parts);
    forall k | 0 <= k < |ids|
      ensures ids[k] < |after| && |after[ids[k]].payload| >= RECORD_DATA_OFFSET
    {
      AddChainedBlockAt(blockSize, blocks, data, ids[k]);
    }
    forall k | 1 <= k < |ids|
      ensures ids[k] != 0 && NextBlockId(after[ids[k - 1]].payload) == ids[k]
    {
      AddChainedBlockAt(blockSize, blocks, data, ids[k - 1]);
    }
    AddChainedBlockAt(blockSize, blocks, data, ids[|ids| - 1]);
  }

  /** The chain from the id the intended `add` returns is the appended
      blocks in order. */
  lemma AddChainedChain(blockSize: nat, blocks: seq<BlockView>, data: seq<Byte>)
    requires AddChainedPre(blockSize, blocks, data)
    ensures var after := AddChained(blockSize, blocks, data);
      ValidRecordLayout(blockSize, after) &&
      Chain(after, |blocks|) == Success(Consecutive(|blocks|, |ChainedParts(blockSize, data)|))
  {
    var after := AddChained(blockSize, blocks, data);
    AddChainedLayout(blockSize, blocks, data);
    ChainedIsChain(blockSize, blocks, data);
    ChainComplete(after, |blocks|, Consecutive(|blocks|, |ChainedParts(blockSize, data)|));
  }

  /** Block `k` past the old ones after the intended `add` holds the `k`-th
      part as its record bytes. */
  lemma AddChainedPartAt(blockSize: nat, blocks: seq<BlockView>, data: seq<Byte>, k: nat)
    requires AddChainedPre(blockSize, blocks, data) && k < |ChainedParts(blockSize, data)|
    ensures var after := AddChained(blockSize, blocks, data);
      |blocks| + k < |after| && |after[|blocks| + k].payload| >= RECORD_DATA_OFFSET &&
      RecordData(after[|blocks| + k].payload) == Success(ChainedParts(blockSize, data)[k])
  {
    var parts := ChainedParts(blockSize, data);
    AddChainedBlockAt(blockSize, blocks, data, |blocks| + k);
    ChainedBlockAt(blockSize, |blocks|, parts, k);
    RecordBlockFields(blockSize, |blocks| + k, ChainedLink(|blocks|, k, |parts|), parts[k]);
  }

  /** Consecutive blocks holding the parts in order have the first `n`
      parts laid end to end as the record bytes of the first `n` of them. */
  lemma {:induction false} ConsecutiveBytes(blocks: seq<BlockView>, start: nat, parts: seq<seq<Byte>>, n: nat)
    requires n <= |parts| && start + |parts| <= |blocks|
    requires forall j :: start <= j < start + |parts| ==>
      |blocks[j].payload| >= RECORD_DATA_OFFSET && RecordData(blocks[j].payload) == Success(parts[j - start])
    ensures RecordBytes(blocks, Consecutive(start, n)) == Success(Concat(parts[..n]))
  {
    if n > 0 {
      ConsecutiveBytes(blocks, start, parts, n - 1);
      assert Consecutive(start, n)[..n - 1] == Consecutive(start, n - 1);
      assert parts[..n][..n - 1] == parts[..n - 1];
    }
  }

  /** Blocks appended holding the parts in order have the parts laid end to
      end as their record bytes. */
  lemma AppendedBytes(blocks: seq<BlockView>, added: seq<BlockView>, parts: seq<seq<Byte>>)
    requires |added| == |parts|
    requires forall k :: 0 <= k < |added| ==>
      |added[k].payload| >= RECORD_DATA_OFFSET && RecordData(added[k].payload) == Success(parts[k])
    ensures forall j :: |blocks| <= j < |blocks| + |added| ==> |(blocks + added)[j].payload| >= RECORD_DATA_OFFSET
    ensures RecordBytes(blocks + added, Consecutive(|blocks|, |parts|)) == Success(Concat(parts))
  {
    var grown := blocks + added;
    forall j | |blocks| <= j < |grown|
      ensures |grown[j].payload| >= RECORD_DATA_OFFSET && RecordData(grown[j].payload) == Success(parts[j - |blocks|])
    {
      assert grown[j] == added[j - |blocks|];
    }
    ConsecutiveBytes(grown, |blocks|, parts, |parts|);
    assert parts[..|parts|] == parts;
  }

  /** The same after the record count is bumped. */
  lemma {:induction false} CountedConsecutiveBytes(blocks: seq<BlockView>, added: seq<BlockView>, parts: seq<seq<Byte>>)
    requires |blocks| >= 1 && |blocks[HEADER_BLOCK].payload| >= RECORD_HEADER_SIZE && |added| == |parts|
    requires forall k :: 0 <= k < |added| ==>
      |added[k].payload| >= RECORD_DATA_OFFSET && RecordData(added[k].payload) == Success(parts[k])
    ensures |(blocks + added)[HEADER_BLOCK].payload| >= RECORD_HEADER_SIZE
    ensures var after := WithRecordCounted(blocks + added);
      forall j :: |blocks| <= j < |after| ==> |after[j].payload| >= RECORD_DATA_OFFSET
    ensures RecordBytes(WithRecordCounted(blocks + added), Consecutive(|blocks|, |parts|)) == Success(Concat(parts))
  {
    var grown := blocks + added;
    assert grown[HEADER_BLOCK] == blocks[HEADER_BLOCK];
    AppendedBytes(blocks, added, parts);
    HeaderWriteKeepsBlocks(grown, HEADER_SIZE_OFFSET, RecordCount(grown) + 1);
    RecordBytesFrame(grown, WithRecordCounted(grown), Consecutive(|blocks|, |parts|));
  }

  /** The blocks the intended `add` appended hold the parts of the data in
      order, so their record bytes are the data. */
  lemma AddChainedBytes(blockSize: nat, blocks: seq<BlockView>, data: seq<Byte>)
    requires AddChainedPre(blockSize, blocks, data)
    ensures var after := AddChained(blockSize, blocks, data);
      (forall j :: |blocks| <= j < |after| ==> |after[j].payload| >= RECORD_DATA_OFFSET) &&
      RecordBytes(after, Consecutive(|blocks|, |ChainedParts(blockSize, data)|)) == Success(data)
  {
    var parts := ChainedParts(blockSize, data);
    ChainedLinksForward(blockSize, |blocks|, parts);
    CountedConsecutiveBytes(blocks, ChainedBlocks(blockSize, |blocks|, parts), parts);
  }

  /** Round trip of the intended `add`: the record bytes read back from the
      returned id are the data, of any length, the empty record included. */
  lemma AddChainedRoundTrip(blockSize: nat, blocks: seq<BlockView>, data: seq<Byte>)
    requires AddChainedPre(blockSize, blocks, data)
    ensures var after := AddChained(blockSize, blocks, data);
      ValidRecordLayout(blockSize, after) && GetRecordSpec(after, |blocks|) == Success(data)
  {
    AddChainedChain(blockSize, blocks, data);
    AddChainedBytes(blockSize, blocks, data);
  }

  /** The intended `add` increments the record count by one and leaves the
      other header fields. */
  lemma AddChainedCountsRecord(blockSize: nat, blocks: seq<BlockView>, data: seq<Byte>)
    requires AddChainedPre(blockSize, blocks, data)
    ensures var after := AddChained(blockSize, blocks, data);
      RecordCount(after) == (RecordCount(blocks) + 1) % U64_MODULUS &&
      NumFreeBlocks(after) == NumFreeBlocks(blocks) &&
      FreedBlocksBlockId(after) == FreedBlocksBlockId(blocks)
  {
    RecordCounted(blocks, ChainedBlocks(blockSize, |blocks|, ChainedParts(blockSize, data)));
  }

  /** The intended `add` keeps every record that could be read before. */
  lemma AddChainedKeepsRecords(blockSize: nat, blocks: seq<BlockView>, data: seq<Byte>, id: nat)
    requires AddChainedPre(blockSize, blocks, data) && 1 <= id && Chain(blocks, id).Success?
    ensures var after := AddChained(blockSize, blocks, data);
      ValidRecordLayout(blockSize, after) && GetRecordSpec(after, id) == GetRecordSpec(blocks, id)
  {
    AddChainedLayout(blockSize, blocks, data);
    RecordsKept(blockSize, blocks, AddChained(blockSize, blocks, data), id);
  }
}
