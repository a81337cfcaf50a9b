// The record layer's view of a block list (src/RecordStorage.h): block 0
// holds the record store header, every other block the part of a record
// that `RecordFormat` describes, and the blocks of one record are linked
// through `nextBlockId`.
//
//   block 0 payload:  offset 0   size                 number of records
//                     offset 8   numFreeBlocks
//                     offset 16  freedBlocksBlockId   the free-space registry, 0 for none

module RecordLayout {
  import opened Bytes
  import opened Errors
  import opened BlockLayout
  import opened RecordFormat

  /** `HEADER_BLOCK` (src/RecordStorage.h:99). */
  const HEADER_BLOCK: nat := 0
  /** `kInvalidRecordId` (src/RecordStorage.h:10-11). */
  const INVALID_RECORD_ID: nat := 0

  const HEADER_SIZE_OFFSET: nat := 0
  const HEADER_NUM_FREE_BLOCKS_OFFSET: nat := 8
  const HEADER_FREED_BLOCKS_BLOCK_ID_OFFSET: nat := 16
  /** `sizeof(Header)` of the record store (src/RecordStorage.h:103-108). */
  const RECORD_HEADER_SIZE: nat := 24

  /** The smallest block size for which the record header fits in block 0
      and `add`'s per-block limit `capacity() - sizeof(RecordFormat)` does not
      wrap below zero. */
  const MIN_RECORD_BLOCK_SIZE: nat := 48

  /** Every block carries a record header, and every link points to a later
      block. This is what makes the walk of `findBlocks` end: the store only
      ever links a block to one appended after it. */
  ghost predicate ForwardLinks(blocks: seq<BlockView>)
  {
    forall i :: 0 <= i < |blocks| ==>
      |blocks[i].payload| >= RECORD_DATA_OFFSET &&
      (NextBlockId(blocks[i].payload) == 0 || NextBlockId(blocks[i].payload) > i)
  }

  /** The block list of a record store: a block store whose blocks can hold
      the record header, with the header block present and links forward. */
  ghost predicate ValidRecordLayout(blockSize: nat, blocks: seq<BlockView>)
  {
    WellFormed(blockSize, blocks) && MIN_RECORD_BLOCK_SIZE <= blockSize < U32_MODULUS &&
    |blocks| >= 1 && ForwardLinks(blocks)
  }

  /** A field of the record store header in block 0. */
  function HeaderField(blocks: seq<BlockView>, offset: nat): nat
    requires |blocks| >= 1 && |blocks[HEADER_BLOCK].payload| >= RECORD_HEADER_SIZE
    requires offset + U64_SIZE <= RECORD_HEADER_SIZE
  {
    DecodeU64(blocks[HEADER_BLOCK].payload[offset..offset + U64_SIZE])
  }

  /** `Header::size`: the number of records added. */
  function RecordCount(blocks: seq<BlockView>): nat
    requires |blocks| >= 1 && |blocks[HEADER_BLOCK].payload| >= RECORD_HEADER_SIZE
  {
    HeaderField(blocks, HEADER_SIZE_OFFSET)
  }

  /** `Header::freedBlocksBlockId`: the block of the free-space registry, 0 while there is none. */
  function FreedBlocksBlockId(blocks: seq<BlockView>): nat
    requires |blocks| >= 1 && |blocks[HEADER_BLOCK].payload| >= RECORD_HEADER_SIZE
  {
    HeaderField(blocks, HEADER_FREED_BLOCKS_BLOCK_ID_OFFSET)
  }

  /** `Header::numFreeBlocks`. */
  function NumFreeBlocks(blocks: seq<BlockView>): nat
    requires |blocks| >= 1 && |blocks[HEADER_BLOCK].payload| >= RECORD_HEADER_SIZE
  {
    HeaderField(blocks, HEADER_NUM_FREE_BLOCKS_OFFSET)
  }

  /** The blocks after the assignment of `v` to the header field at
      `offset` through `getHeader()`: a `uint64_t` store into block 0. */
  function WithHeaderField(blocks: seq<BlockView>, offset: nat, v: nat): (r: seq<BlockView>)
    requires |blocks| >= 1 && |blocks[HEADER_BLOCK].payload| >= RECORD_HEADER_SIZE
    requires offset + U64_SIZE <= RECORD_HEADER_SIZE
    ensures |r| == |blocks| && |r[HEADER_BLOCK].payload| == |blocks[HEADER_BLOCK].payload|
  {
    blocks[HEADER_BLOCK := AfterWrite(blocks[HEADER_BLOCK], offset, EncodeU64(v))]
  }

  /** `header->size += 1`: the record count stored one higher. */
  function WithRecordCounted(blocks: seq<BlockView>): (r: seq<BlockView>)
    requires |blocks| >= 1 && |blocks[HEADER_BLOCK].payload| >= RECORD_HEADER_SIZE
    ensures |r| == |blocks| && |r[HEADER_BLOCK].payload| == |blocks[HEADER_BLOCK].payload|
  {
    WithHeaderField(blocks, HEADER_SIZE_OFFSET, RecordCount(blocks) + 1)
  }

  /** `header->size += 1` is the write of the count read from the header plus one. */
  lemma RecordCountedIsWrite(blocks: seq<BlockView>, count: nat)
    requires |blocks| >= 1 && |blocks[HEADER_BLOCK].payload| >= RECORD_HEADER_SIZE
    requires count == DecodeU64(blocks[HEADER_BLOCK].payload[HEADER_SIZE_OFFSET..HEADER_SIZE_OFFSET + U64_SIZE])
    ensures WithRecordCounted(blocks) ==
      blocks[HEADER_BLOCK := AfterWrite(blocks[HEADER_BLOCK], HEADER_SIZE_OFFSET, EncodeU64(count + 1))]
  {
  }

  /** The header field written reads back as the value wrapped to 64 bits;
      the other two header fields and every other block are unchanged. */
  lemma HeaderFieldWritten(blocks: seq<BlockView>, offset: nat, v: nat, other: nat)
    requires |blocks| >= 1 && |blocks[HEADER_BLOCK].payload| >= RECORD_HEADER_SIZE
    requires offset + U64_SIZE <= RECORD_HEADER_SIZE && other + U64_SIZE <= RECORD_HEADER_SIZE
    requires other + U64_SIZE <= offset || offset + U64_SIZE <= other
    ensures HeaderField(WithHeaderField(blocks, offset, v), offset) == v % U64_MODULUS
    ensures HeaderField(WithHeaderField(blocks, offset, v), other) == HeaderField(blocks, other)
    ensures WithHeaderField(blocks, offset, v)[1..] == blocks[1..]
  {
    var r := WithHeaderField(blocks, offset, v);
    DecodeEncodeU64(v);
    assert r[HEADER_BLOCK].payload[other..other + U64_SIZE] == blocks[HEADER_BLOCK].payload[other..other + U64_SIZE];
  }

  /** Appending blocks and then incrementing `size` raises the record count
      by one, modulo 2^64, and leaves the other two header fields. */
  lemma RecordCounted(blocks: seq<BlockView>, added: seq<BlockView>)
    requires |blocks| >= 1 && |blocks[HEADER_BLOCK].payload| >= RECORD_HEADER_SIZE
    ensures |(blocks + added)[HEADER_BLOCK].payload| >= RECORD_HEADER_SIZE
    ensures var after := WithRecordCounted(blocks + added);
      RecordCount(after) == (RecordCount(blocks) + 1) % U64_MODULUS &&
      NumFreeBlocks(after) == NumFreeBlocks(blocks) &&
      FreedBlocksBlockId(after) == FreedBlocksBlockId(blocks)
  {
    var grown := blocks + added;
    assert grown[HEADER_BLOCK] == blocks[HEADER_BLOCK];
    var v := RecordCount(grown) + 1;
    var after := WithHeaderField(grown, HEADER_SIZE_OFFSET, v);
    assert WithRecordCounted(grown) == after;
    HeaderFieldWritten(grown, HEADER_SIZE_OFFSET, v, HEADER_NUM_FREE_BLOCKS_OFFSET);
    HeaderFieldWritten(grown, HEADER_SIZE_OFFSET, v, HEADER_FREED_BLOCKS_BLOCK_ID_OFFSET);
    assert NumFreeBlocks(after) == HeaderField(grown, HEADER_NUM_FREE_BLOCKS_OFFSET);
    assert FreedBlocksBlockId(after) == HeaderField(grown, HEADER_FREED_BLOCKS_BLOCK_ID_OFFSET);
  }

  /** Incrementing `size` after appending blocks leaves the appended blocks. */
  lemma CountedBlockAt(blocks: seq<BlockView>, added: seq<BlockView>, j: nat)
    requires |blocks| >= 1 && |blocks[HEADER_BLOCK].payload| >= RECORD_HEADER_SIZE
    requires |blocks| <= j < |blocks| + |added|
    ensures |(blocks + added)[HEADER_BLOCK].payload| >= RECORD_HEADER_SIZE
    ensures WithRecordCounted(blocks + added)[j] == added[j - |blocks|]
  {
    assert (blocks + added)[HEADER_BLOCK] == blocks[HEADER_BLOCK];
    assert (blocks + added)[j] == added[j - |blocks|];
  }

  /** Decrementing `numFreeBlocks` takes 0 to 2^64 - 1 and leaves the other
      two header fields. */
  lemma NumFreeDecremented(blocks: seq<BlockView>)
    requires |blocks| >= 1 && |blocks[HEADER_BLOCK].payload| >= RECORD_HEADER_SIZE
    ensures var n := NumFreeBlocks(blocks);
      var after := WithHeaderField(blocks, HEADER_NUM_FREE_BLOCKS_OFFSET, DecrementU64(n));
      NumFreeBlocks(after) == (if n == 0 then U64_MODULUS - 1 else n - 1) &&
      RecordCount(after) == RecordCount(blocks) &&
      FreedBlocksBlockId(after) == FreedBlocksBlockId(blocks)
  {
    var v := DecrementU64(NumFreeBlocks(blocks));
    HeaderFieldWritten(blocks, HEADER_NUM_FREE_BLOCKS_OFFSET, v, HEADER_SIZE_OFFSET);
    HeaderFieldWritten(blocks, HEADER_NUM_FREE_BLOCKS_OFFSET, v, HEADER_FREED_BLOCKS_BLOCK_ID_OFFSET);
    ModSmall(v);
  }

  function Prepend(ids: seq<nat>, r: Result<seq<nat>>): (s: Result<seq<nat>>)
    ensures s.Success? <==> r.Success?
    ensures s.Failure? ==> s == r
  {
    if r.Success? then Success(ids + r.value) else r
  }

  /** The blocks `findBlocks(id)` (src/RecordStorage.h:158-172) collects:
      `id`, then the block each one links to, up to the first link 0. A block
      id at or beyond the block count is the error `at` leaves as a TODO. */
  function Chain(blocks: seq<BlockView>, id: nat): (r: Result<seq<nat>>)
    requires ForwardLinks(blocks)
    ensures r.Failure? ==> r.error == OutOfBounds
    ensures r.Success? ==> |r.value| >= 1 && r.value[0] == id
    decreases |blocks| - id
  {
    if id >= |blocks| then Failure(OutOfBounds)
    else
      var next := NextBlockId(blocks[id].payload);
      if next == 0 then Success([id])
      else Prepend([id], Chain(blocks, next))
  }

  lemma PrependNothing(r: Result<seq<nat>>)
    ensures Prepend([], r) == r
  {
    if r.Success? {
      assert [] + r.value == r.value;
    }
  }

  /** One step of the walk of `findBlocks`: the chain from a linked block is
      the block followed by the chain from its link. */
  lemma ChainStep(blocks: seq<BlockView>, walked: seq<nat>, id: nat)
    requires ForwardLinks(blocks) && id < |blocks| && HasNextBlockId(blocks[id].payload)
    ensures Prepend(walked, Chain(blocks, id)) ==
      Prepend(walked + [id], Chain(blocks, NextBlockId(blocks[id].payload)))
  {
    var rest := Chain(blocks, NextBlockId(blocks[id].payload));
    if rest.Success? {
      assert walked + ([id] + rest.value) == walked + [id] + rest.value;
    }
  }

  /** The walk ends at the first block without a link. */
  lemma ChainStop(blocks: seq<BlockView>, walked: seq<nat>, id: nat)
    requires ForwardLinks(blocks) && id < |blocks| && !HasNextBlockId(blocks[id].payload)
    ensures Prepend(walked, Chain(blocks, id)) == Success(walked + [id])
  {
  }

  /** What a list of block ids must be to be the chain from `id`: it starts at
      `id`, stays inside the store, follows each nonzero link, and ends at the
      first block without one. */
  ghost predicate IsChain(blocks: seq<BlockView>, id: nat, ids: seq<nat>)
  {
    |ids| >= 1 && ids[0] == id &&
    (forall k :: 0 <= k < |ids| ==> ids[k] < |blocks| && |blocks[ids[k]].payload| >= RECORD_DATA_OFFSET) &&
    (forall k :: 1 <= k < |ids| ==> ids[k] != 0 && NextBlockId(blocks[ids[k - 1]].payload) == ids[k]) &&
    NextBlockId(blocks[ids[|ids| - 1]].payload) == 0
  }

  /** A block that links to the start of a chain extends it at the front. */
  lemma ChainCons(blocks: seq<BlockView>, id: nat, rest: seq<nat>)
    requires id < |blocks| && |blocks[id].payload| >= RECORD_DATA_OFFSET
    requires NextBlockId(blocks[id].payload) != 0 && IsChain(blocks, NextBlockId(blocks[id].payload), rest)
    ensures IsChain(blocks, id, [id] + rest)
  {
    var ids := [id] + rest;
    forall k | 1 <= k < |ids|
      ensures ids[k] != 0 && NextBlockId(blocks[ids[k - 1]].payload) == ids[k]
    {
      if k > 1 {
        assert ids[k - 1] == rest[k - 2] && ids[k] == rest[k - 1];
      }
    }
    assert ids[|ids| - 1] == rest[|rest| - 1];
  }

  /** Dropping the first block of a chain of two or more leaves the chain
      from the block it links to. */
  lemma ChainTail(blocks: seq<BlockView>, id: nat, ids: seq<nat>)
    requires IsChain(blocks, id, ids) && |ids| > 1
    ensures NextBlockId(blocks[id].payload) == ids[1] != 0
    ensures IsChain(blocks, ids[1], ids[1..])
  {
    var rest := ids[1..];
    forall k | 1 <= k < |rest|
      ensures rest[k] != 0 && NextBlockId(blocks[rest[k - 1]].payload) == rest[k]
    {
      assert rest[k - 1] == ids[k] && rest[k] == ids[k + 1];
    }
    assert rest[|rest| - 1] == ids[|ids| - 1];
  }

  /** Every chain `Chain` returns satisfies `IsChain`. */
  lemma {:induction false} ChainSound(blocks: seq<BlockView>, id: nat)
    requires ForwardLinks(blocks)
    ensures Chain(blocks, id).Success? ==> IsChain(blocks, id, Chain(blocks, id).value)
    decreases |blocks| - id
  {
    if id < |blocks| {
      var next := NextBlockId(blocks[id].payload);
      if next != 0 && Chain(blocks, next).Success? {
        ChainSound(blocks, next);
        ChainCons(blocks, id, Chain(blocks, next).value);
      }
    }
  }

  /** Every list satisfying `IsChain` is the one `Chain` returns. */
  lemma {:induction false} ChainComplete(blocks: seq<BlockView>, id: nat, ids: seq<nat>)
    requires ForwardLinks(blocks) && IsChain(blocks, id, ids)
    ensures Chain(blocks, id) == Success(ids)
    decreases |blocks| - id
  {
    if |ids| == 1 {
      assert ids == [id];
    } else {
      ChainTail(blocks, id, ids);
      ChainComplete(blocks, ids[1], ids[1..]);
      assert ids == [id] + ids[1..];
    }
  }

  /** `Chain` and `IsChain` agree in both directions. */
  lemma ChainIsChain(blocks: seq<BlockView>, id: nat, ids: seq<nat>)
    requires ForwardLinks(blocks)
    ensures Chain(blocks, id) == Success(ids) <==> IsChain(blocks, id, ids)
  {
    ChainSound(blocks, id);
    if IsChain(blocks, id, ids) {
      ChainComplete(blocks, id, ids);
    }
  }

  /** The bytes `get` (src/RecordStorage.h:46-56) concatenates: for each block
      of the chain, the first `size()` bytes of its payload. */
  function Gather(blocks: seq<BlockView>, ids: seq<nat>): seq<Byte>
    requires forall k :: 0 <= k < |ids| ==> ids[k] < |blocks| && blocks[ids[k]].size <= |blocks[ids[k]].payload|
  {
    if ids == [] then []
    else
      var last := blocks[ids[|ids| - 1]];
      Gather(blocks, ids[..|ids| - 1]) + last.payload[..last.size]
  }

  /** What `get(id)` returns as written. */
  function GetSpec(blockSize: nat, blocks: seq<BlockView>, id: nat): (r: Result<seq<Byte>>)
    requires ValidRecordLayout(blockSize, blocks)
    ensures r.Success? <==> Chain(blocks, id).Success?
    ensures r.Failure? ==> r.error == OutOfBounds
  {
    match Chain(blocks, id)
    case Failure(e) => Failure(e)
    case Success(ids) =>
      ChainIsChain(blocks, id, ids);
      assert forall k :: 0 <= k < |ids| ==> WellFormedBlock(blockSize, ids[k], blocks[ids[k]]);
      Success(Gather(blocks, ids))
  }

  /** The record bytes of a chain: the `recordData` of each block in turn. */
  function RecordBytes(blocks: seq<BlockView>, ids: seq<nat>): (r: Result<seq<Byte>>)
    requires forall k :: 0 <= k < |ids| ==> ids[k] < |blocks| && |blocks[ids[k]].payload| >= RECORD_DATA_OFFSET
    ensures r.Failure? ==> r.error == InvalidArgument
  {
    if ids == [] then Success([])
    else
      match RecordBytes(blocks, ids[..|ids| - 1])
      case Failure(e) => Failure(e)
      case Success(front) =>
        match RecordData(blocks[ids[|ids| - 1]].payload)
        case Failure(e) => Failure(e)
        case Success(part) => Success(front + part)
  }

  /** Every block of a chain lies in the store and holds a size that fits its payload. */
  lemma ChainBlocksFit(blockSize: nat, blocks: seq<BlockView>, id: nat, ids: seq<nat>)
    requires ValidRecordLayout(blockSize, blocks) && IsChain(blocks, id, ids)
    ensures forall k :: 0 <= k < |ids| ==> ids[k] < |blocks| && blocks[ids[k]].size <= |blocks[ids[k]].payload|
  {
    assert forall k :: 0 <= k < |ids| ==> WellFormedBlock(blockSize, ids[k], blocks[ids[k]]);
  }

  /** `get`'s loop appends the bytes of one more block of the chain. */
  lemma GatherStep(blocks: seq<BlockView>, ids: seq<nat>, i: nat)
    requires i < |ids|
    requires forall k :: 0 <= k < |ids| ==> ids[k] < |blocks| && blocks[ids[k]].size <= |blocks[ids[k]].payload|
    ensures Gather(blocks, ids[..i + 1]) == Gather(blocks, ids[..i]) + blocks[ids[i]].payload[..blocks[ids[i]].size]
  {
    assert ids[..i + 1][..i] == ids[..i];
  }

  /** The record bytes of one more block of the chain: its `recordData`
      appended, or its error. */
  lemma RecordBytesStep(blocks: seq<BlockView>, ids: seq<nat>, i: nat, front: seq<Byte>)
    requires i < |ids|
    requires forall k :: 0 <= k < |ids| ==> ids[k] < |blocks| && |blocks[ids[k]].payload| >= RECORD_DATA_OFFSET
    requires RecordBytes(blocks, ids[..i]) == Success(front)
    ensures var part := RecordData(blocks[ids[i]].payload);
      RecordBytes(blocks, ids[..i + 1]) == if part.Success? then Success(front + part.value) else Failure(part.error)
  {
    assert ids[..i + 1][..i] == ids[..i];
  }

  /** Once the record bytes of the first `j` blocks of a chain fail, those
      of the whole chain fail with the same error. */
  lemma {:induction false} RecordBytesFailure(blocks: seq<BlockView>, ids: seq<nat>, j: nat)
    requires j <= |ids|
    requires forall k :: 0 <= k < |ids| ==> ids[k] < |blocks| && |blocks[ids[k]].payload| >= RECORD_DATA_OFFSET
    requires RecordBytes(blocks, ids[..j]).Failure?
    ensures RecordBytes(blocks, ids) == RecordBytes(blocks, ids[..j])
    decreases |ids| - j
  {
    if j < |ids| {
      var front := ids[..|ids| - 1];
      assert front[..j] == ids[..j];
      RecordBytesFailure(blocks, front, j);
    } else {
      assert ids[..j] == ids;
    }
  }

  /** What `get(id)` is meant to return: the record bytes without the
      per-block record headers. */
  function GetRecordSpec(blocks: seq<BlockView>, id: nat): (r: Result<seq<Byte>>)
    requires ForwardLinks(blocks)
    ensures Chain(blocks, id).Failure? ==> r == Failure(OutOfBounds)
    ensures Chain(blocks, id).Success? && r.Failure? ==> r.error == InvalidArgument
  {
    match Chain(blocks, id)
    case Failure(e) => Failure(e)
    case Success(ids) =>
      ChainIsChain(blocks, id, ids);
      RecordBytes(blocks, ids)
  }

  /** A fresh block after `set` stored a record part linking to `next` in it. */
  function RecordBlock(blockSize: nat, id: nat, next: nat, part: seq<Byte>): (b: BlockView)
    requires BLOCK_HEADER_SIZE + RECORD_DATA_OFFSET + |part| <= blockSize < U32_MODULUS
    ensures WellFormedBlock(blockSize, id, b) && b.size == RECORD_DATA_OFFSET + |part|
  {
    AfterSet(FreshBlock(id, blockSize), LinkedRecordFormat(next, part))
  }

  /** The record fields of such a block read back as stored, and its first
      `size()` bytes are the record part as `set` was given it. */
  lemma RecordBlockFields(blockSize: nat, id: nat, next: nat, part: seq<Byte>)
    requires BLOCK_HEADER_SIZE + RECORD_DATA_OFFSET + |part| <= blockSize < U32_MODULUS
    ensures var b := RecordBlock(blockSize, id, next, part);
      NextBlockId(b.payload) == next % U64_MODULUS && RecordData(b.payload) == Success(part) &&
      b.payload[..b.size] == LinkedRecordFormat(next, part)
  {
    var record := LinkedRecordFormat(next, part);
    LinkedRecordFormatFields(next, part);
    RecordPrefix(RecordBlock(blockSize, id, next, part).payload, record);
  }

  /** A record block stored without a link is a record of its own: `get`
      returns its record format and the record bytes are its part. */
  lemma UnlinkedRecordBlock(blockSize: nat, blocks: seq<BlockView>, id: nat, part: seq<Byte>)
    requires ValidRecordLayout(blockSize, blocks) && id < |blocks|
    requires BLOCK_HEADER_SIZE + RECORD_DATA_OFFSET + |part| <= blockSize < U32_MODULUS
    requires blocks[id] == RecordBlock(blockSize, id, 0, part)
    ensures Chain(blocks, id) == Success([id])
    ensures GetSpec(blockSize, blocks, id) == Success(ToRecordFormat(part))
    ensures GetRecordSpec(blocks, id) == Success(part)
  {
    RecordBlockFields(blockSize, id, 0, part);
    ModSmall(0);
    SingleBlockRecord(blockSize, blocks, id);
  }

  /** The block ids `count` consecutive blocks from `start` occupy. */
  function Consecutive(start: nat, count: nat): (ids: seq<nat>)
    ensures |ids| == count && forall k :: 0 <= k < count ==> ids[k] == start + k
  {
    seq(count, k => start + k)
  }

  /** The blocks `count` calls of `create` append to a store of `start` blocks. */
  function FreshBlocks(blockSize: nat, start: nat, count: nat): (r: seq<BlockView>)
    requires blockSize >= BLOCK_HEADER_SIZE
    ensures |r| == count && forall k :: 0 <= k < count ==> r[k] == FreshBlock(start + k, blockSize)
  {
    seq(count, k requires 0 <= k < count => FreshBlock(start + k, blockSize))
  }

  lemma FreshBlocksAppend(blockSize: nat, start: nat, count: nat)
    requires blockSize >= BLOCK_HEADER_SIZE
    ensures FreshBlocks(blockSize, start, count + 1) == FreshBlocks(blockSize, start, count) + [FreshBlock(start + count, blockSize)]
  {
  }

  lemma ConsecutiveAppend(start: nat, count: nat)
    ensures Consecutive(start, count + 1) == Consecutive(start, count) + [start + count]
  {
  }

  /** The blocks while a loop stores `added` into the fresh blocks appended
      to `before`: the first `i` stored, the others as `create` left them. */
  function Staged(blockSize: nat, before: seq<BlockView>, added: seq<BlockView>, i: nat): (r: seq<BlockView>)
    requires blockSize >= BLOCK_HEADER_SIZE && i <= |added|
    ensures |r| == |before| + |added|
  {
    before + added[..i] + FreshBlocks(blockSize, |before| + i, |added| - i)
  }

  /** Storing the next block turns stage `i` into stage `i + 1`. */
  lemma StagedStep(blockSize: nat, before: seq<BlockView>, added: seq<BlockView>, i: nat)
    requires blockSize >= BLOCK_HEADER_SIZE && i < |added|
    ensures Staged(blockSize, before, added, i)[|before| + i] == FreshBlock(|before| + i, blockSize)
    ensures Staged(blockSize, before, added, i)[|before| + i := added[i]] == Staged(blockSize, before, added, i + 1)
  {
    var s := Staged(blockSize, before, added, i);
    var t := Staged(blockSize, before, added, i + 1);
    assert s[|before| + i] == FreshBlocks(blockSize, |before| + i, |added| - i)[0];
    forall j | 0 <= j < |t| ensures s[|before| + i := added[i]][j] == t[j] {
      if j < |before| + i {
        assert s[j] == t[j];
      } else if j > |before| + i {
        assert s[j] == FreshBlocks(blockSize, |before| + i, |added| - i)[j - |before| - i];
        assert t[j] == FreshBlocks(blockSize, |before| + i + 1, |added| - i - 1)[j - |before| - i - 1];
      }
    }
  }

  /** Before the loop every appended block is fresh; after it, all are stored. */
  lemma StagedEnds(blockSize: nat, before: seq<BlockView>, added: seq<BlockView>)
    requires blockSize >= BLOCK_HEADER_SIZE
    ensures Staged(blockSize, before, added, 0) == before + FreshBlocks(blockSize, |before|, |added|)
    ensures Staged(blockSize, before, added, |added|) == before + added
  {
    assert added[..0] == [] && added[..|added|] == added;
    assert FreshBlocks(blockSize, |before| + |added|, 0) == [];
  }

  /** A block `create` just stamped reads as an empty record without a link. */
  lemma FreshBlockEmpty(id: nat, blockSize: nat)
    requires blockSize >= MIN_RECORD_BLOCK_SIZE
    ensures var p := FreshBlock(id, blockSize).payload;
      |p| >= RECORD_HEADER_SIZE && NextBlockId(p) == 0 && RecordDataSize(p) == 0
  {
    var p := FreshBlock(id, blockSize).payload;
    assert p[RECORD_NEXT_BLOCK_ID_OFFSET..RECORD_NEXT_BLOCK_ID_OFFSET + U64_SIZE] == Zeros(U64_SIZE);
    assert p[RECORD_SIZE_OFFSET..RECORD_SIZE_OFFSET + U64_SIZE] == Zeros(U64_SIZE);
    DecodeZeros(U64_SIZE);
  }

  /** `create` keeps a record store a record store, and keeps its record blocks. */
  lemma FreshAppendKeepsLayout(blockSize: nat, blocks: seq<BlockView>)
    requires ValidRecordLayout(blockSize, blocks) && |blocks| + 1 < U64_MODULUS
    ensures var grown := blocks + [FreshBlock(|blocks|, blockSize)];
      ValidRecordLayout(blockSize, grown) && KeepsRecordBlocks(blocks, grown)
  {
    var grown := blocks + [FreshBlock(|blocks|, blockSize)];
    WellFormedAppend(blockSize, blocks);
    FreshBlockEmpty(|blocks|, blockSize);
    forall j | 0 <= j < |grown|
      ensures |grown[j].payload| >= RECORD_DATA_OFFSET &&
        (NextBlockId(grown[j].payload) == 0 || NextBlockId(grown[j].payload) > j)
    {
      if j < |blocks| {
        assert grown[j] == blocks[j];
      }
    }
  }

  /** A header field write leaves every record block in place. */
  lemma HeaderWriteKeepsBlocks(blocks: seq<BlockView>, offset: nat, v: nat)
    requires |blocks| >= 1 && |blocks[HEADER_BLOCK].payload| >= RECORD_HEADER_SIZE
    requires offset + U64_SIZE <= RECORD_HEADER_SIZE
    ensures KeepsRecordBlocks(blocks, WithHeaderField(blocks, offset, v))
  {
  }

  /** A store into a header field keeps the record layout and every record block. */
  lemma HeaderWriteKeepsLayout(blockSize: nat, blocks: seq<BlockView>, offset: nat, v: nat)
    requires ValidRecordLayout(blockSize, blocks) && offset + U64_SIZE <= RECORD_HEADER_SIZE
    ensures |blocks[HEADER_BLOCK].payload| >= RECORD_HEADER_SIZE
    ensures var after := WithHeaderField(blocks, offset, v);
      ValidRecordLayout(blockSize, after) && KeepsRecordBlocks(blocks, after)
  {
    assert WellFormedBlock(blockSize, HEADER_BLOCK, blocks[HEADER_BLOCK]);
    var after := WithHeaderField(blocks, offset, v);
    forall j | 0 <= j < |after|
      ensures WellFormedBlock(blockSize, j, after[j])
      ensures |after[j].payload| >= RECORD_DATA_OFFSET &&
        (NextBlockId(after[j].payload) == 0 || NextBlockId(after[j].payload) > j)
    {
      if j >= 1 {
        assert after[j] == blocks[j];
      }
    }
  }

  /** `after` keeps every record block of `before` and may add blocks at
      the end; block 0, the header, may differ. */
  ghost predicate KeepsRecordBlocks(before: seq<BlockView>, after: seq<BlockView>)
  {
    |before| <= |after| && forall j :: 1 <= j < |before| ==> after[j] == before[j]
  }

  /** A chain from a record block that ends inside `before` is the same in `after`. */
  lemma {:induction false} ChainFrame(before: seq<BlockView>, after: seq<BlockView>, id: nat)
    requires ForwardLinks(before) && ForwardLinks(after) && KeepsRecordBlocks(before, after)
    requires id >= 1 && Chain(before, id).Success?
    ensures Chain(after, id) == Chain(before, id)
    decreases |before| - id
  {
    assert after[id] == before[id];
    var next := NextBlockId(before[id].payload);
    if next != 0 {
      ChainFrame(before, after, next);
    }
  }

  lemma {:induction false} GatherFrame(before: seq<BlockView>, after: seq<BlockView>, ids: seq<nat>)
    requires KeepsRecordBlocks(before, after)
    requires forall k :: 0 <= k < |ids| ==> 1 <= ids[k] < |before| && before[ids[k]].size <= |before[ids[k]].payload|
    ensures forall k :: 0 <= k < |ids| ==> after[ids[k]] == before[ids[k]]
    ensures Gather(after, ids) == Gather(before, ids)
  {
    if ids != [] {
      GatherFrame(before, after, ids[..|ids| - 1]);
    }
  }

  lemma {:induction false} RecordBytesFrame(before: seq<BlockView>, after: seq<BlockView>, ids: seq<nat>)
    requires KeepsRecordBlocks(before, after)
    requires forall k :: 0 <= k < |ids| ==> 1 <= ids[k] < |before| && |before[ids[k]].payload| >= RECORD_DATA_OFFSET
    ensures forall k :: 0 <= k < |ids| ==> after[ids[k]] == before[ids[k]]
    ensures RecordBytes(after, ids) == RecordBytes(before, ids)
  {
    if ids != [] {
      RecordBytesFrame(before, after, ids[..|ids| - 1]);
    }
  }

  /** Every record that could be read from `before` reads the same from
      `after`, both as `get` returns it and as the record bytes. */
  lemma RecordsKept(blockSize: nat, before: seq<BlockView>, after: seq<BlockView>, id: nat)
    requires ValidRecordLayout(blockSize, before) && ValidRecordLayout(blockSize, after)
    requires KeepsRecordBlocks(before, after)
    requires id >= 1 && Chain(before, id).Success?
    ensures Chain(after, id) == Chain(before, id)
    ensures GetSpec(blockSize, after, id) == GetSpec(blockSize, before, id)
    ensures GetRecordSpec(after, id) == GetRecordSpec(before, id)
  {
    ChainFrame(before, after, id);
    var ids := Chain(before, id).value;
    ChainSound(before, id);
    assert forall k :: 0 <= k < |ids| ==> ids[k] >= 1;
    assert forall k :: 0 <= k < |ids| ==> WellFormedBlock(blockSize, ids[k], before[ids[k]]);
    GatherFrame(before, after, ids);
    RecordBytesFrame(before, after, ids);
  }

  /** A block without a link is a record of one block: `get` returns its
      first `size()` bytes and the record bytes are its `recordData`. */
  lemma SingleBlockRecord(blockSize: nat, blocks: seq<BlockView>, id: nat)
    requires ValidRecordLayout(blockSize, blocks) && id < |blocks|
    requires NextBlockId(blocks[id].payload) == 0
    ensures blocks[id].size <= |blocks[id].payload|
    ensures Chain(blocks, id) == Success([id])
    ensures GetSpec(blockSize, blocks, id) == Success(blocks[id].payload[..blocks[id].size])
    ensures GetRecordSpec(blocks, id) == RecordData(blocks[id].payload)
  {
    assert WellFormedBlock(blockSize, id, blocks[id]);
    assert Chain(blocks, id) == Success([id]);
    SingleBlockBytes(blocks, id);
  }

  lemma SingleBlockBytes(blocks: seq<BlockView>, id: nat)
    requires id < |blocks| && RECORD_DATA_OFFSET <= |blocks[id].payload| && blocks[id].size <= |blocks[id].payload|
    ensures Gather(blocks, [id]) == blocks[id].payload[..blocks[id].size]
    ensures RecordBytes(blocks, [id]) == RecordData(blocks[id].payload)
  {
    assert [id][..0] == [];
    var data := RecordData(blocks[id].payload);
    if data.Success? {
      assert [] + data.value == data.value;
    }
  }
}
