// The binary layout of a block store (src/BlockStorage.h).
//
//   offset 0                      BlockStorage::Header {blockSize, size}    16 bytes
//   offset 16 + BlockSize * i     block i: Block::Header {id, blockSize, size}  24 bytes
//                                          payload                    BlockSize - 24 bytes
//
// Every field is a uint64_t. A region is described by the list of its blocks
// (`BlockView`); `EncodeStore` gives the exact bytes that list occupies, and
// the lemmas here say where each field of each block lies in those bytes.

module BlockLayout {
  import opened Bytes
  import opened Errors

  const STORE_HEADER_SIZE: nat := 16
  const STORE_BLOCK_SIZE_OFFSET: nat := 0
  const STORE_SIZE_OFFSET: nat := 8

  const BLOCK_HEADER_SIZE: nat := 24
  const BLOCK_ID_OFFSET: nat := 0
  const BLOCK_BLOCK_SIZE_OFFSET: nat := 8
  const BLOCK_SIZE_OFFSET: nat := 16

  /** One block as its header fields and its payload bytes. */
  datatype BlockView = BlockView(id: nat, blockSize: nat, size: nat, payload: seq<Byte>)

  /** Where block `index` starts (src/BlockStorage.h:204, 280, 299). */
  function BlockOffset(blockSize: nat, index: nat): nat
  {
    STORE_HEADER_SIZE + blockSize * index
  }

  function EncodeStoreHeader(blockSize: nat, count: nat): (r: seq<Byte>)
    ensures |r| == STORE_HEADER_SIZE
  {
    EncodeU64(blockSize) + EncodeU64(count)
  }

  /** The 24 bytes `Block::createBlock` and `Block::set` store in a block header. */
  function EncodeBlockHeader(id: nat, blockSize: nat, size: nat): (r: seq<Byte>)
    ensures |r| == BLOCK_HEADER_SIZE
  {
    EncodeU64(id) + EncodeU64(blockSize) + EncodeU64(size)
  }

  function EncodeBlock(b: BlockView): (r: seq<Byte>)
    ensures |r| == BLOCK_HEADER_SIZE + |b.payload|
  {
    EncodeBlockHeader(b.id, b.blockSize, b.size) + b.payload
  }

  function EncodeBlocks(blocks: seq<BlockView>): seq<Byte>
  {
    if blocks == [] then []
    else EncodeBlocks(blocks[..|blocks| - 1]) + EncodeBlock(blocks[|blocks| - 1])
  }

  /** The whole region of a store with these blocks. */
  function EncodeStore(blockSize: nat, blocks: seq<BlockView>): seq<Byte>
  {
    EncodeStoreHeader(blockSize, |blocks|) + EncodeBlocks(blocks)
  }

  /** `Block::capacity`: the payload bytes behind the 24-byte block header. */
  function Capacity(blockSize: nat): nat
    requires blockSize >= BLOCK_HEADER_SIZE
  {
    blockSize - BLOCK_HEADER_SIZE
  }

  /** The block `BlockStorage::create` appends: a header {id, BlockSize, 0}
      over the zero bytes `realloc` added. */
  function FreshBlock(id: nat, blockSize: nat): BlockView
    requires blockSize >= BLOCK_HEADER_SIZE
  {
    BlockView(id, blockSize, 0, Zeros(Capacity(blockSize)))
  }

  /** A block after `Block::set(data, |data|)`: `data` copied to the front of
      the payload, the rest of the payload kept, and `size` set to `|data|`. */
  function AfterSet(b: BlockView, data: seq<Byte>): (r: BlockView)
    requires |data| <= |b.payload|
    ensures r.id == b.id && r.blockSize == b.blockSize && |r.payload| == |b.payload|
    ensures r.size == |data| && r.payload[..|data|] == data
    ensures r.payload[|data|..] == b.payload[|data|..]
  {
    b.(size := |data|, payload := data + b.payload[|data|..])
  }

  /** A block after a store of `bytes` at `offset` of its payload through
      the address `Block::data()` returns: only those payload bytes change. */
  function AfterWrite(b: BlockView, offset: nat, bytes: seq<Byte>): (r: BlockView)
    requires offset + |bytes| <= |b.payload|
    ensures r.id == b.id && r.blockSize == b.blockSize && r.size == b.size
    ensures |r.payload| == |b.payload| && r.payload[offset..offset + |bytes|] == bytes
    ensures forall k :: 0 <= k < |b.payload| && !(offset <= k < offset + |bytes|) ==> r.payload[k] == b.payload[k]
  {
    SpliceEffect(b.payload, offset, bytes);
    b.(payload := Splice(b.payload, offset, bytes))
  }

  ghost predicate WellFormedBlock(blockSize: nat, index: nat, b: BlockView)
  {
    blockSize >= BLOCK_HEADER_SIZE &&
    b.id == index && b.blockSize == blockSize &&
    |b.payload| == Capacity(blockSize) && b.size <= |b.payload|
  }

  /** Block `i` carries id `i` and the store's block size, and its recorded
      size fits its payload; all counts fit a uint64_t. */
  ghost predicate WellFormed(blockSize: nat, blocks: seq<BlockView>)
  {
    BLOCK_HEADER_SIZE <= blockSize < U64_MODULUS && |blocks| < U64_MODULUS &&
    forall i :: 0 <= i < |blocks| ==> WellFormedBlock(blockSize, i, blocks[i])
  }

  /** Appending the block `create` stamps keeps the list well formed. */
  lemma WellFormedAppend(blockSize: nat, blocks: seq<BlockView>)
    requires WellFormed(blockSize, blocks) && |blocks| + 1 < U64_MODULUS
    ensures WellFormed(blockSize, blocks + [FreshBlock(|blocks|, blockSize)])
  {
    var grown := blocks + [FreshBlock(|blocks|, blockSize)];
    forall i | 0 <= i < |grown| ensures WellFormedBlock(blockSize, i, grown[i]) {
      if i < |blocks| {
        assert grown[i] == blocks[i];
      }
    }
  }

  ghost predicate Uniform(blockSize: nat, blocks: seq<BlockView>)
  {
    forall i :: 0 <= i < |blocks| ==> BLOCK_HEADER_SIZE + |blocks[i].payload| == blockSize
  }

  lemma WellFormedUniform(blockSize: nat, blocks: seq<BlockView>, lo: nat, hi: nat)
    requires WellFormed(blockSize, blocks) && lo <= hi <= |blocks|
    ensures Uniform(blockSize, blocks[lo..hi])
  {
    forall i | 0 <= i < hi - lo
      ensures BLOCK_HEADER_SIZE + |blocks[lo..hi][i].payload| == blockSize
    {
      assert blocks[lo..hi][i] == blocks[lo + i];
      assert WellFormedBlock(blockSize, lo + i, blocks[lo + i]);
    }
  }

  lemma UniformPrefix(blockSize: nat, blocks: seq<BlockView>, n: nat)
    requires Uniform(blockSize, blocks) && n <= |blocks|
    ensures Uniform(blockSize, blocks[..n])
  {
    forall i | 0 <= i < n ensures BLOCK_HEADER_SIZE + |blocks[..n][i].payload| == blockSize {
      assert blocks[..n][i] == blocks[i];
    }
  }

  lemma {:induction false} EncodeBlocksLength(blockSize: nat, blocks: seq<BlockView>)
    requires Uniform(blockSize, blocks)
    ensures |EncodeBlocks(blocks)| == blockSize * |blocks|
  {
    if blocks != [] {
      var n := |blocks|;
      UniformPrefix(blockSize, blocks, n - 1);
      EncodeBlocksLength(blockSize, blocks[..n - 1]);
      assert blockSize * (n - 1) + blockSize == blockSize * n;
    }
  }

  lemma AppendDropLast<T>(a: seq<T>, b: seq<T>)
    requires b != []
    ensures (a + b)[..|a + b| - 1] == a + b[..|b| - 1] && (a + b)[|a + b| - 1] == b[|b| - 1]
  {
  }

  lemma {:induction false} EncodeBlocksAppend(a: seq<BlockView>, b: seq<BlockView>)
    ensures EncodeBlocks(a + b) == EncodeBlocks(a) + EncodeBlocks(b)
  {
    if b == [] {
      assert a + b == a;
    } else {
      var front, last := b[..|b| - 1], b[|b| - 1];
      AppendDropLast(a, b);
      calc {
        EncodeBlocks(a + b);
        EncodeBlocks(a + front) + EncodeBlock(last);
        { EncodeBlocksAppend(a, front); }
        EncodeBlocks(a) + EncodeBlocks(front) + EncodeBlock(last);
        EncodeBlocks(a) + (EncodeBlocks(front) + EncodeBlock(last));
      }
    }
  }

  lemma EncodeBlocksSingle(b: BlockView)
    ensures EncodeBlocks([b]) == EncodeBlock(b)
  {
    assert [b][..0] == [];
  }

  lemma StoreLength(blockSize: nat, blocks: seq<BlockView>)
    requires WellFormed(blockSize, blocks)
    ensures |EncodeStore(blockSize, blocks)| == STORE_HEADER_SIZE + blockSize * |blocks|
  {
    WellFormedUniform(blockSize, blocks, 0, |blocks|);
    assert blocks[0..|blocks|] == blocks;
    EncodeBlocksLength(blockSize, blocks);
  }

  lemma SplitAround<T>(s: seq<T>, i: nat)
    requires i < |s|
    ensures s == s[..i] + [s[i]] + s[i + 1..]
  {
  }

  lemma EncodeBlocksSplit(blocks: seq<BlockView>, i: nat)
    requires i < |blocks|
    ensures EncodeBlocks(blocks) == EncodeBlocks(blocks[..i]) + EncodeBlock(blocks[i]) + EncodeBlocks(blocks[i + 1..])
  {
    var a, c := blocks[..i], blocks[i + 1..];
    var front := a + [blocks[i]];
    SplitAround(blocks, i);
    calc {
      EncodeBlocks(blocks);
      EncodeBlocks(front + c);
      { EncodeBlocksAppend(front, c); }
      EncodeBlocks(front) + EncodeBlocks(c);
      { EncodeBlocksAppend(a, [blocks[i]]); EncodeBlocksSingle(blocks[i]); }
      EncodeBlocks(a) + EncodeBlock(blocks[i]) + EncodeBlocks(c);
    }
  }

  /** Replacing block `i` replaces its encoding between the others. */
  lemma EncodeBlocksUpdate(blocks: seq<BlockView>, i: nat, b: BlockView)
    requires i < |blocks|
    ensures EncodeBlocks(blocks[i := b]) == EncodeBlocks(blocks[..i]) + EncodeBlock(b) + EncodeBlocks(blocks[i + 1..])
  {
    var updated := blocks[i := b];
    assert updated[..i] == blocks[..i] && updated[i + 1..] == blocks[i + 1..];
    EncodeBlocksSplit(updated, i);
  }

  lemma PrefixLength(blockSize: nat, blocks: seq<BlockView>, i: nat)
    requires WellFormed(blockSize, blocks) && i <= |blocks|
    ensures |EncodeBlocks(blocks[..i])| == blockSize * i
  {
    WellFormedUniform(blockSize, blocks, 0, i);
    assert blocks[0..i] == blocks[..i];
    EncodeBlocksLength(blockSize, blocks[..i]);
  }

  lemma BlockFields(b: BlockView)
    ensures EncodeBlock(b)[BLOCK_ID_OFFSET..BLOCK_ID_OFFSET + U64_SIZE] == EncodeU64(b.id)
    ensures EncodeBlock(b)[BLOCK_BLOCK_SIZE_OFFSET..BLOCK_BLOCK_SIZE_OFFSET + U64_SIZE] == EncodeU64(b.blockSize)
    ensures EncodeBlock(b)[BLOCK_SIZE_OFFSET..BLOCK_SIZE_OFFSET + U64_SIZE] == EncodeU64(b.size)
    ensures EncodeBlock(b)[BLOCK_HEADER_SIZE..] == b.payload
  {
  }

  /** `memcpy` into `Block::data()` replaces the front of the payload. */
  lemma PayloadWrite(b: BlockView, data: seq<Byte>)
    requires |data| <= |b.payload|
    ensures BLOCK_HEADER_SIZE + |data| <= |EncodeBlock(b)|
    ensures Splice(EncodeBlock(b), BLOCK_HEADER_SIZE, data)
         == EncodeBlock(b.(payload := data + b.payload[|data|..]))
  {
    SpliceTailFront(EncodeBlockHeader(b.id, b.blockSize, b.size), b.payload, data);
  }

  /** A store into the payload changes the block's encoding at the same place. */
  lemma PayloadStore(b: BlockView, offset: nat, bytes: seq<Byte>)
    requires offset + |bytes| <= |b.payload|
    ensures BLOCK_HEADER_SIZE + offset + |bytes| <= |EncodeBlock(b)|
    ensures Splice(EncodeBlock(b), BLOCK_HEADER_SIZE + offset, bytes) == EncodeBlock(AfterWrite(b, offset, bytes))
  {
    var h := EncodeBlockHeader(b.id, b.blockSize, b.size);
    assert EncodeBlock(b) == h + b.payload + [];
    SpliceMiddle(h, b.payload, [], offset, bytes);
    assert EncodeBlock(AfterWrite(b, offset, bytes)) == h + Splice(b.payload, offset, bytes) + [];
  }

  /** The store to `Header::size` of a block replaces that field only. */
  lemma SizeWrite(b: BlockView, n: nat)
    ensures BLOCK_SIZE_OFFSET + U64_SIZE <= |EncodeBlock(b)|
    ensures Splice(EncodeBlock(b), BLOCK_SIZE_OFFSET, EncodeU64(n)) == EncodeBlock(b.(size := n))
  {
    SpliceReplace(EncodeU64(b.id) + EncodeU64(b.blockSize), EncodeU64(b.size), b.payload, EncodeU64(n));
  }

  lemma StoreHeaderFields(blockSize: nat, blocks: seq<BlockView>)
    ensures |EncodeStore(blockSize, blocks)| >= STORE_HEADER_SIZE
    ensures EncodeStore(blockSize, blocks)[STORE_BLOCK_SIZE_OFFSET..STORE_BLOCK_SIZE_OFFSET + U64_SIZE] == EncodeU64(blockSize)
    ensures EncodeStore(blockSize, blocks)[STORE_SIZE_OFFSET..STORE_SIZE_OFFSET + U64_SIZE] == EncodeU64(|blocks|)
  {
  }

  /** The check the attaching constructor leaves as a TODO
      (src/BlockStorage.h:240-244): an initialised region must store the
      caller's block size. A region shorter than the store header is
      initialised instead and always passes. */
  function AttachStatus(region: seq<Byte>, blockSize: nat): (r: Outcome)
    ensures r.Fail? ==> r.error == CorruptStore
  {
    if |region| < STORE_HEADER_SIZE then Pass
    else if DecodeU64(region[STORE_BLOCK_SIZE_OFFSET..STORE_BLOCK_SIZE_OFFSET + U64_SIZE]) != blockSize
    then Fail(CorruptStore)
    else Pass
  }

  /** The guard of `Block::set` as written (src/BlockStorage.h:183): it
      compares the byte count with the whole block size, not the capacity. */
  predicate SetGuardRejectsAsWritten(blockSize: nat, size: nat)
  {
    size > blockSize
  }

  /** The guard the payload needs: more bytes than the capacity do not fit. */
  predicate SetGuardRejects(blockSize: nat, size: nat)
    requires blockSize >= BLOCK_HEADER_SIZE
  {
    size > Capacity(blockSize)
  }

  /** A `set` of capacity + 1 bytes passes the guard as written, yet its copy
      ends past the block and into the next block's header. */
  lemma SetGuardAdmitsOverflow(blockSize: nat, index: nat)
    requires blockSize >= BLOCK_HEADER_SIZE
    ensures var size := Capacity(blockSize) + 1;
      !SetGuardRejectsAsWritten(blockSize, size) && SetGuardRejects(blockSize, size) &&
      BlockOffset(blockSize, index) + BLOCK_HEADER_SIZE + size > BlockOffset(blockSize, index + 1)
  {
    assert blockSize * (index + 1) == blockSize * index + blockSize;
  }
}
