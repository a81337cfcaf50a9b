// Where each field of each block lies in the region of a well-formed
// store, and what the writes of `BlockStorage::create` and `Block::set` do
// to the block list the region encodes (src/BlockStorage.h).

module StoreLayout {
  import opened Bytes
  import opened Errors
  import opened BlockLayout

  /** The region of a well-formed store is its header, the blocks before `i`,
      block `i` and the blocks after it, with block `i` at `BlockOffset`. */
  lemma StoreSplit(blockSize: nat, blocks: seq<BlockView>, i: nat)
    requires WellFormed(blockSize, blocks) && i < |blocks|
    ensures EncodeStore(blockSize, blocks) ==
      EncodeStoreHeader(blockSize, |blocks|) + EncodeBlocks(blocks[..i])
        + EncodeBlock(blocks[i]) + EncodeBlocks(blocks[i + 1..])
    ensures |EncodeStoreHeader(blockSize, |blocks|) + EncodeBlocks(blocks[..i])| == BlockOffset(blockSize, i)
  {
    var h, a := EncodeStoreHeader(blockSize, |blocks|), EncodeBlocks(blocks[..i]);
    var b, c := EncodeBlock(blocks[i]), EncodeBlocks(blocks[i + 1..]);
    EncodeBlocksSplit(blocks, i);
    ConcatAssoc(h, a, b, c);
    PrefixLength(blockSize, blocks, i);
  }

  /** Bytes `lo..hi` of block `i` in the region are bytes `lo..hi` of its encoding. */
  lemma BlockInStore(blockSize: nat, blocks: seq<BlockView>, i: nat, lo: nat, hi: nat)
    requires WellFormed(blockSize, blocks) && i < |blocks| && lo <= hi <= blockSize
    ensures BlockOffset(blockSize, i) + blockSize <= |EncodeStore(blockSize, blocks)|
    ensures EncodeStore(blockSize, blocks)[BlockOffset(blockSize, i) + lo..BlockOffset(blockSize, i) + hi]
         == EncodeBlock(blocks[i])[lo..hi]
  {
    StoreSplit(blockSize, blocks, i);
    var p := EncodeStoreHeader(blockSize, |blocks|) + EncodeBlocks(blocks[..i]);
    var x := EncodeBlock(blocks[i]);
    var s := EncodeBlocks(blocks[i + 1..]);
    assert WellFormedBlock(blockSize, i, blocks[i]);
    SliceOfMiddle(p, x, s, lo, hi);
  }

  /** A write inside block `i` of an encoded block list, behind a prefix `h`. */
  lemma {:induction false} BlocksUpdate(h: seq<Byte>, blocks: seq<BlockView>, i: nat, k: nat, x: seq<Byte>, b: BlockView)
    requires i < |blocks| && k + |x| <= |EncodeBlock(blocks[i])|
    requires Splice(EncodeBlock(blocks[i]), k, x) == EncodeBlock(b)
    ensures |h| + |EncodeBlocks(blocks[..i])| + k + |x| <= |h + EncodeBlocks(blocks)|
    ensures Splice(h + EncodeBlocks(blocks), |h| + |EncodeBlocks(blocks[..i])| + k, x) == h + EncodeBlocks(blocks[i := b])
  {
    var whole, a, c := EncodeBlocks(blocks), EncodeBlocks(blocks[..i]), EncodeBlocks(blocks[i + 1..]);
    var m, m2 := EncodeBlock(blocks[i]), EncodeBlock(b);
    EncodeBlocksSplit(blocks, i);
    EncodeBlocksUpdate(blocks, i, b);
    SpliceThrough(h, whole, a, m, c, k, x, m2, EncodeBlocks(blocks[i := b]));
  }

  /** A write inside block `i` that turns its encoding into that of `b`
      turns the region into that of the store with block `i` replaced. */
  lemma StoreUpdate(blockSize: nat, blocks: seq<BlockView>, i: nat, k: nat, x: seq<Byte>, b: BlockView)
    requires WellFormed(blockSize, blocks) && i < |blocks| && k + |x| <= blockSize
    requires Splice(EncodeBlock(blocks[i]), k, x) == EncodeBlock(b)
    ensures BlockOffset(blockSize, i) + k + |x| <= |EncodeStore(blockSize, blocks)|
    ensures Splice(EncodeStore(blockSize, blocks), BlockOffset(blockSize, i) + k, x)
         == EncodeStore(blockSize, blocks[i := b])
  {
    assert |EncodeBlocks(blocks[..i])| == blockSize * i by {
      PrefixLength(blockSize, blocks, i);
    }
    assert |EncodeBlock(blocks[i])| == blockSize by {
      assert WellFormedBlock(blockSize, i, blocks[i]);
    }
    StoreUpdateAt(blockSize, blocks, i, k, x, b);
  }

  lemma StoreUpdateAt(blockSize: nat, blocks: seq<BlockView>, i: nat, k: nat, x: seq<Byte>, b: BlockView)
    requires i < |blocks| && k + |x| <= |EncodeBlock(blocks[i])|
    requires |EncodeBlocks(blocks[..i])| == blockSize * i
    requires Splice(EncodeBlock(blocks[i]), k, x) == EncodeBlock(b)
    ensures BlockOffset(blockSize, i) + k + |x| <= |EncodeStore(blockSize, blocks)|
    ensures Splice(EncodeStore(blockSize, blocks), BlockOffset(blockSize, i) + k, x)
         == EncodeStore(blockSize, blocks[i := b])
  {
    var h := EncodeStoreHeader(blockSize, |blocks|);
    BlocksUpdate(h, blocks, i, k, x, b);
    assert EncodeStore(blockSize, blocks[i := b]) == h + EncodeBlocks(blocks[i := b]);
  }

  /** Bumping the stored count of a grown region rewrites only the count. */
  lemma CountBumped(blockSize: nat, blocks: seq<BlockView>)
    ensures var grown := EncodeStore(blockSize, blocks) + Zeros(blockSize);
      STORE_SIZE_OFFSET + U64_SIZE <= |grown| &&
      Splice(grown, STORE_SIZE_OFFSET, EncodeU64(|blocks| + 1))
        == EncodeStoreHeader(blockSize, |blocks| + 1) + EncodeBlocks(blocks) + Zeros(blockSize)
  {
    var n := |blocks|;
    var u, b, z := EncodeU64(blockSize), EncodeBlocks(blocks), Zeros(blockSize);
    var x := EncodeU64(n + 1);
    assert EncodeStore(blockSize, blocks) + z == u + EncodeU64(n) + (b + z);
    SpliceReplace(u, EncodeU64(n), b + z, x);
  }

  lemma HeaderStamped(blockSize: nat, blocks: seq<BlockView>)
    requires blockSize >= BLOCK_HEADER_SIZE
    ensures var bumped := EncodeStoreHeader(blockSize, |blocks| + 1) + EncodeBlocks(blocks);
      |bumped| + BLOCK_HEADER_SIZE <= |bumped + Zeros(blockSize)| &&
      Splice(bumped + Zeros(blockSize), |bumped|, EncodeBlockHeader(|blocks|, blockSize, 0))
        == EncodeStore(blockSize, blocks + [FreshBlock(|blocks|, blockSize)])
  {
    var n := |blocks|;
    var bumped := EncodeStoreHeader(blockSize, n + 1) + EncodeBlocks(blocks);
    var newBlock := FreshBlock(n, blockSize);
    SpliceTailFront(bumped, Zeros(blockSize), EncodeBlockHeader(n, blockSize, 0));
    FreshBlockEncoding(n, blockSize);
    StoreAppendOne(blockSize, blocks, newBlock);
  }

  /** A block `create` stamped is its header followed by zeros. */
  lemma FreshBlockEncoding(id: nat, blockSize: nat)
    requires blockSize >= BLOCK_HEADER_SIZE
    ensures EncodeBlockHeader(id, blockSize, 0) + Zeros(blockSize)[BLOCK_HEADER_SIZE..] == EncodeBlock(FreshBlock(id, blockSize))
  {
    ZerosSuffix(blockSize, BLOCK_HEADER_SIZE);
  }

  /** The region of a store with one more block ends in that block's encoding. */
  lemma {:induction false} StoreAppendOne(blockSize: nat, blocks: seq<BlockView>, b: BlockView)
    ensures EncodeStore(blockSize, blocks + [b]) ==
      EncodeStoreHeader(blockSize, |blocks| + 1) + EncodeBlocks(blocks) + EncodeBlock(b)
  {
    EncodeBlocksAppend(blocks, [b]);
    EncodeBlocksSingle(b);
  }

  /** The three writes of `BlockStorage::create` (grow by one block, bump the
      stored count, stamp the new block's header) give the store with one
      fresh block appended. */
  lemma StoreAppend(blockSize: nat, blocks: seq<BlockView>)
    requires WellFormed(blockSize, blocks)
    ensures var grown := EncodeStore(blockSize, blocks) + Zeros(blockSize);
      STORE_SIZE_OFFSET + U64_SIZE <= |grown| &&
      |EncodeStore(blockSize, blocks)| + BLOCK_HEADER_SIZE <= |grown| &&
      Splice(Splice(grown, STORE_SIZE_OFFSET, EncodeU64(|blocks| + 1)),
             |EncodeStore(blockSize, blocks)|, EncodeBlockHeader(|blocks|, blockSize, 0))
      == EncodeStore(blockSize, blocks + [FreshBlock(|blocks|, blockSize)])
  {
    CountBumped(blockSize, blocks);
    HeaderStamped(blockSize, blocks);
  }

  /** The reads and writes of `BlockStorage::create` on the region of a
      well-formed store: the grown region still reads the old count, the
      count store makes it read one more, and the header stamped at the new
      block's offset completes the encoding of the store with one fresh
      block appended. */
  lemma CreateSteps(blockSize: nat, blocks: seq<BlockView>)
    requires WellFormed(blockSize, blocks) && |blocks| + 1 < U64_MODULUS
    ensures |EncodeStore(blockSize, blocks)| == BlockOffset(blockSize, |blocks|)
    ensures var grown := EncodeStore(blockSize, blocks) + Zeros(blockSize);
      DecodeU64(grown[STORE_SIZE_OFFSET..STORE_SIZE_OFFSET + U64_SIZE]) == |blocks| &&
      var bumped := Splice(grown, STORE_SIZE_OFFSET, EncodeU64(|blocks| + 1));
      DecodeU64(bumped[STORE_SIZE_OFFSET..STORE_SIZE_OFFSET + U64_SIZE]) == |blocks| + 1 &&
      BlockOffset(blockSize, |blocks|) + BLOCK_HEADER_SIZE <= |bumped| &&
      Splice(bumped, BlockOffset(blockSize, |blocks|), EncodeBlockHeader(|blocks|, blockSize, 0))
        == EncodeStore(blockSize, blocks + [FreshBlock(|blocks|, blockSize)])
    ensures WellFormed(blockSize, blocks + [FreshBlock(|blocks|, blockSize)])
  {
    var n := |blocks|;
    var before := EncodeStore(blockSize, blocks);
    var grown := before + Zeros(blockSize);
    assert |before| == BlockOffset(blockSize, n) by {
      StoreLength(blockSize, blocks);
    }
    assert grown[STORE_SIZE_OFFSET..STORE_SIZE_OFFSET + U64_SIZE] == EncodeU64(n) by {
      StoreHeaderFields(blockSize, blocks);
    }
    DecodeEncodeU64Small(n);
    var bumped := Splice(grown, STORE_SIZE_OFFSET, EncodeU64(n + 1));
    assert bumped[STORE_SIZE_OFFSET..STORE_SIZE_OFFSET + U64_SIZE] == EncodeU64(n + 1) by {
      SpliceEffect(grown, STORE_SIZE_OFFSET, EncodeU64(n + 1));
    }
    DecodeEncodeU64Small(n + 1);
    StoreAppend(blockSize, blocks);
    WellFormedAppend(blockSize, blocks);
  }

  /** The two writes of `Block::set` within capacity on the region of a
      well-formed store: the `memcpy` into the payload and then the store
      to the block's size field give the store with block `i` replaced by
      `AfterSet`, and nothing else changes. */
  lemma SetSteps(blockSize: nat, blocks: seq<BlockView>, i: nat, data: seq<Byte>)
    requires WellFormed(blockSize, blocks) && i < |blocks| && |data| <= Capacity(blockSize)
    ensures var region := EncodeStore(blockSize, blocks);
      var start := BlockOffset(blockSize, i);
      start + BLOCK_HEADER_SIZE + |data| <= |region| &&
      var copied := Splice(region, start + BLOCK_HEADER_SIZE, data);
      start + BLOCK_SIZE_OFFSET + U64_SIZE <= |copied| &&
      Splice(copied, start + BLOCK_SIZE_OFFSET, EncodeU64(|data|))
        == EncodeStore(blockSize, blocks[i := AfterSet(blocks[i], data)])
    ensures WellFormed(blockSize, blocks[i := AfterSet(blocks[i], data)])
  {
    var b := blocks[i];
    assert WellFormedBlock(blockSize, i, b);
    var b1 := b.(payload := data + b.payload[|data|..]);
    var mid := blocks[i := b1];
    assert EncodeStore(blockSize, mid) == Splice(EncodeStore(blockSize, blocks), BlockOffset(blockSize, i) + BLOCK_HEADER_SIZE, data) by {
      PayloadWrite(b, data);
      StoreUpdate(blockSize, blocks, i, BLOCK_HEADER_SIZE, data, b1);
    }
    assert WellFormed(blockSize, mid) by {
      assert forall j :: 0 <= j < |mid| && j != i ==> mid[j] == blocks[j];
      assert WellFormedBlock(blockSize, i, b1);
    }
    assert AfterSet(b, data) == b1.(size := |data|);
    assert mid[i := AfterSet(b, data)] == blocks[i := AfterSet(b, data)];
    SizeWrite(b1, |data|);
    StoreUpdate(blockSize, mid, i, BLOCK_SIZE_OFFSET, EncodeU64(|data|), AfterSet(b, data));
    assert WellFormedBlock(blockSize, i, AfterSet(b, data));
  }

  /** A store of `bytes` at `offset` of block `i`'s payload gives the store
      with block `i` replaced by `AfterWrite`, which is still well formed. */
  lemma WriteSteps(blockSize: nat, blocks: seq<BlockView>, i: nat, offset: nat, bytes: seq<Byte>)
    requires WellFormed(blockSize, blocks) && i < |blocks| && offset + |bytes| <= Capacity(blockSize)
    ensures var start := BlockOffset(blockSize, i) + BLOCK_HEADER_SIZE + offset;
      start + |bytes| <= |EncodeStore(blockSize, blocks)| &&
      Splice(EncodeStore(blockSize, blocks), start, bytes)
        == EncodeStore(blockSize, blocks[i := AfterWrite(blocks[i], offset, bytes)])
    ensures WellFormed(blockSize, blocks[i := AfterWrite(blocks[i], offset, bytes)])
  {
    var b := blocks[i];
    assert WellFormedBlock(blockSize, i, b);
    var after := AfterWrite(b, offset, bytes);
    PayloadStore(b, offset, bytes);
    StoreUpdate(blockSize, blocks, i, BLOCK_HEADER_SIZE + offset, bytes, after);
    var updated := blocks[i := after];
    assert forall j :: 0 <= j < |updated| && j != i ==> updated[j] == blocks[j];
    assert WellFormedBlock(blockSize, i, after);
  }

  /** Attaching to a store built with block size `blockSize` succeeds exactly
      when the attaching side uses the same block size. */
  lemma AttachToStore(blockSize: nat, blocks: seq<BlockView>, attachSize: nat)
    requires WellFormed(blockSize, blocks)
    ensures AttachStatus(EncodeStore(blockSize, blocks), attachSize).Pass? <==> attachSize == blockSize
  {
    var region := EncodeStore(blockSize, blocks);
    assert region[STORE_BLOCK_SIZE_OFFSET..STORE_BLOCK_SIZE_OFFSET + U64_SIZE] == EncodeU64(blockSize) by {
      StoreHeaderFields(blockSize, blocks);
    }
    DecodeEncodeU64Small(blockSize);
  }
}
