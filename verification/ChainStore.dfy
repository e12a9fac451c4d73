/**
 The block store: its abstract state, and the in-memory implementation. Block hashes come from a
 function on headers, which for the node is SHA-256 of the encoded header.
 */
module ChainStore {
  import opened Base
  import opened Header

  /** What a store holds. A zero tip or genesis hash means "none yet". */
  datatype Chain = Chain(
    genesis: Hash32,
    tip: Hash32,
    blocks: map<Hash32, Block>,
    heights: map<Uint64, Hash32>,
    work: map<Hash32, nat>)
  {
    function HeaderOf(hash: Hash32): Option<BlockHeader> {
      if hash in blocks then Some(blocks[hash].header) else None
    }

    function WorkOf(hash: Hash32): Option<nat> {
      if hash in work then Some(work[hash]) else None
    }

    function BlockAtHeight(height: Uint64): Option<Block> {
      if height !in heights then None
      else if heights[height] in blocks then Some(blocks[heights[height]])
      else Some(ZERO_BLOCK)
    }

    function CurrentTip(): Option<(Block, nat)> {
      if tip == ZERO_HASH then None
      else Some((if tip in blocks then blocks[tip] else ZERO_BLOCK, if tip in work then work[tip] else 0))
    }

    /** Stores a block under the given hash; the first block ever stored becomes the tip. */
    function Store(hash: Hash32, b: Block, totalWork: nat): Chain {
      Chain(if b.header.height == 0 && genesis == ZERO_HASH then hash else genesis,
            if tip == ZERO_HASH then hash else tip,
            blocks[hash := b],
            heights[b.header.height := hash],
            work[hash := totalWork])
    }

    function MoveTip(hash: Hash32): Chain {
      if hash in blocks then this.(tip := hash) else this
    }
  }

  const EMPTY_CHAIN: Chain := Chain(ZERO_HASH, ZERO_HASH, map[], map[], map[])

  class MemoryStore {
    const hashOf: BlockHeader -> Hash32
    var genesisHash: Hash32
    var currentTip: Hash32
    var blocks: map<Hash32, Block>
    var heights: map<Uint64, Hash32>
    var totalWork: map<Hash32, nat>

    function View(): Chain
      reads this
    {
      Chain(genesisHash, currentTip, blocks, heights, totalWork)
    }

    constructor (hashOf: BlockHeader -> Hash32)
      ensures this.hashOf == hashOf && View() == EMPTY_CHAIN
    {
      this.hashOf := hashOf;
      genesisHash, currentTip := ZERO_HASH, ZERO_HASH;
      blocks, heights, totalWork := map[], map[], map[];
    }

    method StoreBlock(b: Block, work: nat)
      modifies this
      ensures View() == old(View()).Store(hashOf(b.header), b, work)
    {
      var hash := hashOf(b.header);
      blocks := blocks[hash := b];
      heights := heights[b.header.height := hash];
      totalWork := totalWork[hash := work];
      if b.header.height == 0 && genesisHash == ZERO_HASH {
        genesisHash := hash;
      }
      if currentTip == ZERO_HASH {
        currentTip := hash;
      }
    }

    method GetBlock(hash: Hash32) returns (r: Option<Block>)
      ensures r == if hash in View().blocks then Some(View().blocks[hash]) else None
    {
      if hash !in blocks {
        return None;
      }
      r := Some(blocks[hash]);
    }

    method GetHeader(hash: Hash32) returns (r: Option<BlockHeader>)
      ensures r == View().HeaderOf(hash)
    {
      var b := GetBlock(hash);
      if b.None? {
        return None;
      }
      r := Some(b.value.header);
    }

    method GetBlockByHeight(height: Uint64) returns (r: Option<Block>)
      ensures r == View().BlockAtHeight(height)
    {
      if height !in heights {
        return None;
      }
      r := Some(if heights[height] in blocks then blocks[heights[height]] else ZERO_BLOCK);
    }

    method CurrentTip() returns (r: Option<(Block, nat)>)
      ensures r == View().CurrentTip()
    {
      if currentTip == ZERO_HASH {
        return None;
      }
      var b := if currentTip in blocks then blocks[currentTip] else ZERO_BLOCK;
      var work := 0;
      if currentTip in totalWork {
        work := totalWork[currentTip];
      }
      r := Some((b, work));
    }

    method SetCurrentTip(hash: Hash32) returns (ok: bool)
      modifies this
      ensures ok <==> hash in old(View()).blocks
      ensures View() == old(View()).MoveTip(hash)
    {
      if hash !in blocks {
        return false;
      }
      currentTip := hash;
      ok := true;
    }

    method TotalWork(hash: Hash32) returns (r: Option<nat>)
      ensures r == View().WorkOf(hash)
    {
      if hash !in totalWork {
        return None;
      }
      r := Some(totalWork[hash]);
    }

    method HasBlock(hash: Hash32) returns (found: bool)
      ensures found <==> hash in View().blocks
    {
      found := hash in blocks;
    }
  }
}
