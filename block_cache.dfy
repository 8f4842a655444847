/** The block cache as the inode layer uses it (the `BlockCache` interface of
    src/fs/cache.c): `acquire` reads a block, writes through the acquired
    block change it in place, `sync` writes it back, `alloc` hands out an
    unused block and `free` returns one. The log, the pin counts and the
    cache's own index are not part of this model. */
module BlockCache {
  import opened Common
  import opened FsDefs

  /** Block `b` of a disk image; a block never written is zero. */
  function BlockAt(blocks: map<nat, Block>, b: nat): Block
  {
    if b in blocks then blocks[b] else ZeroBlock
  }

  class Cache {
    /** The allocatable blocks are `dataStart .. numBlocks-1`; block 0 is
        never handed out, so 0 can mean "no block". */
    const dataStart: nat
    const numBlocks: nat
    /** The contents of every block. */
    var blocks: map<nat, Block>
    /** The allocated blocks. */
    var used: set<nat>
    /** The blocks passed to `sync` and to `free`, in order. */
    ghost var syncLog: seq<nat>
    ghost var freeLog: seq<nat>

    ghost predicate Valid()
      reads this
    {
      0 < dataStart <= numBlocks
    }

    /** A cache over the disk image `image` whose allocated blocks are
        `used`. */
    constructor (dataStart: nat, numBlocks: nat, image: map<nat, Block>, used: set<nat>)
      requires 0 < dataStart <= numBlocks
      ensures Valid()
      ensures this.dataStart == dataStart && this.numBlocks == numBlocks
      ensures blocks == image && this.used == used && syncLog == [] && freeLog == []
    {
      this.dataStart := dataStart;
      this.numBlocks := numBlocks;
      blocks := image;
      this.used := used;
      syncLog := [];
      freeLog := [];
    }

    /** `acquire(b)`: the block's current contents. */
    function Read(b: nat): Block
      reads this
    {
      BlockAt(blocks, b)
    }

    /** Every allocatable block is in use. */
    ghost predicate Full()
      reads this
    {
      forall b :: dataStart <= b < numBlocks ==> b in used
    }

    /** `alloc()`: an unused block, now used and zeroed; halts when every
        block is in use. */
    method Alloc() returns (r: Result<nat>)
      requires Valid()
      modifies this
      ensures Valid()
      ensures r.Ok? <==> !old(Full())
      ensures r.Ok? ==> && 0 < dataStart <= r.value < numBlocks && r.value !in old(used)
                        && used == old(used) + {r.value}
                        && blocks == old(blocks)[r.value := ZeroBlock]
      ensures r.Halt? ==> used == old(used) && blocks == old(blocks)
      ensures r.Halt? ==> r.reason == "cache_alloc: no free block"
      ensures syncLog == old(syncLog) && freeLog == old(freeLog)
    {
      var b := dataStart;
      while b < numBlocks
        invariant dataStart <= b <= numBlocks
        invariant forall k :: dataStart <= k < b ==> k in used
      {
        if b !in used {
          used := used + {b};
          blocks := blocks[b := ZeroBlock];
          return Ok(b);
        }
        b := b + 1;
      }
      return Halt("cache_alloc: no free block");
    }

    /** `free(b)`: `b` is no longer in use. */
    method Free(b: nat)
      modifies this
      ensures used == old(used) - {b} && freeLog == old(freeLog) + [b]
      ensures blocks == old(blocks) && syncLog == old(syncLog)
    {
      used := used - {b};
      freeLog := freeLog + [b];
    }

    /** `sync(ctx, block)`: the block is written back. */
    method Sync(b: nat)
      modifies this
      ensures syncLog == old(syncLog) + [b]
      ensures blocks == old(blocks) && used == old(used) && freeLog == old(freeLog)
    {
      syncLog := syncLog + [b];
    }

    /** A write through an acquired block: inode entry `slot` of block `b`
        becomes `e`. */
    method PutEntry(b: nat, slot: nat, e: InodeEntry)
      modifies this
      ensures blocks == old(blocks)[b := old(Read(b)).(entries := old(Read(b)).entries[slot := e])]
      ensures used == old(used) && syncLog == old(syncLog) && freeLog == old(freeLog)
    {
      var blk := Read(b);
      blocks := blocks[b := blk.(entries := blk.entries[slot := e])];
    }

    /** A write through an acquired indirect block: its slot `i` becomes
        block number `a`. */
    method PutAddr(b: nat, i: nat, a: nat)
      modifies this
      ensures blocks == old(blocks)[b := old(Read(b)).(addrs := old(Read(b)).addrs[i := a])]
      ensures used == old(used) && syncLog == old(syncLog) && freeLog == old(freeLog)
    {
      var blk := Read(b);
      blocks := blocks[b := blk.(addrs := blk.addrs[i := a])];
    }

    /** A `memcpy` into an acquired block: `bytes` land at `start`. */
    method PutBytes(b: nat, start: nat, bytes: seq<byte>)
      modifies this
      ensures blocks == old(blocks)[b := old(Read(b)).WithBytes(start, bytes)]
      ensures used == old(used) && syncLog == old(syncLog) && freeLog == old(freeLog)
    {
      blocks := blocks[b := Read(b).WithBytes(start, bytes)];
    }
  }
}
