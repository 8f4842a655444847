/** Where things live: the inode table (src/fs/inode.c `to_block_no`,
    `get_entry`), a file's block map (`inode_map`, `inode_map2`), the
    chunks the read and write loops copy, and the directory scan of
    `inode_lookup`, as functions of the disk image. */
module InodeLayout {
  import opened Common
  import opened FsDefs
  import opened BlockCache
  import Arith

  /** The super block fields inode.c reads. */
  datatype SuperBlock = SuperBlock(inodeStart: nat, numInodes: nat)

  // ---------------------------------------------------------------------
  // The inode table

  /** `to_block_no(k)`: the block holding inode `k`. */
  function ToBlockNo(g: Geometry, sb: SuperBlock, k: nat): nat
    requires g.Valid()
  {
    sb.inodeStart + k / g.inodePerBlock
  }

  /** `get_entry(block, k)`: the slot of inode `k` in its block. */
  function Slot(g: Geometry, k: nat): nat
    requires g.Valid()
  {
    k % g.inodePerBlock
  }

  /** Distinct inode numbers have distinct places, and every place below
      the table's end belongs to one inode number. */
  lemma PlaceInjective(g: Geometry, sb: SuperBlock, k1: nat, k2: nat)
    requires g.Valid()
    ensures (ToBlockNo(g, sb, k1) == ToBlockNo(g, sb, k2) && Slot(g, k1) == Slot(g, k2)) <==> k1 == k2
  {
    Arith.RoundDown(k1, g.inodePerBlock);
    Arith.RoundDown(k2, g.inodePerBlock);
  }

  /** Slot `j` of the block the table's `q`th block is inode `q*IPB + j`. */
  lemma PlaceOf(g: Geometry, sb: SuperBlock, q: nat, j: nat)
    requires g.Valid() && j < g.inodePerBlock
    ensures ToBlockNo(g, sb, q * g.inodePerBlock + j) == sb.inodeStart + q
    ensures Slot(g, q * g.inodePerBlock + j) == j
  {
    Arith.BlockOffset(q, j, g.inodePerBlock);
  }

  /** The on-disk entry of inode `k`. */
  function DiskEntry(g: Geometry, sb: SuperBlock, blocks: map<nat, Block>, k: nat): InodeEntry
    requires g.Valid()
  {
    BlockAt(blocks, ToBlockNo(g, sb, k)).Entry(Slot(g, k))
  }

  /** The disk image after the entry of inode `k` becomes `e`. */
  function WithDiskEntry(g: Geometry, sb: SuperBlock, blocks: map<nat, Block>, k: nat, e: InodeEntry)
    : map<nat, Block>
    requires g.Valid()
  {
    var b := ToBlockNo(g, sb, k);
    blocks[b := BlockAt(blocks, b).(entries := BlockAt(blocks, b).entries[Slot(g, k) := e])]
  }

  /** Writing inode `k`'s entry changes that entry and no other. */
  lemma DiskEntryUpdate(g: Geometry, sb: SuperBlock, blocks: map<nat, Block>, k: nat, e: InodeEntry, k': nat)
    requires g.Valid()
    ensures DiskEntry(g, sb, WithDiskEntry(g, sb, blocks, k, e), k') ==
      if k' == k then e else DiskEntry(g, sb, blocks, k')
  {
    PlaceInjective(g, sb, k, k');
  }

  /** Writing inode `k`'s entry twice leaves the second value. */
  lemma DiskEntryOverwrite(g: Geometry, sb: SuperBlock, blocks: map<nat, Block>, k: nat, e1: InodeEntry, e2: InodeEntry)
    requires g.Valid()
    ensures WithDiskEntry(g, sb, WithDiskEntry(g, sb, blocks, k, e1), k, e2) == WithDiskEntry(g, sb, blocks, k, e2)
  {
    var b := ToBlockNo(g, sb, k);
    var blk := BlockAt(blocks, b);
    assert blk.entries[Slot(g, k) := e1][Slot(g, k) := e2] == blk.entries[Slot(g, k) := e2];
  }

  // ---------------------------------------------------------------------
  // A file's blocks and bytes

  /** The block holding the file's block `idx`: direct slot `idx`, or slot
      `idx - INODE_NUM_DIRECT` of the indirect block; 0 when unmapped. */
  function FileBlock(g: Geometry, e: InodeEntry, blocks: map<nat, Block>, idx: nat): nat
  {
    if idx < g.numDirect then e.Addr(idx)
    else if e.indirect == 0 then 0
    else BlockAt(blocks, e.indirect).Addr(idx - g.numDirect)
  }

  /** The file's byte at offset `off`. */
  function FileByte(g: Geometry, e: InodeEntry, blocks: map<nat, Block>, off: nat): byte
    requires g.Valid()
  {
    BlockAt(blocks, FileBlock(g, e, blocks, off / g.blockSize)).Byte(off % g.blockSize)
  }

  /** The file's `n` bytes from offset `off`. */
  function FileBytes(g: Geometry, e: InodeEntry, blocks: map<nat, Block>, off: nat, n: nat): (s: seq<byte>)
    requires g.Valid()
    ensures |s| == n && forall k :: 0 <= k < n ==> s[k] == FileByte(g, e, blocks, off + k)
  {
    seq(n, k requires 0 <= k < n => FileByte(g, e, blocks, off + k))
  }

  /** Every block that a read of `[offset, end)` visits passes
      `inode_map2`'s checks: it starts below `INODE_MAX_BYTES` and is
      mapped. */
  ghost predicate Readable(g: Geometry, e: InodeEntry, blocks: map<nat, Block>, offset: nat, end: nat)
    requires g.Valid()
  {
    forall idx: nat :: offset / g.blockSize <= idx && idx * g.blockSize < end ==>
      idx * g.blockSize < g.maxBytes && FileBlock(g, e, blocks, idx) != 0
  }

  /** Blocks `lo .. q-1` are all mapped and start below `INODE_MAX_BYTES`. */
  ghost predicate MappedBelow(g: Geometry, e: InodeEntry, blocks: map<nat, Block>, lo: nat, q: nat)
  {
    forall idx: nat :: lo <= idx < q ==> idx * g.blockSize < g.maxBytes && FileBlock(g, e, blocks, idx) != 0
  }

  /** One more mapped block extends `MappedBelow`. */
  lemma MappedBelowStep(g: Geometry, e: InodeEntry, blocks: map<nat, Block>, lo: nat, q: nat)
    requires MappedBelow(g, e, blocks, lo, q)
    requires q * g.blockSize < g.maxBytes && FileBlock(g, e, blocks, q) != 0
    ensures MappedBelow(g, e, blocks, lo, q + 1)
  {
  }

  /** A block of `[offset, end)` that is unmapped, or starts at or past
      `INODE_MAX_BYTES`, makes the range unreadable. */
  lemma UnreadableAt(g: Geometry, e: InodeEntry, blocks: map<nat, Block>, offset: nat, end: nat, q: nat)
    requires g.Valid() && offset / g.blockSize <= q && q * g.blockSize < end
    requires !(q * g.blockSize < g.maxBytes && FileBlock(g, e, blocks, q) != 0)
    ensures !Readable(g, e, blocks, offset, end)
  {
  }

  /** Blocks `offset / BLOCK_SIZE .. q-1` all mapped and within the size
      limit, with block `q` starting at or after `end`, make `[offset,
      end)` readable. */
  lemma ReadableUpTo(g: Geometry, e: InodeEntry, blocks: map<nat, Block>, offset: nat, end: nat, q: nat)
    requires g.Valid() && end <= q * g.blockSize
    requires MappedBelow(g, e, blocks, offset / g.blockSize, q)
    ensures Readable(g, e, blocks, offset, end)
  {
    forall idx: nat | offset / g.blockSize <= idx && idx * g.blockSize < end
      ensures idx < q
    {
      Arith.MulMono(q, idx, g.blockSize);
    }
  }

  /** The file's block map is sound: the indirect block and every mapped
      block are allocated, no block is mapped twice, and no data block is
      the indirect block. */
  ghost predicate FileWF(g: Geometry, e: InodeEntry, blocks: map<nat, Block>, used: set<nat>)
  {
    && (e.indirect != 0 ==> e.indirect in used)
    && (forall idx: nat :: idx < g.numDirect + g.numIndirect && FileBlock(g, e, blocks, idx) != 0 ==>
          FileBlock(g, e, blocks, idx) in used && FileBlock(g, e, blocks, idx) != e.indirect)
    && (forall i: nat, j: nat :: i < j < g.numDirect + g.numIndirect && FileBlock(g, e, blocks, i) != 0 ==>
          FileBlock(g, e, blocks, i) != FileBlock(g, e, blocks, j))
  }

  /** Every block mapped in the first state is still mapped to the same
      block, with the same bytes, in the second. */
  ghost predicate KeepsMapped(g: Geometry, e: InodeEntry, blocks: map<nat, Block>,
                              e': InodeEntry, blocks': map<nat, Block>)
  {
    forall idx: nat :: idx < g.numDirect + g.numIndirect && FileBlock(g, e, blocks, idx) != 0 ==>
      && FileBlock(g, e', blocks', idx) == FileBlock(g, e, blocks, idx)
      && BlockAt(blocks', FileBlock(g, e, blocks, idx)).data == BlockAt(blocks, FileBlock(g, e, blocks, idx)).data
  }

  lemma KeepsMappedTrans(g: Geometry, e1: InodeEntry, b1: map<nat, Block>, e2: InodeEntry, b2: map<nat, Block>,
                         e3: InodeEntry, b3: map<nat, Block>)
    requires KeepsMapped(g, e1, b1, e2, b2) && KeepsMapped(g, e2, b2, e3, b3)
    ensures KeepsMapped(g, e1, b1, e3, b3)
  {
  }

  /** Bytes in blocks that stay mapped keep their values. */
  lemma KeepsMappedBytes(g: Geometry, e: InodeEntry, blocks: map<nat, Block>,
                         e': InodeEntry, blocks': map<nat, Block>, off: nat)
    requires g.Valid() && KeepsMapped(g, e, blocks, e', blocks')
    requires off / g.blockSize < g.numDirect + g.numIndirect
    requires FileBlock(g, e, blocks, off / g.blockSize) != 0
    ensures FileByte(g, e', blocks', off) == FileByte(g, e, blocks, off)
  {
  }

  /** Changing only unallocated blocks changes nothing in a sound file. */
  lemma OutsideUsedFrame(g: Geometry, e: InodeEntry, blocks: map<nat, Block>, blocks': map<nat, Block>,
                         used: set<nat>, used': set<nat>)
    requires FileWF(g, e, blocks, used) && used <= used'
    requires forall b :: b in used ==> BlockAt(blocks', b) == BlockAt(blocks, b)
    ensures FileWF(g, e, blocks', used')
    ensures forall idx: nat :: FileBlock(g, e, blocks', idx) == FileBlock(g, e, blocks, idx)
    ensures KeepsMapped(g, e, blocks, e, blocks')
  {
    forall idx: nat
      ensures FileBlock(g, e, blocks', idx) == FileBlock(g, e, blocks, idx)
    {
    }
  }

  /** Filling an empty direct slot with a fresh block keeps the file sound
      and changes no other slot. */
  lemma SetDirect(g: Geometry, e: InodeEntry, blocks: map<nat, Block>, used: set<nat>, idx: nat, b: nat)
    requires FileWF(g, e, blocks, used)
    requires idx < g.numDirect && e.Addr(idx) == 0 && b != 0 && b !in used
    ensures FileWF(g, e.(addrs := e.addrs[idx := b]), blocks, used + {b})
    ensures FileBlock(g, e.(addrs := e.addrs[idx := b]), blocks, idx) == b
    ensures forall j: nat :: j != idx ==>
      FileBlock(g, e.(addrs := e.addrs[idx := b]), blocks, j) == FileBlock(g, e, blocks, j)
    ensures KeepsMapped(g, e, blocks, e.(addrs := e.addrs[idx := b]), blocks)
  {
    var e' := e.(addrs := e.addrs[idx := b]);
    assert forall j: nat :: j != idx ==> FileBlock(g, e', blocks, j) == FileBlock(g, e, blocks, j);
  }

  /** Installing a fresh zeroed indirect block maps nothing new and keeps
      the file sound. */
  lemma SetIndirectBlock(g: Geometry, e: InodeEntry, blocks: map<nat, Block>, used: set<nat>, b: nat)
    requires FileWF(g, e, blocks, used)
    requires e.indirect == 0 && b != 0 && b !in used && BlockAt(blocks, b) == ZeroBlock
    ensures FileWF(g, e.(indirect := b), blocks, used + {b})
    ensures forall j: nat :: FileBlock(g, e.(indirect := b), blocks, j) == FileBlock(g, e, blocks, j)
    ensures KeepsMapped(g, e, blocks, e.(indirect := b), blocks)
  {
    var e' := e.(indirect := b);
    assert forall j: nat :: FileBlock(g, e', blocks, j) == FileBlock(g, e, blocks, j);
  }

  /** Filling an empty slot of the indirect block with a fresh block keeps
      the file sound and changes no other slot. */
  lemma SetIndirectSlot(g: Geometry, e: InodeEntry, blocks: map<nat, Block>, used: set<nat>, idx: nat, b: nat)
    requires FileWF(g, e, blocks, used)
    requires g.numDirect <= idx < g.numDirect + g.numIndirect && e.indirect != 0
    requires FileBlock(g, e, blocks, idx) == 0 && b != 0 && b !in used
    ensures var ind := BlockAt(blocks, e.indirect);
            var blocks' := blocks[e.indirect := ind.(addrs := ind.addrs[idx - g.numDirect := b])];
            && FileWF(g, e, blocks', used + {b})
            && FileBlock(g, e, blocks', idx) == b
            && (forall j: nat :: j != idx ==> FileBlock(g, e, blocks', j) == FileBlock(g, e, blocks, j))
            && KeepsMapped(g, e, blocks, e, blocks')
  {
    var ind := BlockAt(blocks, e.indirect);
    var blocks' := blocks[e.indirect := ind.(addrs := ind.addrs[idx - g.numDirect := b])];
    assert forall j: nat :: j != idx ==> FileBlock(g, e, blocks', j) == FileBlock(g, e, blocks, j);
    forall j: nat | j < g.numDirect + g.numIndirect && FileBlock(g, e, blocks, j) != 0
      ensures BlockAt(blocks', FileBlock(g, e, blocks, j)).data == BlockAt(blocks, FileBlock(g, e, blocks, j)).data
    {
    }
  }

  /** Replacing a block by one with the same address words leaves the
      file's block map, and so its soundness, as it was. */
  lemma SameAddrsFrame(g: Geometry, e: InodeEntry, blocks: map<nat, Block>, used: set<nat>, bno: nat, nb: Block)
    requires FileWF(g, e, blocks, used) && nb.addrs == BlockAt(blocks, bno).addrs
    ensures forall j: nat :: FileBlock(g, e, blocks[bno := nb], j) == FileBlock(g, e, blocks, j)
    ensures FileWF(g, e, blocks[bno := nb], used)
  {
    assert forall b :: BlockAt(blocks[bno := nb], b).addrs == BlockAt(blocks, b).addrs;
    var blocks' := blocks[bno := nb];
    assert forall j: nat :: FileBlock(g, e, blocks', j) == FileBlock(g, e, blocks, j);
    assert forall i: nat, j: nat :: i < j < g.numDirect + g.numIndirect && FileBlock(g, e, blocks', i) != 0 ==>
      FileBlock(g, e, blocks', i) != FileBlock(g, e, blocks', j);
  }

  /** Copying `bytes` into the mapped block of the file's block `idx` at
      `start` changes exactly those bytes of the file (within its
      `INODE_NUM_DIRECT + INODE_NUM_INDIRECT` blocks) and keeps it sound. */
  lemma WriteChunk(g: Geometry, e: InodeEntry, blocks: map<nat, Block>, used: set<nat>,
                   idx: nat, start: nat, bytes: seq<byte>)
    requires g.Valid() && FileWF(g, e, blocks, used)
    requires idx < g.numDirect + g.numIndirect && FileBlock(g, e, blocks, idx) != 0
    ensures var bno := FileBlock(g, e, blocks, idx);
            var blocks' := blocks[bno := BlockAt(blocks, bno).WithBytes(start, bytes)];
            && FileWF(g, e, blocks', used)
            && (forall j: nat :: FileBlock(g, e, blocks', j) == FileBlock(g, e, blocks, j))
            && (forall off: nat :: off / g.blockSize < g.numDirect + g.numIndirect ==>
                  FileByte(g, e, blocks', off) ==
                    if off / g.blockSize == idx && start <= off % g.blockSize < start + |bytes|
                    then bytes[off % g.blockSize - start]
                    else FileByte(g, e, blocks, off))
  {
    var bno := FileBlock(g, e, blocks, idx);
    var blocks' := blocks[bno := BlockAt(blocks, bno).WithBytes(start, bytes)];
    SameAddrsFrame(g, e, blocks, used, bno, BlockAt(blocks, bno).WithBytes(start, bytes));
    forall off: nat | off / g.blockSize < g.numDirect + g.numIndirect
      ensures FileByte(g, e, blocks', off) ==
                if off / g.blockSize == idx && start <= off % g.blockSize < start + |bytes|
                then bytes[off % g.blockSize - start]
                else FileByte(g, e, blocks, off)
    {
      WriteChunkByte(g, e, blocks, used, idx, start, bytes, off / g.blockSize, off % g.blockSize);
    }
  }

  /** One byte of `WriteChunk`: byte `k` of the file's block `j` other
      than the written one keeps its value, because a sound file maps
      distinct blocks. */
  lemma WriteChunkByte(g: Geometry, e: InodeEntry, blocks: map<nat, Block>, used: set<nat>,
                       idx: nat, start: nat, bytes: seq<byte>, j: nat, k: nat)
    requires FileWF(g, e, blocks, used)
    requires idx < g.numDirect + g.numIndirect && FileBlock(g, e, blocks, idx) != 0
    requires j < g.numDirect + g.numIndirect
    ensures var bno := FileBlock(g, e, blocks, idx);
            var blocks' := blocks[bno := BlockAt(blocks, bno).WithBytes(start, bytes)];
            BlockAt(blocks', FileBlock(g, e, blocks', j)).Byte(k) ==
              if j == idx && start <= k < start + |bytes|
              then bytes[k - start]
              else BlockAt(blocks, FileBlock(g, e, blocks, j)).Byte(k)
  {
    var bno := FileBlock(g, e, blocks, idx);
    var nb := BlockAt(blocks, bno).WithBytes(start, bytes);
    assert FileBlock(g, e, blocks[bno := nb], j) == FileBlock(g, e, blocks, j) by {
      if j >= g.numDirect && e.indirect != 0 {
        assert BlockAt(blocks[bno := nb], e.indirect).addrs == BlockAt(blocks, e.indirect).addrs;
      }
    }
    if j != idx && FileBlock(g, e, blocks, j) != 0 {
      if j < idx {
        assert FileBlock(g, e, blocks, j) != bno;
      } else {
        assert FileBlock(g, e, blocks, idx) != FileBlock(g, e, blocks, j);
      }
    }
  }

  // ---------------------------------------------------------------------
  // Chunks of the read and write loops

  /** The bytes `start .. start+n-1` of the block mapped as the file's
      block `q` are the file's bytes from `q*BLOCK_SIZE + start`. */
  lemma ChunkBytes(g: Geometry, e: InodeEntry, blocks: map<nat, Block>, q: nat, start: nat, n: nat)
    requires g.Valid() && start + n <= g.blockSize
    ensures BlockAt(blocks, FileBlock(g, e, blocks, q)).Bytes(start, n) == FileBytes(g, e, blocks, q * g.blockSize + start, n)
  {
    forall k | 0 <= k < n
      ensures BlockAt(blocks, FileBlock(g, e, blocks, q)).Bytes(start, n)[k]
              == FileBytes(g, e, blocks, q * g.blockSize + start, n)[k]
    {
      Arith.BlockOffset(q, start + k, g.blockSize);
      assert q * g.blockSize + start + k == q * g.blockSize + (start + k);
    }
  }

  /** One step of the read and write loops: the chunk of block `i = q *
      BLOCK_SIZE` extends the bytes copied so far, `[offset, max(min(i,
      end), offset))`, to those up to `min(i + BLOCK_SIZE, end)`. */
  lemma ChunkStep(g: Geometry, e: InodeEntry, blocks: map<nat, Block>, offset: nat, end: nat, q: nat, done: seq<byte>)
    requires g.Valid() && offset <= end && q * g.blockSize <= end
    requires offset / g.blockSize <= q && offset < q * g.blockSize + g.blockSize
    requires |done| == Max(Min(q * g.blockSize, end), offset) - offset
    requires done == FileBytes(g, e, blocks, offset, |done|)
    ensures var i := q * g.blockSize;
            && 0 <= ChunkStart(i, offset) <= ChunkTerm(g, i, end) <= g.blockSize
            && |done| + (ChunkTerm(g, i, end) - ChunkStart(i, offset)) == Max(Min(i + g.blockSize, end), offset) - offset
            && done + BlockAt(blocks, FileBlock(g, e, blocks, q)).Bytes(ChunkStart(i, offset), ChunkTerm(g, i, end) - ChunkStart(i, offset))
               == FileBytes(g, e, blocks, offset, |done| + (ChunkTerm(g, i, end) - ChunkStart(i, offset)))
  {
    var i := q * g.blockSize;
    Arith.RoundDown(offset, g.blockSize);
    Arith.MulMono(offset / g.blockSize, q, g.blockSize);
    ChunkBounds(g, i, offset, end);
    var start, term := ChunkStart(i, offset), ChunkTerm(g, i, end);
    ChunkBytes(g, e, blocks, q, start, term - start);
    FileBytesSplit(g, e, blocks, offset, |done|, term - start);
  }

  /** The disk image after `bytes` are copied into block `bno` at
      `start`. */
  function WriteInto(blocks: map<nat, Block>, bno: nat, start: nat, bytes: seq<byte>): map<nat, Block>
  {
    blocks[bno := BlockAt(blocks, bno).WithBytes(start, bytes)]
  }

  /** Offset `off` lies in bytes `start .. term-1` of the file's block
      `q` exactly when it lies in `[q*BLOCK_SIZE + start, q*BLOCK_SIZE +
      term)`. */
  lemma InChunk(g: Geometry, q: nat, start: nat, term: nat, off: nat)
    requires g.Valid() && start <= term <= g.blockSize
    ensures (q * g.blockSize + start <= off < q * g.blockSize + term) <==>
            (off / g.blockSize == q && start <= off % g.blockSize < term)
  {
    Arith.RoundDown(off, g.blockSize);
    if q * g.blockSize + start <= off < q * g.blockSize + term {
      Arith.BlockOffset(q, off - q * g.blockSize, g.blockSize);
    }
  }

  /** Where a step of the read and write loops copies: for block `i = q *
      BLOCK_SIZE`, the chunk `[start, term)` holds the file bytes from
      `offset + pos` to `min(i + BLOCK_SIZE, end)`, where `pos` counts the
      bytes already copied. */
  lemma ChunkPlace(g: Geometry, offset: nat, end: nat, q: nat, pos: nat)
    requires g.Valid() && offset <= end && q * g.blockSize <= end
    requires offset / g.blockSize <= q && offset < q * g.blockSize + g.blockSize
    requires pos == Max(q * g.blockSize, offset) - offset
    ensures var i := q * g.blockSize;
            && 0 <= ChunkStart(i, offset) <= ChunkTerm(g, i, end) <= g.blockSize
            && offset + pos == i + ChunkStart(i, offset)
            && pos + (ChunkTerm(g, i, end) - ChunkStart(i, offset)) == Min(i + g.blockSize, end) - offset
  {
    Arith.RoundDown(offset, g.blockSize);
    Arith.MulMono(offset / g.blockSize, q, g.blockSize);
    ChunkBounds(g, q * g.blockSize, offset, end);
  }

  /** One step of the write loop on a sound file whose block `q` is
      mapped: copying `src[pos .. pos + term - start]` into bytes
      `start .. term-1` of that block writes exactly those file bytes and
      keeps the file sound and its block map. */
  lemma WriteStep(g: Geometry, e: InodeEntry, blocks: map<nat, Block>, used: set<nat>,
                  offset: nat, src: seq<byte>, q: nat, start: nat, term: nat, pos: nat)
    requires g.Valid() && FileWF(g, e, blocks, used)
    requires q < g.numDirect + g.numIndirect && FileBlock(g, e, blocks, q) != 0
    requires start <= term <= g.blockSize
    requires offset + pos == q * g.blockSize + start && pos + (term - start) <= |src|
    ensures var blocks' := WriteInto(blocks, FileBlock(g, e, blocks, q), start, src[pos..pos + (term - start)]);
            && FileWF(g, e, blocks', used)
            && (forall j: nat :: FileBlock(g, e, blocks', j) == FileBlock(g, e, blocks, j))
            && (forall off: nat ::
                  (off / g.blockSize < g.numDirect + g.numIndirect
                   && !(offset + pos <= off < offset + pos + (term - start))) ==>
                  FileByte(g, e, blocks', off) == FileByte(g, e, blocks, off))
            && (forall k :: pos <= k < pos + (term - start) ==> FileByte(g, e, blocks', offset + k) == src[k])
  {
    var chunk := src[pos..pos + (term - start)];
    WriteChunk(g, e, blocks, used, q, start, chunk);
    var bno := FileBlock(g, e, blocks, q);
    var blocks' := blocks[bno := BlockAt(blocks, bno).WithBytes(start, chunk)];
    forall off: nat | off / g.blockSize < g.numDirect + g.numIndirect
                      && !(offset + pos <= off < offset + pos + (term - start))
      ensures FileByte(g, e, blocks', off) == FileByte(g, e, blocks, off)
    {
      InChunk(g, q, start, term, off);
    }
    forall k | pos <= k < pos + (term - start)
      ensures FileByte(g, e, blocks', offset + k) == src[k]
    {
      InChunk(g, q, start, term, offset + k);
      Arith.RoundDown(offset + k, g.blockSize);
    }
  }

  /** What the write loop has achieved on a file that was sound in
      `(e0, b0)`, after visiting the blocks before `q` and copying the
      first `pos` bytes of `src` to `offset`: the file is sound, blocks
      mapped before are still mapped, every visited block is mapped, the
      copied bytes hold `src`, and every other byte of a block mapped before
      is unchanged. */
  ghost predicate WriteProgress(g: Geometry, e0: InodeEntry, b0: map<nat, Block>,
                                e: InodeEntry, blocks: map<nat, Block>, used: set<nat>,
                                offset: nat, src: seq<byte>, q: nat, pos: nat)
    requires g.Valid()
  {
    && FileWF(g, e, blocks, used)
    && MapKept(g, e0, b0, e, blocks)
    && Visited(g, e, blocks, offset, q)
    && Copied(g, e, blocks, offset, src, pos)
    && Untouched(g, e0, b0, e, blocks, offset, pos)
  }

  /** Every block mapped in `(e0, b0)` is mapped to the same block. */
  ghost predicate MapKept(g: Geometry, e0: InodeEntry, b0: map<nat, Block>, e: InodeEntry, blocks: map<nat, Block>)
  {
    forall idx: nat :: idx < g.numDirect + g.numIndirect && FileBlock(g, e0, b0, idx) != 0 ==>
      FileBlock(g, e, blocks, idx) == FileBlock(g, e0, b0, idx)
  }

  /** The file's blocks from the one holding `offset` up to `q - 1` are
      mapped. */
  ghost predicate Visited(g: Geometry, e: InodeEntry, blocks: map<nat, Block>, offset: nat, q: nat)
    requires g.blockSize > 0
  {
    && (offset / g.blockSize < q ==> q <= g.numDirect + g.numIndirect)
    && forall idx: nat :: offset / g.blockSize <= idx < q ==> FileBlock(g, e, blocks, idx) != 0
  }

  /** The file bytes `[offset, offset + pos)` hold `src[..pos]`. */
  ghost predicate Copied(g: Geometry, e: InodeEntry, blocks: map<nat, Block>, offset: nat, src: seq<byte>, pos: nat)
    requires g.Valid()
  {
    forall off: nat :: offset <= off < offset + pos && off - offset < |src| ==>
      FileByte(g, e, blocks, off) == src[off - offset]
  }

  /** Outside `[offset, offset + pos)`, every byte of a block mapped in
      `(e0, b0)` is unchanged. */
  ghost predicate Untouched(g: Geometry, e0: InodeEntry, b0: map<nat, Block>, e: InodeEntry, blocks: map<nat, Block>,
                            offset: nat, pos: nat)
    requires g.Valid()
  {
    forall off: nat ::
      (off / g.blockSize < g.numDirect + g.numIndirect && FileBlock(g, e0, b0, off / g.blockSize) != 0
       && !(offset <= off < offset + pos)) ==>
      FileByte(g, e, blocks, off) == FileByte(g, e0, b0, off)
  }

  /** Mapping block `q` (`inode_map`) keeps the progress and adds `q` to
      the visited blocks. */
  lemma ProgressAfterMap(g: Geometry, e0: InodeEntry, b0: map<nat, Block>,
                         e1: InodeEntry, b1: map<nat, Block>, u1: set<nat>,
                         e2: InodeEntry, b2: map<nat, Block>, u2: set<nat>,
                         offset: nat, src: seq<byte>, q: nat, pos: nat)
    requires g.Valid() && WriteProgress(g, e0, b0, e1, b1, u1, offset, src, q, pos)
    requires FileWF(g, e2, b2, u2) && KeepsMapped(g, e1, b1, e2, b2)
    requires q < g.numDirect + g.numIndirect && FileBlock(g, e2, b2, q) != 0
    requires offset + pos <= q * g.blockSize || pos == 0
    ensures WriteProgress(g, e0, b0, e2, b2, u2, offset, src, q + 1, pos)
  {
    MapKeptAfterMap(g, e0, b0, e1, b1, e2, b2);
    VisitedAfterMap(g, e1, b1, e2, b2, offset, q);
    CopiedAfterMap(g, e1, b1, e2, b2, offset, src, q, pos);
    UntouchedAfterMap(g, e0, b0, e1, b1, e2, b2, offset, pos);
  }

  /** `ProgressAfterMap`, for the block map. */
  lemma MapKeptAfterMap(g: Geometry, e0: InodeEntry, b0: map<nat, Block>, e1: InodeEntry, b1: map<nat, Block>,
                        e2: InodeEntry, b2: map<nat, Block>)
    requires MapKept(g, e0, b0, e1, b1) && KeepsMapped(g, e1, b1, e2, b2)
    ensures MapKept(g, e0, b0, e2, b2)
  {
    forall idx: nat | idx < g.numDirect + g.numIndirect && FileBlock(g, e0, b0, idx) != 0
      ensures FileBlock(g, e2, b2, idx) == FileBlock(g, e0, b0, idx)
    {
      assert FileBlock(g, e1, b1, idx) == FileBlock(g, e0, b0, idx);
    }
  }

  /** `ProgressAfterMap`, for the visited blocks. */
  lemma VisitedAfterMap(g: Geometry, e1: InodeEntry, b1: map<nat, Block>, e2: InodeEntry, b2: map<nat, Block>,
                        offset: nat, q: nat)
    requires g.blockSize > 0 && Visited(g, e1, b1, offset, q) && KeepsMapped(g, e1, b1, e2, b2)
    requires q < g.numDirect + g.numIndirect && FileBlock(g, e2, b2, q) != 0
    ensures Visited(g, e2, b2, offset, q + 1)
  {
    forall idx: nat | offset / g.blockSize <= idx < q + 1
      ensures FileBlock(g, e2, b2, idx) != 0
    {
      if idx < q {
        assert FileBlock(g, e1, b1, idx) != 0;
      }
    }
  }

  /** `ProgressAfterMap`, for the bytes already copied. */
  lemma CopiedAfterMap(g: Geometry, e1: InodeEntry, b1: map<nat, Block>, e2: InodeEntry, b2: map<nat, Block>,
                       offset: nat, src: seq<byte>, q: nat, pos: nat)
    requires g.Valid() && Visited(g, e1, b1, offset, q) && Copied(g, e1, b1, offset, src, pos)
    requires KeepsMapped(g, e1, b1, e2, b2)
    requires offset + pos <= q * g.blockSize || pos == 0
    ensures Copied(g, e2, b2, offset, src, pos)
  {
    forall off: nat | offset <= off < offset + pos && off - offset < |src|
      ensures FileByte(g, e2, b2, off) == src[off - offset]
    {
      Arith.DivBelow(off, q, g.blockSize);
      Arith.DivMono(offset, off, g.blockSize);
      assert FileBlock(g, e1, b1, off / g.blockSize) != 0;
      KeepsMappedBytes(g, e1, b1, e2, b2, off);
    }
  }

  /** `ProgressAfterMap`, for the bytes outside the copied range. */
  lemma UntouchedAfterMap(g: Geometry, e0: InodeEntry, b0: map<nat, Block>, e1: InodeEntry, b1: map<nat, Block>,
                          e2: InodeEntry, b2: map<nat, Block>, offset: nat, pos: nat)
    requires g.Valid() && MapKept(g, e0, b0, e1, b1) && Untouched(g, e0, b0, e1, b1, offset, pos)
    requires KeepsMapped(g, e1, b1, e2, b2)
    ensures Untouched(g, e0, b0, e2, b2, offset, pos)
  {
    forall off: nat | off / g.blockSize < g.numDirect + g.numIndirect && FileBlock(g, e0, b0, off / g.blockSize) != 0
                      && !(offset <= off < offset + pos)
      ensures FileByte(g, e2, b2, off) == FileByte(g, e0, b0, off)
    {
      assert FileBlock(g, e1, b1, off / g.blockSize) == FileBlock(g, e0, b0, off / g.blockSize);
      KeepsMappedBytes(g, e1, b1, e2, b2, off);
    }
  }


  /** Copying the chunk of block `q` (`memcpy` into the mapped block)
      extends the copied bytes from `pos` to `pos + term - start`. */
  lemma ProgressAfterChunk(g: Geometry, e0: InodeEntry, b0: map<nat, Block>,
                           e: InodeEntry, blocks: map<nat, Block>, used: set<nat>,
                           offset: nat, src: seq<byte>, q: nat, start: nat, term: nat, pos: nat)
    requires g.Valid() && WriteProgress(g, e0, b0, e, blocks, used, offset, src, q + 1, pos)
    requires q < g.numDirect + g.numIndirect && FileBlock(g, e, blocks, q) != 0 && start <= term <= g.blockSize
    requires offset + pos == q * g.blockSize + start && pos + (term - start) <= |src|
    ensures WriteProgress(g, e0, b0, e, WriteInto(blocks, FileBlock(g, e, blocks, q), start, src[pos..pos + (term - start)]),
                          used, offset, src, q + 1, pos + (term - start))
  {
    WriteStep(g, e, blocks, used, offset, src, q, start, term, pos);
    var blocks' := WriteInto(blocks, FileBlock(g, e, blocks, q), start, src[pos..pos + (term - start)]);
    ProgressExtends(g, e0, b0, e, blocks, blocks', used, offset, src, q, pos, pos + (term - start));
  }

  /** The progress carries over to a disk image that keeps the block map
      and the soundness, writes `src` at `[offset + pos, offset + pos')`
      inside block `q`, and changes no other byte. */
  lemma ProgressExtends(g: Geometry, e0: InodeEntry, b0: map<nat, Block>,
                        e: InodeEntry, blocks: map<nat, Block>, blocks': map<nat, Block>, used: set<nat>,
                        offset: nat, src: seq<byte>, q: nat, pos: nat, pos': nat)
    requires g.Valid() && WriteProgress(g, e0, b0, e, blocks, used, offset, src, q + 1, pos)
    requires pos <= pos' <= |src| && offset + pos' <= (q + 1) * g.blockSize && q < g.numDirect + g.numIndirect
    requires FileWF(g, e, blocks', used)
    requires forall j: nat :: FileBlock(g, e, blocks', j) == FileBlock(g, e, blocks, j)
    requires forall off: nat ::
               (off / g.blockSize < g.numDirect + g.numIndirect && !(offset + pos <= off < offset + pos')) ==>
               FileByte(g, e, blocks', off) == FileByte(g, e, blocks, off)
    requires forall k :: pos <= k < pos' ==> FileByte(g, e, blocks', offset + k) == src[k]
    ensures WriteProgress(g, e0, b0, e, blocks', used, offset, src, q + 1, pos')
  {
    SameMapKept(g, e0, b0, e, blocks, blocks');
    SameVisited(g, e, blocks, blocks', offset, q + 1);
    CopiedExtends(g, e, blocks, blocks', offset, src, q, pos, pos');
    UntouchedExtends(g, e0, b0, e, blocks, blocks', offset, pos, pos');
  }

  lemma SameMapKept(g: Geometry, e0: InodeEntry, b0: map<nat, Block>, e: InodeEntry, blocks: map<nat, Block>, blocks': map<nat, Block>)
    requires MapKept(g, e0, b0, e, blocks)
    requires forall j: nat :: FileBlock(g, e, blocks', j) == FileBlock(g, e, blocks, j)
    ensures MapKept(g, e0, b0, e, blocks')
  {
    forall idx: nat | idx < g.numDirect + g.numIndirect && FileBlock(g, e0, b0, idx) != 0
      ensures FileBlock(g, e, blocks', idx) == FileBlock(g, e0, b0, idx)
    {
      assert FileBlock(g, e, blocks', idx) == FileBlock(g, e, blocks, idx);
    }
  }

  lemma SameVisited(g: Geometry, e: InodeEntry, blocks: map<nat, Block>, blocks': map<nat, Block>, offset: nat, q: nat)
    requires g.blockSize > 0 && Visited(g, e, blocks, offset, q)
    requires forall j: nat :: FileBlock(g, e, blocks', j) == FileBlock(g, e, blocks, j)
    ensures Visited(g, e, blocks', offset, q)
  {
    forall idx: nat | offset / g.blockSize <= idx < q
      ensures FileBlock(g, e, blocks', idx) != 0
    {
      assert FileBlock(g, e, blocks', idx) == FileBlock(g, e, blocks, idx);
    }
  }

  lemma CopiedExtends(g: Geometry, e: InodeEntry, blocks: map<nat, Block>, blocks': map<nat, Block>,
                      offset: nat, src: seq<byte>, q: nat, pos: nat, pos': nat)
    requires g.Valid() && Copied(g, e, blocks, offset, src, pos)
    requires pos <= pos' <= |src| && offset + pos' <= (q + 1) * g.blockSize && q < g.numDirect + g.numIndirect
    requires forall off: nat ::
               (off / g.blockSize < g.numDirect + g.numIndirect && !(offset + pos <= off < offset + pos')) ==>
               FileByte(g, e, blocks', off) == FileByte(g, e, blocks, off)
    requires forall k :: pos <= k < pos' ==> FileByte(g, e, blocks', offset + k) == src[k]
    ensures Copied(g, e, blocks', offset, src, pos')
  {
    forall off: nat | offset <= off < offset + pos' && off - offset < |src|
      ensures FileByte(g, e, blocks', off) == src[off - offset]
    {
      if off < offset + pos {
        Arith.DivBelow(off, q + 1, g.blockSize);
      } else {
        assert FileByte(g, e, blocks', offset + (off - offset)) == src[off - offset];
      }
    }
  }

  lemma UntouchedExtends(g: Geometry, e0: InodeEntry, b0: map<nat, Block>, e: InodeEntry,
                         blocks: map<nat, Block>, blocks': map<nat, Block>, offset: nat, pos: nat, pos': nat)
    requires g.Valid() && Untouched(g, e0, b0, e, blocks, offset, pos) && pos <= pos'
    requires forall off: nat ::
               (off / g.blockSize < g.numDirect + g.numIndirect && !(offset + pos <= off < offset + pos')) ==>
               FileByte(g, e, blocks', off) == FileByte(g, e, blocks, off)
    ensures Untouched(g, e0, b0, e, blocks', offset, pos')
  {
  }

  /** What `inode_write` achieves on a file that was sound in `(e0, b0)`:
      the file is still sound, its bytes `[offset, offset + |src|)` are
      `src` and a read of them passes `inode_map2`'s checks, every block
      mapped before is mapped to the same block, and every other byte of
      those blocks is unchanged. */
  ghost predicate WriteDone(g: Geometry, e0: InodeEntry, b0: map<nat, Block>,
                            e: InodeEntry, blocks: map<nat, Block>, used: set<nat>, offset: nat, src: seq<byte>)
    requires g.Valid()
  {
    && FileWF(g, e, blocks, used)
    && FileBytes(g, e, blocks, offset, |src|) == src
    && Readable(g, e, blocks, offset, offset + |src|)
    && MapKept(g, e0, b0, e, blocks)
    && Untouched(g, e0, b0, e, blocks, offset, |src|)
  }

  /** Once the write loop has copied all of `src` and passed the block
      holding its last byte, the write is done. */
  lemma ProgressDone(g: Geometry, e0: InodeEntry, b0: map<nat, Block>,
                     e: InodeEntry, blocks: map<nat, Block>, used: set<nat>,
                     offset: nat, src: seq<byte>, q: nat)
    requires g.Valid() && WriteProgress(g, e0, b0, e, blocks, used, offset, src, q, |src|)
    requires offset + |src| < q * g.blockSize && offset + |src| <= g.maxBytes
    ensures WriteDone(g, e0, b0, e, blocks, used, offset, src)
  {
    assert FileBytes(g, e, blocks, offset, |src|) == src by {
      forall k | 0 <= k < |src|
        ensures FileBytes(g, e, blocks, offset, |src|)[k] == src[k]
      {
        assert FileByte(g, e, blocks, offset + k) == src[(offset + k) - offset];
      }
    }
    assert Readable(g, e, blocks, offset, offset + |src|) by {
      forall idx: nat | offset / g.blockSize <= idx && idx * g.blockSize < offset + |src|
        ensures idx * g.blockSize < g.maxBytes && FileBlock(g, e, blocks, idx) != 0
      {
        Arith.MulMono(q, idx, g.blockSize);
      }
    }
  }

  /** Changing an entry's size and writing any inode entry to the disk
      image keep what a write achieved: neither touches a block map or the
      bytes of a block. */
  lemma WriteDoneFrame(g: Geometry, sb: SuperBlock, e0: InodeEntry, b0: map<nat, Block>,
                       e: InodeEntry, blocks: map<nat, Block>, used: set<nat>, offset: nat, src: seq<byte>,
                       e': InodeEntry, k: nat, x: InodeEntry)
    requires g.Valid() && WriteDone(g, e0, b0, e, blocks, used, offset, src)
    requires e'.addrs == e.addrs && e'.indirect == e.indirect
    ensures WriteDone(g, e0, b0, e', blocks, used, offset, src)
    ensures WriteDone(g, e0, b0, e', WithDiskEntry(g, sb, blocks, k, x), used, offset, src)
  {
    assert forall j: nat :: FileBlock(g, e', blocks, j) == FileBlock(g, e, blocks, j);
    assert forall off: nat :: FileByte(g, e', blocks, off) == FileByte(g, e, blocks, off);
    assert FileBytes(g, e', blocks, offset, |src|) == FileBytes(g, e, blocks, offset, |src|);
    var blocks' := WithDiskEntry(g, sb, blocks, k, x);
    assert forall j: nat :: FileBlock(g, e', blocks', j) == FileBlock(g, e, blocks, j);
    assert forall off: nat :: FileByte(g, e', blocks', off) == FileByte(g, e, blocks, off);
    assert FileBytes(g, e', blocks', offset, |src|) == FileBytes(g, e, blocks, offset, |src|);
  }

  /** Readability of a range carries over to every range inside it. */
  lemma ReadableWithin(g: Geometry, e: InodeEntry, blocks: map<nat, Block>, lo: nat, hi: nat, a: nat, b: nat)
    requires g.Valid() && lo <= a && b <= hi && Readable(g, e, blocks, lo, hi)
    ensures Readable(g, e, blocks, a, b)
  {
    Arith.DivMono(lo, a, g.blockSize);
  }

  /** A slice of a range of file bytes is the range of the slice. */
  lemma FileBytesWithin(g: Geometry, e: InodeEntry, blocks: map<nat, Block>, off: nat, n: nat, a: nat, m: nat)
    requires g.Valid() && off <= a && a + m <= off + n
    ensures FileBytes(g, e, blocks, off, n)[a - off..a - off + m] == FileBytes(g, e, blocks, a, m)
  {
    forall k | 0 <= k < m
      ensures FileBytes(g, e, blocks, off, n)[a - off..a - off + m][k] == FileBytes(g, e, blocks, a, m)[k]
    {
      assert off + (a - off + k) == a + k;
    }
  }

  /** A write at the end of a file that was readable up to there leaves
      the file readable up to the write's end, holding the old bytes
      followed by `src`. */
  lemma AppendBytes(g: Geometry, e0: InodeEntry, b0: map<nat, Block>,
                    e: InodeEntry, blocks: map<nat, Block>, used: set<nat>, nb: nat, src: seq<byte>)
    requires g.Valid() && WriteDone(g, e0, b0, e, blocks, used, nb, src) && Readable(g, e0, b0, 0, nb)
    ensures FileBytes(g, e, blocks, 0, nb + |src|) == FileBytes(g, e0, b0, 0, nb) + src
    ensures Readable(g, e, blocks, 0, nb + |src|)
  {
    var f := FileBytes(g, e, blocks, 0, nb + |src|);
    forall k | 0 <= k < nb + |src|
      ensures f[k] == (FileBytes(g, e0, b0, 0, nb) + src)[k]
    {
      if k < nb {
        AppendKeeps(g, e0, b0, e, blocks, used, nb, src, k);
      } else {
        assert FileBytes(g, e, blocks, nb, |src|)[k - nb] == FileByte(g, e, blocks, nb + (k - nb));
      }
    }
    forall idx: nat | 0 / g.blockSize <= idx && idx * g.blockSize < nb + |src|
      ensures idx * g.blockSize < g.maxBytes && FileBlock(g, e, blocks, idx) != 0
    {
      Arith.BlockOffset(idx, 0, g.blockSize);
      if idx * g.blockSize < nb {
        AppendKeeps(g, e0, b0, e, blocks, used, nb, src, idx * g.blockSize);
      } else {
        Arith.DivMono(nb, idx * g.blockSize, g.blockSize);
      }
    }
  }

  /** Below the end of a write at the end of a readable file, blocks and
      bytes are as before. */
  lemma AppendKeeps(g: Geometry, e0: InodeEntry, b0: map<nat, Block>,
                    e: InodeEntry, blocks: map<nat, Block>, used: set<nat>, nb: nat, src: seq<byte>, off: nat)
    requires g.Valid() && WriteDone(g, e0, b0, e, blocks, used, nb, src) && Readable(g, e0, b0, 0, nb)
    requires off < nb
    ensures FileBlock(g, e, blocks, off / g.blockSize) == FileBlock(g, e0, b0, off / g.blockSize) != 0
    ensures FileByte(g, e, blocks, off) == FileByte(g, e0, b0, off)
  {
    var idx := off / g.blockSize;
    Arith.RoundDown(off, g.blockSize);
    assert idx * g.blockSize < g.maxBytes && FileBlock(g, e0, b0, idx) != 0;
    Arith.MulMono(g.numDirect + g.numIndirect, idx, g.blockSize);
    assert MapKept(g, e0, b0, e, blocks);
    assert Untouched(g, e0, b0, e, blocks, nb, |src|);
  }

  /** Consecutive ranges of file bytes concatenate. */
  lemma FileBytesSplit(g: Geometry, e: InodeEntry, blocks: map<nat, Block>, off: nat, a: nat, b: nat)
    requires g.Valid()
    ensures FileBytes(g, e, blocks, off, a) + FileBytes(g, e, blocks, off + a, b) == FileBytes(g, e, blocks, off, a + b)
  {
  }

  // ---------------------------------------------------------------------
  // What mapping and writing may change on disk

  /** The blocks of a file: its indirect block and every block it maps. */
  ghost function FileBlocks(g: Geometry, e: InodeEntry, blocks: map<nat, Block>): set<nat>
  {
    (if e.indirect == 0 then {} else {e.indirect})
      + set idx: nat | idx < g.numDirect + g.numIndirect && FileBlock(g, e, blocks, idx) != 0
                     :: FileBlock(g, e, blocks, idx)
  }

  /** Every block of `used` outside `except` is the same in both images. */
  ghost predicate ChangedOnly(blocks: map<nat, Block>, blocks': map<nat, Block>, used: set<nat>, except: set<nat>)
  {
    forall b :: b in used && b !in except ==> BlockAt(blocks', b) == BlockAt(blocks, b)
  }

  /** Every block below `limit` holds the same inode entries in both images. */
  ghost predicate EntriesKept(blocks: map<nat, Block>, blocks': map<nat, Block>, limit: nat)
  {
    forall b: nat :: b < limit ==> BlockAt(blocks', b).entries == BlockAt(blocks, b).entries
  }

  /** The disk entry of every inode other than `k0` is the same in both images. */
  ghost predicate OtherEntriesKept(g: Geometry, sb: SuperBlock, blocks: map<nat, Block>, blocks': map<nat, Block>, k0: nat)
    requires g.Valid()
  {
    forall k: nat :: k < sb.numInodes && k != k0 ==> DiskEntry(g, sb, blocks', k) == DiskEntry(g, sb, blocks, k)
  }

  /** Each block the second state of a file uses (its indirect block, or
      the block at an index) is the one the first state used there, or
      was not in `used`. */
  ghost predicate OldOrFresh(g: Geometry, e: InodeEntry, blocks: map<nat, Block>,
                             e': InodeEntry, blocks': map<nat, Block>, used: set<nat>)
  {
    && (e'.indirect == e.indirect || e'.indirect !in used)
    && forall idx: nat :: FileBlock(g, e', blocks', idx) != 0 ==>
         FileBlock(g, e', blocks', idx) == FileBlock(g, e, blocks, idx) || FileBlock(g, e', blocks', idx) !in used
  }

  /** What the copy loop of `inode_write` keeps while it runs, from the
      file `e0` over `b0` with `u0` in use: every block it uses is old or
      fresh, only the file's old blocks and fresh blocks changed, and no
      block below `limit` changed its inode entries. */
  ghost predicate WriteFrame(g: Geometry, e0: InodeEntry, b0: map<nat, Block>, u0: set<nat>,
                             e: InodeEntry, blocks: map<nat, Block>, used: set<nat>, limit: nat)
  {
    && u0 <= used && OldOrFresh(g, e0, b0, e, blocks, u0)
    && ChangedOnly(b0, blocks, u0, FileBlocks(g, e0, b0)) && EntriesKept(b0, blocks, limit)
  }

  /** Changing one more block, excepted or not in use, keeps `ChangedOnly`. */
  lemma ChangedAt(b0: map<nat, Block>, b1: map<nat, Block>, used: set<nat>, except: set<nat>, y: nat, blk: Block)
    requires ChangedOnly(b0, b1, used, except) && (y in except || y !in used)
    ensures ChangedOnly(b0, b1[y := blk], used, except)
  {
  }

  /** A second change confined to blocks that are excepted or were not in
      use keeps `ChangedOnly`. */
  lemma ChangedOnlyTrans(b0: map<nat, Block>, b1: map<nat, Block>, b2: map<nat, Block>,
                         u0: set<nat>, u1: set<nat>, except: set<nat>, except': set<nat>)
    requires ChangedOnly(b0, b1, u0, except) && ChangedOnly(b1, b2, u1, except') && u0 <= u1
    requires forall y :: y in except' && y in u0 ==> y in except
    ensures ChangedOnly(b0, b2, u0, except)
  {
  }

  /** Changing a block at or past `limit`, or only its bytes and block
      numbers, keeps `EntriesKept`. */
  lemma EntriesAt(b0: map<nat, Block>, b1: map<nat, Block>, limit: nat, y: nat, blk: Block)
    requires EntriesKept(b0, b1, limit) && (y >= limit || blk.entries == BlockAt(b1, y).entries)
    ensures EntriesKept(b0, b1[y := blk], limit)
  {
  }

  lemma EntriesKeptTrans(b0: map<nat, Block>, b1: map<nat, Block>, b2: map<nat, Block>, limit: nat)
    requires EntriesKept(b0, b1, limit) && EntriesKept(b1, b2, limit)
    ensures EntriesKept(b0, b2, limit)
  {
  }

  lemma OldOrFreshTrans(g: Geometry, e1: InodeEntry, b1: map<nat, Block>, e2: InodeEntry, b2: map<nat, Block>,
                        e3: InodeEntry, b3: map<nat, Block>, u1: set<nat>, u2: set<nat>)
    requires OldOrFresh(g, e1, b1, e2, b2, u1) && OldOrFresh(g, e2, b2, e3, b3, u2) && u1 <= u2
    ensures OldOrFresh(g, e1, b1, e3, b3, u1)
  {
    forall idx: nat | FileBlock(g, e3, b3, idx) != 0
      ensures FileBlock(g, e3, b3, idx) == FileBlock(g, e1, b1, idx) || FileBlock(g, e3, b3, idx) !in u1
    {
      if FileBlock(g, e3, b3, idx) == FileBlock(g, e2, b2, idx) {
        assert FileBlock(g, e2, b2, idx) != 0;
      }
    }
  }

  /** `alloc` zeroing a block not in use maps no old block anywhere new. */
  lemma ZeroedOldOrFresh(g: Geometry, e: InodeEntry, blocks: map<nat, Block>, used: set<nat>, x: nat)
    requires x !in used
    ensures OldOrFresh(g, e, blocks, e, blocks[x := ZeroBlock], used)
  {
    forall idx: nat | FileBlock(g, e, blocks[x := ZeroBlock], idx) != 0
      ensures FileBlock(g, e, blocks[x := ZeroBlock], idx) == FileBlock(g, e, blocks, idx)
    {
    }
  }

  /** Filling a direct slot with a block not in use. */
  lemma DirectOldOrFresh(g: Geometry, e: InodeEntry, blocks: map<nat, Block>, used: set<nat>, idx: nat, x: nat)
    requires idx < g.numDirect && x !in used
    ensures OldOrFresh(g, e, blocks, e.(addrs := e.addrs[idx := x]), blocks, used)
  {
    var e' := e.(addrs := e.addrs[idx := x]);
    forall j: nat | FileBlock(g, e', blocks, j) != 0
      ensures FileBlock(g, e', blocks, j) == FileBlock(g, e, blocks, j) || FileBlock(g, e', blocks, j) !in used
    {
    }
  }

  /** Installing a zeroed block not in use as the indirect block. */
  lemma IndirectOldOrFresh(g: Geometry, e: InodeEntry, blocks: map<nat, Block>, used: set<nat>, x: nat)
    requires x !in used && BlockAt(blocks, x) == ZeroBlock
    ensures OldOrFresh(g, e, blocks, e.(indirect := x), blocks, used)
  {
    var e' := e.(indirect := x);
    forall j: nat | FileBlock(g, e', blocks, j) != 0
      ensures FileBlock(g, e', blocks, j) == FileBlock(g, e, blocks, j)
    {
    }
  }

  /** Filling slot `s` of the indirect block with a block not in use. */
  lemma SlotOldOrFresh(g: Geometry, e: InodeEntry, blocks: map<nat, Block>, used: set<nat>, s: nat, x: nat)
    requires x !in used
    ensures var ind := BlockAt(blocks, e.indirect);
            OldOrFresh(g, e, blocks, e, blocks[e.indirect := ind.(addrs := ind.addrs[s := x])], used)
  {
    var ind := BlockAt(blocks, e.indirect);
    var blocks' := blocks[e.indirect := ind.(addrs := ind.addrs[s := x])];
    forall j: nat | FileBlock(g, e, blocks', j) != 0
      ensures FileBlock(g, e, blocks', j) == FileBlock(g, e, blocks, j) || FileBlock(g, e, blocks', j) !in used
    {
    }
  }

  /** Copying bytes into a block changes no block number. */
  lemma BytesOldOrFresh(g: Geometry, e: InodeEntry, blocks: map<nat, Block>, used: set<nat>,
                        b: nat, start: nat, bytes: seq<byte>)
    ensures OldOrFresh(g, e, blocks, e, blocks[b := BlockAt(blocks, b).WithBytes(start, bytes)], used)
  {
    var blocks' := blocks[b := BlockAt(blocks, b).WithBytes(start, bytes)];
    forall j: nat
      ensures FileBlock(g, e, blocks', j) == FileBlock(g, e, blocks, j)
    {
    }
  }

  /** A block the file maps now, at an index below the map's end, is one
      of its blocks before, or was not in use. */
  lemma MappedOldOrFresh(g: Geometry, e0: InodeEntry, b0: map<nat, Block>, e: InodeEntry, blocks: map<nat, Block>,
                         used: set<nat>, idx: nat)
    requires OldOrFresh(g, e0, b0, e, blocks, used)
    requires idx < g.numDirect + g.numIndirect && FileBlock(g, e, blocks, idx) != 0
    ensures FileBlock(g, e, blocks, idx) in FileBlocks(g, e0, b0) || FileBlock(g, e, blocks, idx) !in used
  {
  }

  /** `inode_map` keeps the copy loop's frame. */
  lemma WriteFrameAfterMap(g: Geometry, e0: InodeEntry, b0: map<nat, Block>, u0: set<nat>,
                           e1: InodeEntry, b1: map<nat, Block>, u1: set<nat>,
                           e2: InodeEntry, b2: map<nat, Block>, u2: set<nat>, limit: nat)
    requires WriteFrame(g, e0, b0, u0, e1, b1, u1, limit)
    requires u1 <= u2 && ChangedOnly(b1, b2, u1, {e1.indirect} - {0})
    requires OldOrFresh(g, e1, b1, e2, b2, u1) && EntriesKept(b1, b2, limit)
    ensures WriteFrame(g, e0, b0, u0, e2, b2, u2, limit)
  {
    ChangedOnlyTrans(b0, b1, b2, u0, u1, FileBlocks(g, e0, b0), {e1.indirect} - {0});
    EntriesKeptTrans(b0, b1, b2, limit);
    OldOrFreshTrans(g, e0, b0, e1, b1, e2, b2, u0, u1);
  }

  /** Copying bytes into a block the file maps keeps the copy loop's frame. */
  lemma WriteFrameAfterBytes(g: Geometry, e0: InodeEntry, b0: map<nat, Block>, u0: set<nat>,
                             e: InodeEntry, blocks: map<nat, Block>, used: set<nat>, limit: nat,
                             q: nat, start: nat, bytes: seq<byte>)
    requires WriteFrame(g, e0, b0, u0, e, blocks, used, limit)
    requires q < g.numDirect + g.numIndirect && FileBlock(g, e, blocks, q) != 0
    ensures var bno := FileBlock(g, e, blocks, q);
            WriteFrame(g, e0, b0, u0, e, blocks[bno := BlockAt(blocks, bno).WithBytes(start, bytes)], used, limit)
  {
    var bno := FileBlock(g, e, blocks, q);
    var blk := BlockAt(blocks, bno).WithBytes(start, bytes);
    MappedOldOrFresh(g, e0, b0, e, blocks, u0, q);
    ChangedAt(b0, blocks, u0, FileBlocks(g, e0, b0), bno, blk);
    EntriesAt(b0, blocks, limit, bno, blk);
    BytesOldOrFresh(g, e, blocks, used, bno, start, bytes);
    OldOrFreshTrans(g, e0, b0, e, blocks, e, blocks[bno := blk], u0, used);
  }

  /** Writing back entry `k0` after a change limited to `except` and to
      data blocks: only the table block of `k0` is added to the change,
      and every other inode's entry is kept. */
  lemma WriteBackFrame(g: Geometry, sb: SuperBlock, b0: map<nat, Block>, b1: map<nat, Block>, used: set<nat>,
                       except: set<nat>, limit: nat, k0: nat, e: InodeEntry)
    requires g.Valid() && ChangedOnly(b0, b1, used, except) && EntriesKept(b0, b1, limit)
    requires forall k: nat :: k < sb.numInodes ==> ToBlockNo(g, sb, k) < limit
    ensures ChangedOnly(b0, WithDiskEntry(g, sb, b1, k0, e), used, except + {ToBlockNo(g, sb, k0)})
    ensures OtherEntriesKept(g, sb, b0, WithDiskEntry(g, sb, b1, k0, e), k0)
  {
    forall k: nat | k < sb.numInodes && k != k0
      ensures DiskEntry(g, sb, WithDiskEntry(g, sb, b1, k0, e), k) == DiskEntry(g, sb, b0, k)
    {
      DiskEntryUpdate(g, sb, b1, k0, e, k);
    }
  }

  /** The same frame when the entry is not written back. */
  lemma NoWriteBackFrame(g: Geometry, sb: SuperBlock, b0: map<nat, Block>, b1: map<nat, Block>, used: set<nat>,
                         except: set<nat>, limit: nat, k0: nat)
    requires g.Valid() && ChangedOnly(b0, b1, used, except) && EntriesKept(b0, b1, limit)
    requires forall k: nat :: k < sb.numInodes ==> ToBlockNo(g, sb, k) < limit
    ensures ChangedOnly(b0, b1, used, except + {ToBlockNo(g, sb, k0)})
    ensures OtherEntriesKept(g, sb, b0, b1, k0)
    ensures k0 < sb.numInodes ==> DiskEntry(g, sb, b1, k0) == DiskEntry(g, sb, b0, k0)
  {
  }


  /** `start = MAX(i, offset) - i`: where the copy begins in block `i`. */
  function ChunkStart(i: nat, offset: nat): nat
  {
    Max(i, offset) - i
  }

  /** `term = MIN(i + BLOCK_SIZE, end) - i`: where it ends. */
  function ChunkTerm(g: Geometry, i: nat, end: nat): int
  {
    Min(i + g.blockSize, end) - i
  }

  /** For every block the loops visit, `0 <= start <= term <= BLOCK_SIZE`. */
  lemma ChunkBounds(g: Geometry, i: nat, offset: nat, end: nat)
    requires g.Valid() && offset <= end && i <= end
    requires offset / g.blockSize * g.blockSize <= i
    ensures 0 <= ChunkStart(i, offset) <= ChunkTerm(g, i, end) <= g.blockSize
  {
    Arith.RoundDown(offset, g.blockSize);
  }

  /** The offsets copied by the loop from block offset `i` on, in order. */
  function Covered(g: Geometry, i: nat, offset: nat, end: nat): seq<nat>
    requires g.Valid()
    decreases end - i
  {
    if i >= end then []
    else seq(Max(Min(i + g.blockSize, end) - Max(i, offset), 0), k => Max(i, offset) + k)
         + Covered(g, i + g.blockSize, offset, end)
  }

  /** Taken in increasing order, the chunks cover exactly `[offset, end)`,
      each offset once. */
  lemma {:induction false} ChunksCover(g: Geometry, i: nat, offset: nat, end: nat)
    requires g.Valid() && offset <= end
    requires offset < i + g.blockSize
    ensures Covered(g, i, offset, end) == seq(Max(end - Max(i, offset), 0), k => Max(i, offset) + k)
    decreases end - i
  {
    if i < end {
      var lo := Max(i, offset);
      var mid := Min(i + g.blockSize, end);
      ChunksCover(g, i + g.blockSize, offset, end);
      var rest := Covered(g, i + g.blockSize, offset, end);
      assert Max(i + g.blockSize, offset) == i + g.blockSize;
      assert Covered(g, i, offset, end) == seq(mid - lo, k => lo + k) + rest;
      assert seq(mid - lo, k => lo + k) + rest == seq(end - lo, k => lo + k);
    }
  }

  // ---------------------------------------------------------------------
  // Directories

  /** The first entry at or after offset `off` (a multiple of
      `sizeof(DirEntry)`) whose name field holds `name`. */
  function FirstMatch(g: Geometry, f: seq<byte>, name: seq<byte>, off: nat): (r: Option<nat>)
    requires g.DirEntrySize() > 0
    ensures r.Some? ==> off <= r.value && r.value + g.DirEntrySize() <= |f|
    decreases |f| - off
  {
    if off + g.DirEntrySize() > |f| then None
    else if NameMatches(name, DirName(g, f[off..off + g.DirEntrySize()])) then Some(off)
    else FirstMatch(g, f, name, off + g.DirEntrySize())
  }

  /** The directory entry at offset `o` of `f` holds `name`. */
  ghost predicate EntryMatches(g: Geometry, f: seq<byte>, name: seq<byte>, o: nat)
    requires g.DirEntrySize() > 0
  {
    o + g.DirEntrySize() <= |f| && NameMatches(name, DirName(g, f[o..o + g.DirEntrySize()]))
  }

  /** With no matching entry at an aligned offset from `off` on, the scan
      finds nothing. */
  lemma {:induction false} FirstMatchNone(g: Geometry, f: seq<byte>, name: seq<byte>, off: nat)
    requires g.DirEntrySize() > 0 && off % g.DirEntrySize() == 0
    requires forall o: nat :: off <= o && o % g.DirEntrySize() == 0 ==> !EntryMatches(g, f, name, o)
    ensures FirstMatch(g, f, name, off) == None
    decreases |f| - off
  {
    if off + g.DirEntrySize() <= |f| {
      assert !EntryMatches(g, f, name, off);
      Arith.MultipleAdd(off, g.DirEntrySize(), g.DirEntrySize());
      FirstMatchNone(g, f, name, off + g.DirEntrySize());
    }
  }

  /** A matching entry at `k` with no matching aligned entry in `[off, k)`
      is the one the scan from `off` finds. */
  lemma {:induction false} FirstMatchAt(g: Geometry, f: seq<byte>, name: seq<byte>, off: nat, k: nat)
    requires g.DirEntrySize() > 0 && off % g.DirEntrySize() == 0 && k % g.DirEntrySize() == 0 && off <= k
    requires EntryMatches(g, f, name, k)
    requires forall o: nat :: off <= o < k && o % g.DirEntrySize() == 0 ==> !EntryMatches(g, f, name, o)
    ensures FirstMatch(g, f, name, off) == Some(k)
    decreases k - off
  {
    FirstMatchStep(g, f, name, off);
    if off < k {
      assert !EntryMatches(g, f, name, off);
      assert off + g.DirEntrySize() <= k && (off + g.DirEntrySize()) % g.DirEntrySize() == 0 by {
        Arith.MultipleGap(off, k, g.DirEntrySize());
        Arith.MultipleAdd(off, g.DirEntrySize(), g.DirEntrySize());
      }
      FirstMatchAt(g, f, name, off + g.DirEntrySize(), k);
    }
  }

  /** One step of the scan, stated through `EntryMatches`. */
  lemma FirstMatchStep(g: Geometry, f: seq<byte>, name: seq<byte>, off: nat)
    requires g.DirEntrySize() > 0
    ensures FirstMatch(g, f, name, off) ==
      if off + g.DirEntrySize() > |f| then None
      else if EntryMatches(g, f, name, off) then Some(off)
      else FirstMatch(g, f, name, off + g.DirEntrySize())
  {
  }

  /** An entry of the window `f[lo..hi]` matches exactly when the same
      entry of `f` does. */
  lemma EntryMatchesWindow(g: Geometry, f: seq<byte>, name: seq<byte>, lo: nat, hi: nat, k: nat)
    requires g.DirEntrySize() > 0 && lo + k + g.DirEntrySize() <= hi <= |f|
    ensures EntryMatches(g, f[lo..hi], name, k) == EntryMatches(g, f, name, lo + k)
  {
    SliceOfSlice(f, lo, hi, k, k + g.DirEntrySize());
  }

  /** One step of the scan of `f` from `lo + k` and of the window
      `f[lo..hi]` from `k`, when the window still holds an entry there. */
  lemma FirstMatchWindowStep(g: Geometry, f: seq<byte>, name: seq<byte>, lo: nat, hi: nat, k: nat)
    requires g.DirEntrySize() > 0 && lo + k + g.DirEntrySize() <= hi <= |f|
    ensures FirstMatch(g, f, name, lo + k) ==
      if EntryMatches(g, f, name, lo + k) then Some(lo + k)
      else FirstMatch(g, f, name, lo + (k + g.DirEntrySize()))
    ensures FirstMatch(g, f[lo..hi], name, k) ==
      if EntryMatches(g, f, name, lo + k) then Some(k)
      else FirstMatch(g, f[lo..hi], name, k + g.DirEntrySize())
  {
    FirstMatchStep(g, f, name, lo + k);
    FirstMatchStep(g, f[lo..hi], name, k);
    EntryMatchesWindow(g, f, name, lo, hi, k);
  }

  /** A first match of `f` from `lo + k` that lies inside the window
      `f[lo..hi]` is the window's first match from its entry `k`. */
  lemma {:induction false} FirstMatchWindowIn(g: Geometry, f: seq<byte>, name: seq<byte>, lo: nat, hi: nat, k: nat, o: nat)
    requires g.DirEntrySize() > 0 && lo + k <= hi <= |f|
    requires FirstMatch(g, f, name, lo + k) == Some(o) && o + g.DirEntrySize() <= hi
    ensures FirstMatch(g, f[lo..hi], name, k) == Some(o - lo)
    decreases hi - lo - k
  {
    var d := g.DirEntrySize();
    if lo + k + d <= hi {
      FirstMatchWindowStep(g, f, name, lo, hi, k);
      if EntryMatches(g, f, name, lo + k) {
        assert o == lo + k;
      } else {
        FirstMatchWindowIn(g, f, name, lo, hi, k + d, o);
        assert FirstMatch(g, f[lo..hi], name, k) == FirstMatch(g, f[lo..hi], name, k + d);
      }
    } else {
      assert false;
    }
  }

  /** With no first match of `f` from `a` that ends by `hi`, a whole
      number of entries further on, the scan from `a` finds what the scan
      from `hi` finds. */
  lemma {:induction false} FirstMatchSkip(g: Geometry, f: seq<byte>, name: seq<byte>, a: nat, hi: nat)
    requires g.DirEntrySize() > 0 && a <= hi && Arith.Steps(hi - a, g.DirEntrySize())
    requires FirstMatch(g, f, name, a).None? || FirstMatch(g, f, name, a).value + g.DirEntrySize() > hi
    ensures FirstMatch(g, f, name, a) == FirstMatch(g, f, name, hi)
    decreases hi - a
  {
    var d := g.DirEntrySize();
    if a < hi {
      FirstMatchStep(g, f, name, a);
      FirstMatchSkip(g, f, name, a + d, hi);
    }
  }

  /** With no first match of `f` from `lo + k` inside the window
      `f[lo..hi]`, the window scan from `k` finds nothing. */
  lemma {:induction false} FirstMatchWindowOut(g: Geometry, f: seq<byte>, name: seq<byte>, lo: nat, hi: nat, k: nat)
    requires g.DirEntrySize() > 0 && lo + k <= hi <= |f| && Arith.Steps(hi - lo - k, g.DirEntrySize())
    requires FirstMatch(g, f, name, lo + k).None? || FirstMatch(g, f, name, lo + k).value + g.DirEntrySize() > hi
    ensures FirstMatch(g, f[lo..hi], name, k) == None
    decreases hi - lo - k
  {
    var d := g.DirEntrySize();
    if lo + k < hi {
      FirstMatchWindowStep(g, f, name, lo, hi, k);
      FirstMatchWindowOut(g, f, name, lo, hi, k + d);
    }
  }

  /** Scanning the whole window `f[lo..hi]`: a match at `j` in the window
      is the first match of `f` from `lo`, at `lo + j`; with no match in
      the window the scan of `f` from `lo` goes on from `hi`. */
  lemma FirstMatchWindow(g: Geometry, f: seq<byte>, name: seq<byte>, lo: nat, hi: nat)
    requires g.DirEntrySize() > 0 && lo <= hi <= |f| && (hi - lo) % g.DirEntrySize() == 0
    ensures FirstMatch(g, f[lo..hi], name, 0).Some? ==>
              FirstMatch(g, f, name, lo) == Some(lo + FirstMatch(g, f[lo..hi], name, 0).value)
    ensures FirstMatch(g, f[lo..hi], name, 0).None? ==>
              FirstMatch(g, f, name, lo) == FirstMatch(g, f, name, hi)
  {
    var m := FirstMatch(g, f, name, lo + 0);
    if m.Some? && m.value + g.DirEntrySize() <= hi {
      FirstMatchWindowIn(g, f, name, lo, hi, 0, m.value);
    } else {
      Arith.StepsOfMultiple(hi - lo, g.DirEntrySize());
      FirstMatchWindowOut(g, f, name, lo, hi, 0);
      FirstMatchSkip(g, f, name, lo, hi);
    }
  }

  /** Appending an entry to a directory: the first match is the old first
      match if there was one, else the new entry if it matches. */
  lemma FirstMatchAppend(g: Geometry, f: seq<byte>, entry: seq<byte>, name: seq<byte>)
    requires g.DirEntrySize() > 0 && |entry| == g.DirEntrySize() && |f| % g.DirEntrySize() == 0
    ensures FirstMatch(g, f + entry, name, 0) ==
      if FirstMatch(g, f, name, 0).Some? then FirstMatch(g, f, name, 0)
      else if NameMatches(name, DirName(g, entry)) then Some(|f|)
      else None
  {
    var d := g.DirEntrySize();
    var fe := f + entry;
    var m := FirstMatch(g, f, name, 0);
    assert FirstMatch(g, fe[0..|f|], name, 0) == m by {
      assert fe[0..|f|] == f;
    }
    FirstMatchWindow(g, fe, name, 0, |f|);
    if m.Some? {
      assert FirstMatch(g, fe, name, 0) == m;
    } else {
      assert FirstMatch(g, fe, name, 0) == FirstMatch(g, fe, name, |f|);
      assert EntryMatches(g, fe, name, |f|) == NameMatches(name, DirName(g, entry)) by {
        assert fe[|f|..|f| + d] == entry;
      }
      FirstMatchStep(g, fe, name, |f|);
      assert FirstMatch(g, fe, name, |f| + d) == None;
    }
  }


}
