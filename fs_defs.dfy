/** The on-disk vocabulary of the file system used by src/fs/inode.c: the
    constants, inode entries, blocks, and directory entries. The headers
    that define these (fs/defines.h, fs/inode.h) are not part of this
    model, so their constants are parameters and their records are taken
    field by field as inode.c uses them. */
module FsDefs {
  import opened Common
  import Arith

  /** The file-system constants inode.c uses. */
  datatype Geometry = Geometry(
    blockSize: nat,      // BLOCK_SIZE
    inodePerBlock: nat,  // INODE_PER_BLOCK
    numDirect: nat,      // INODE_NUM_DIRECT
    numIndirect: nat,    // INODE_NUM_INDIRECT
    maxBytes: nat,       // INODE_MAX_BYTES
    nameMax: nat,        // FILE_NAME_MAX_LENGTH
    inoBytes: nat)       // width in bytes of `DirEntry.inode_no`
  {
    /** `sizeof(DirEntry)`: the inode number followed by the name field. */
    function DirEntrySize(): nat { inoBytes + nameMax }

    /** Every size is positive, a file's blocks fit its direct slots and one
        indirect block, and directory entries tile a block. */
    predicate Valid()
    {
      && blockSize > 0 && inodePerBlock > 0 && nameMax > 0 && inoBytes > 0
      && maxBytes <= (numDirect + numIndirect) * blockSize
      && blockSize % DirEntrySize() == 0
    }
  }

  /** `InodeType`; `INODE_INVALID` is the all-zero value. */
  datatype InodeType = Invalid | Directory | Regular | Device

  /** `InodeEntry`: the on-disk inode. Direct block numbers are a map from
      slot to block number; an absent slot holds 0. */
  datatype InodeEntry = InodeEntry(
    typ: InodeType,
    numLinks: nat,
    numBytes: nat,
    addrs: map<nat, nat>,
    indirect: nat)
  {
    /** `addrs[i]`. */
    function Addr(i: nat): nat
    {
      if i in addrs then addrs[i] else 0
    }
  }

  /** The entry `memset` to zero: `INODE_INVALID`, no links, no bytes, no
      blocks. */
  const ZeroEntry := InodeEntry(Invalid, 0, 0, map[], 0)

  /** A block's contents, seen in the three ways inode.c reads a block: as
      an array of inode entries (`get_entry`), as an indirect block of
      block numbers (`IndirectBlock.addrs`), and as bytes. Absent keys hold
      zero. */
  datatype Block = Block(
    entries: map<nat, InodeEntry>,
    addrs: map<nat, nat>,
    data: map<nat, byte>)
  {
    function Entry(slot: nat): InodeEntry
    {
      if slot in entries then entries[slot] else ZeroEntry
    }

    function Addr(i: nat): nat
    {
      if i in addrs then addrs[i] else 0
    }

    function Byte(k: nat): byte
    {
      if k in data then data[k] else 0
    }

    /** The block after `bytes` is copied in at `start`. */
    function WithBytes(start: nat, bytes: seq<byte>): (b: Block)
      ensures b.entries == entries && b.addrs == addrs
      ensures forall k: nat ::
                b.Byte(k) == (if start <= k < start + |bytes| then bytes[k - start] else Byte(k))
    {
      var keys := data.Keys + Range(start, start + |bytes|);
      Block(entries, addrs,
        map k | k in keys :: if start <= k < start + |bytes| then bytes[k - start] else data[k])
    }

    /** `n` bytes read from `start`. */
    function Bytes(start: nat, n: nat): (s: seq<byte>)
      ensures |s| == n && forall k :: 0 <= k < n ==> s[k] == Byte(start + k)
    {
      seq(n, k requires 0 <= k < n => Byte(start + k))
    }
  }

  /** The numbers `lo .. hi-1`. */
  function Range(lo: nat, hi: nat): (r: set<nat>)
    ensures forall k :: k in r <==> lo <= k < hi
    decreases hi - lo
  {
    if lo >= hi then {} else {lo} + Range(lo + 1, hi)
  }

  /** A block that is all zero. */
  const ZeroBlock := Block(map[], map[], map[])

  /** 256 to the power `w`. */
  function Pow256(w: nat): (p: nat)
    ensures p >= 1
  {
    if w == 0 then 1 else 256 * Pow256(w - 1)
  }

  /** `n` stored little-endian in `w` bytes, truncated as an unsigned
      `w`-byte field truncates it. */
  function Le(n: nat, w: nat): (bs: seq<byte>)
    ensures |bs| == w
  {
    if w == 0 then [] else [(n % 256) as byte] + Le(n / 256, w - 1)
  }

  /** The value of little-endian bytes. */
  function LeValue(bs: seq<byte>): nat
  {
    if bs == [] then 0 else bs[0] as nat + 256 * LeValue(bs[1..])
  }

  /** Reading back a `w`-byte field gives the stored value modulo 256^w. */
  lemma {:induction false} LeRoundTrip(n: nat, w: nat)
    ensures LeValue(Le(n, w)) == n % Pow256(w)
  {
    if w > 0 {
      var bs := Le(n, w);
      assert bs[1..] == Le(n / 256, w - 1);
      LeRoundTrip(n / 256, w - 1);
      ModSplit(n, Pow256(w - 1));
    }
  }

  /** `n mod 256p` splits into the low byte and the rest modulo `p`. */
  lemma ModSplit(n: nat, p: nat)
    requires p >= 1
    ensures n % (256 * p) == n % 256 + 256 * ((n / 256) % p)
  {
    var q, r := n / 256, n % 256;
    var a, b := q / p, q % p;
    assert q == a * p + b;
    assert n == 256 * q + r;
    calc {
      n;
      256 * (a * p + b) + r;
      { assert 256 * (a * p + b) == a * (256 * p) + 256 * b; }
      a * (256 * p) + (256 * b + r);
    }
    assert 256 * b + r < 256 * p by {
      assert b <= p - 1;
      assert 256 * b <= 256 * (p - 1);
    }
    Arith.DivModUnique(n, 256 * p, a, 256 * b + r);
  }

  /** A C string: its bytes before the terminating NUL. */
  predicate CString(s: seq<byte>)
  {
    forall k :: 0 <= k < |s| ==> s[k] != 0
  }

  /** `strncpy(dst, src, n)`: at most `n` bytes of `src`, padded with NUL
      to `n` bytes (no terminator when `src` has `n` bytes or more). */
  function StrNCpy(src: seq<byte>, n: nat): (dst: seq<byte>)
    ensures |dst| == n
  {
    if |src| >= n then src[..n] else src + Zeros(n - |src|)
  }

  /** `memcmp(name, field, strlen(name) + 1) == 0`: the field holds `name`
      followed by NUL. */
  predicate NameMatches(name: seq<byte>, field: seq<byte>)
  {
    |name| < |field| && field[..|name|] == name && field[|name|] == 0
  }

  /** A name stored with `strncpy` is found by exactly that name. */
  lemma StoredNameMatches(name: seq<byte>, stored: seq<byte>, n: nat)
    requires CString(name) && CString(stored) && |name| < n
    ensures NameMatches(name, StrNCpy(stored, n)) <==> name == stored
  {
    var f := StrNCpy(stored, n);
    if name == stored {
      assert f == name + Zeros(n - |name|);
      assert f[..|name|] == name;
    } else if |stored| > |name| {
      assert f[|name|] == stored[|name|];
    } else if |stored| < |name| {
      assert f[|stored|] == 0 && name[|stored|] != 0;
    } else {
      assert f[..|name|] == stored;
    }
  }

  /** `DirEntry` as bytes: the inode number, then the name field. */
  function EncodeDirEntry(g: Geometry, inodeNo: nat, name: seq<byte>): (bs: seq<byte>)
    ensures |bs| == g.DirEntrySize()
  {
    Le(inodeNo, g.inoBytes) + StrNCpy(name, g.nameMax)
  }

  /** The inode number of a `DirEntry` read from `bs`. */
  function DirInodeNo(g: Geometry, bs: seq<byte>): nat
    requires |bs| == g.DirEntrySize()
  {
    LeValue(bs[..g.inoBytes])
  }

  /** The name field of a `DirEntry` read from `bs`. */
  function DirName(g: Geometry, bs: seq<byte>): (name: seq<byte>)
    requires |bs| == g.DirEntrySize()
    ensures |name| == g.nameMax
  {
    bs[g.inoBytes..]
  }

  /** Decoding an encoded entry gives the truncated inode number and the
      `strncpy`'d name. */
  lemma DirEntryRoundTrip(g: Geometry, inodeNo: nat, name: seq<byte>)
    ensures DirInodeNo(g, EncodeDirEntry(g, inodeNo, name)) == inodeNo % Pow256(g.inoBytes)
    ensures DirName(g, EncodeDirEntry(g, inodeNo, name)) == StrNCpy(name, g.nameMax)
  {
    var bs := EncodeDirEntry(g, inodeNo, name);
    assert bs[..g.inoBytes] == Le(inodeNo, g.inoBytes);
    assert bs[g.inoBytes..] == StrNCpy(name, g.nameMax);
    LeRoundTrip(inodeNo, g.inoBytes);
  }

  /** A zeroed entry has inode number 0 and an empty name. */
  lemma ZeroDirEntry(g: Geometry)
    requires g.nameMax > 0
    ensures DirInodeNo(g, Zeros(g.DirEntrySize())) == 0
    ensures forall name :: CString(name) ==>
      (NameMatches(name, DirName(g, Zeros(g.DirEntrySize()))) <==> name == [])
  {
    var z := Zeros(g.DirEntrySize());
    ZerosValue(z[..g.inoBytes]);
    assert DirName(g, z)[0] == 0;
  }

  /** All-zero bytes have value 0. */
  lemma {:induction false} ZerosValue(bs: seq<byte>)
    requires forall k :: 0 <= k < |bs| ==> bs[k] == 0
    ensures LeValue(bs) == 0
  {
    if bs != [] {
      ZerosValue(bs[1..]);
    }
  }
}
