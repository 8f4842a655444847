/** The inode layer of src/fs/inode.c over the abstract block cache: on-disk
    inode allocation, the reference-counted list of in-memory inodes, the
    per-file block map, byte-range read and write, and directories. */
module Inodes {
  import opened Common
  import opened FsDefs
  import opened BlockCache
  import opened InodeLayout
  import Arith

  /** An in-memory inode (`Inode`): its number, reference count, whether
      `entry` holds a copy of the disk entry, and that copy. */
  class Inode {
    const inodeNo: nat
    var rc: nat
    var valid: bool
    var entry: InodeEntry

    /** `init_inode` followed by setting `inode_no`. */
    constructor (inodeNo: nat)
      ensures this.inodeNo == inodeNo && rc == 0 && !valid && entry == ZeroEntry
    {
      this.inodeNo := inodeNo;
      rc := 0;
      valid := false;
      entry := ZeroEntry;
    }
  }

  /** What `inode_lookup` reports: no entry (it returns 0), or the inode
      number of the first matching entry and that entry's byte offset
      (`*index`). */
  datatype Lookup = NotFound | Found(inodeNo: nat, index: nat)

  /** The first entry of directory contents `f` at or after offset `off`
      whose name field holds `name`, with its inode number. */
  function LookupFrom(g: Geometry, f: seq<byte>, name: seq<byte>, off: nat): Lookup
    requires g.DirEntrySize() > 0
  {
    match FirstMatch(g, f, name, off)
    case None => NotFound
    case Some(o) => Found(DirInodeNo(g, f[o..o + g.DirEntrySize()]), o)
  }

  /** What `inode_lookup` answers for directory contents `f`: the first
      entry whose name field holds `name`, or nothing. */
  function LookupIn(g: Geometry, f: seq<byte>, name: seq<byte>): Lookup
    requires g.DirEntrySize() > 0
  {
    LookupFrom(g, f, name, 0)
  }

  /** What one pass of `inode_lookup`'s outer loop reports for `buf`, the
      directory bytes read from offset `bi`: the first matching entry in
      `buf`, with its offset in the directory. */
  function WindowLookup(g: Geometry, buf: seq<byte>, name: seq<byte>, bi: nat): Lookup
    requires g.DirEntrySize() > 0
  {
    match FirstMatch(g, buf, name, 0)
    case None => NotFound
    case Some(k) => Found(DirInodeNo(g, buf[k..k + g.DirEntrySize()]), bi + k)
  }

  /** A hit in the window `f[bi..bi + len]` is the lookup from `bi`. */
  lemma WindowLookupHit(g: Geometry, f: seq<byte>, name: seq<byte>, bi: nat, len: nat)
    requires g.DirEntrySize() > 0 && bi + len <= |f| && len % g.DirEntrySize() == 0
    requires WindowLookup(g, f[bi..bi + len], name, bi).Found?
    ensures WindowLookup(g, f[bi..bi + len], name, bi) == LookupFrom(g, f, name, bi)
  {
    var d := g.DirEntrySize();
    var w := f[bi..bi + len];
    var m := FirstMatch(g, w, name, 0);
    assert m.Some?;
    var k := m.value;
    assert k + d <= len;
    FirstMatchWindow(g, f, name, bi, bi + len);
    assert FirstMatch(g, f, name, bi) == Some(bi + k);
    SliceOfSlice(f, bi, bi + len, k, k + d);
    WindowHitAt(g, f, w, name, bi, k, w[k..k + d]);
  }

  /** A window whose first match at `k` is the directory's first match
      from `bi`, holding the same entry, reports what the lookup from `bi`
      does. */
  lemma WindowHitAt(g: Geometry, f: seq<byte>, w: seq<byte>, name: seq<byte>, bi: nat, k: nat, entry: seq<byte>)
    requires g.DirEntrySize() > 0 && k + g.DirEntrySize() <= |w| && bi + k + g.DirEntrySize() <= |f|
    requires FirstMatch(g, w, name, 0) == Some(k) && FirstMatch(g, f, name, bi) == Some(bi + k)
    requires w[k..k + g.DirEntrySize()] == entry && f[bi + k..bi + k + g.DirEntrySize()] == entry
    ensures WindowLookup(g, w, name, bi) == LookupFrom(g, f, name, bi)
  {
    WindowAt(g, w, name, bi, k, entry);
    LookupFromAt(g, f, name, bi, bi + k, entry);
  }

  /** A window whose first match is at `k` reports the entry there. */
  lemma WindowAt(g: Geometry, w: seq<byte>, name: seq<byte>, bi: nat, k: nat, entry: seq<byte>)
    requires g.DirEntrySize() > 0 && FirstMatch(g, w, name, 0) == Some(k)
    requires k + g.DirEntrySize() <= |w| && w[k..k + g.DirEntrySize()] == entry
    ensures WindowLookup(g, w, name, bi) == Found(DirInodeNo(g, entry), bi + k)
  {
  }

  /** A miss in the window `f[bi..bi + len]` leaves the lookup from `bi`
      to the rest of the directory. */
  lemma WindowLookupMiss(g: Geometry, f: seq<byte>, name: seq<byte>, bi: nat, len: nat)
    requires g.DirEntrySize() > 0 && bi + len <= |f| && len % g.DirEntrySize() == 0
    requires WindowLookup(g, f[bi..bi + len], name, bi).NotFound?
    ensures LookupFrom(g, f, name, bi) == LookupFrom(g, f, name, bi + len)
  {
    FirstMatchWindow(g, f, name, bi, bi + len);
    LookupFromSame(g, f, name, bi, bi + len);
  }

  /** Offsets with the same first match give the same lookup. */
  lemma LookupFromSame(g: Geometry, f: seq<byte>, name: seq<byte>, a: nat, b: nat)
    requires g.DirEntrySize() > 0 && FirstMatch(g, f, name, a) == FirstMatch(g, f, name, b)
    ensures LookupFrom(g, f, name, a) == LookupFrom(g, f, name, b)
  {
  }

  /** Past the end of the directory nothing is found. */
  lemma LookupFromEnd(g: Geometry, f: seq<byte>, name: seq<byte>, off: nat)
    requires g.DirEntrySize() > 0 && off >= |f|
    ensures LookupFrom(g, f, name, off) == NotFound
  {
  }

  /** A miss in the `len` bytes from `bi`, where a window shorter than a
      block of `bs` bytes reaches the end of `f`, moves the lookup on to
      the next block. */
  lemma LookupNextBlock(g: Geometry, f: seq<byte>, name: seq<byte>, bi: nat, len: nat, bs: nat)
    requires g.DirEntrySize() > 0 && len <= bs
    requires len < bs ==> bi + len >= |f|
    requires LookupFrom(g, f, name, bi) == LookupFrom(g, f, name, bi + len)
    ensures LookupFrom(g, f, name, bi) == LookupFrom(g, f, name, bi + bs)
  {
    if len < bs {
      LookupFromEnd(g, f, name, bi + len);
      LookupFromEnd(g, f, name, bi + bs);
    }
  }

  /** After `inode_insert` appends an entry for `stored`, a lookup of
      `name` finds what it found before; failing that, the new entry (with
      its inode number cut to the field's width) exactly when `name` is
      `stored`. */
  lemma LookupAfterInsert(g: Geometry, f: seq<byte>, name: seq<byte>, inodeNo: nat, stored: seq<byte>)
    requires g.Valid() && |f| % g.DirEntrySize() == 0
    requires CString(name) && CString(stored) && |name| < g.nameMax
    ensures LookupIn(g, f + EncodeDirEntry(g, inodeNo, stored), name) ==
      if LookupIn(g, f, name).Found? then LookupIn(g, f, name)
      else if name == stored then Found(inodeNo % Pow256(g.inoBytes), |f|)
      else NotFound
  {
    var entry := EncodeDirEntry(g, inodeNo, stored);
    if FirstMatch(g, f, name, 0).Some? {
      AppendKeepsFound(g, f, entry, name);
    } else {
      AppendFindsNew(g, f, entry, name);
      DirEntryRoundTrip(g, inodeNo, stored);
      StoredNameMatches(name, stored, g.nameMax);
    }
  }

  /** Appending an entry keeps an earlier match. */
  lemma AppendKeepsFound(g: Geometry, f: seq<byte>, entry: seq<byte>, name: seq<byte>)
    requires g.DirEntrySize() > 0 && |entry| == g.DirEntrySize() && |f| % g.DirEntrySize() == 0
    requires FirstMatch(g, f, name, 0).Some?
    ensures LookupIn(g, f + entry, name) == LookupIn(g, f, name)
  {
    FirstMatchAppend(g, f, entry, name);
    var o := FirstMatch(g, f, name, 0).value;
    assert (f + entry)[o..o + g.DirEntrySize()] == f[o..o + g.DirEntrySize()];
  }

  /** With no earlier match, the lookup finds the appended entry exactly
      when its name field holds `name`. */
  lemma AppendFindsNew(g: Geometry, f: seq<byte>, entry: seq<byte>, name: seq<byte>)
    requires g.DirEntrySize() > 0 && |entry| == g.DirEntrySize() && |f| % g.DirEntrySize() == 0
    requires FirstMatch(g, f, name, 0).None?
    ensures LookupIn(g, f + entry, name) ==
      if NameMatches(name, DirName(g, entry)) then Found(DirInodeNo(g, entry), |f|) else NotFound
  {
    FirstMatchAppend(g, f, entry, name);
    if NameMatches(name, DirName(g, entry)) {
      assert (f + entry)[|f|..|f| + g.DirEntrySize()] == entry;
      LookupFromAt(g, f + entry, name, 0, |f|, entry);
    } else {
      LookupNoMatch(g, f + entry, name);
    }
  }

  /** No match means the lookup reports none. */
  lemma LookupNoMatch(g: Geometry, f: seq<byte>, name: seq<byte>)
    requires g.DirEntrySize() > 0 && FirstMatch(g, f, name, 0) == None
    ensures LookupIn(g, f, name) == NotFound
  {
  }

  /** A first match at `o` is what the lookup from `off` reports. */
  lemma LookupFromAt(g: Geometry, f: seq<byte>, name: seq<byte>, off: nat, o: nat, entry: seq<byte>)
    requires g.DirEntrySize() > 0 && FirstMatch(g, f, name, off) == Some(o)
    requires o + g.DirEntrySize() <= |f| && f[o..o + g.DirEntrySize()] == entry
    ensures LookupFrom(g, f, name, off) == Found(DirInodeNo(g, entry), o)
  {
  }

  /** The blocks `inode_clear` passes to `cache->free` for `e`, where
      `words` are the words it reads from the indirect block: every
      non-zero direct address, then, when there is an indirect block, its
      non-zero words and the indirect block itself. */
  function ClearFrees(g: Geometry, e: InodeEntry, words: seq<nat>): seq<nat>
  {
    NonZero(DirectAddrs(g, e))
    + (if e.indirect != 0 then NonZero(words) + [e.indirect] else [])
  }

  /** The `INODE_NUM_DIRECT` direct addresses of `e`. */
  function DirectAddrs(g: Geometry, e: InodeEntry): (d: seq<nat>)
    ensures |d| == g.numDirect && forall i :: 0 <= i < g.numDirect ==> d[i] == e.Addr(i)
  {
    seq(g.numDirect, i requires 0 <= i < g.numDirect => e.Addr(i))
  }

  /** The non-zero elements of `s`, in order. */
  function NonZero(s: seq<nat>): seq<nat>
  {
    if s == [] then []
    else (if s[0] != 0 then [s[0]] else []) + NonZero(s[1..])
  }

  /** The non-zero addresses among the first `n` of `e`, in order. */
  function DirectFreed(e: InodeEntry, n: nat): seq<nat>
  {
    if n == 0 then [] else DirectFreed(e, n - 1) + (if e.Addr(n - 1) != 0 then [e.Addr(n - 1)] else [])
  }

  /** `DirectFreed` filters a prefix of the direct addresses. */
  lemma {:induction false} DirectFreedNonZero(g: Geometry, e: InodeEntry, n: nat)
    requires n <= g.numDirect
    ensures DirectFreed(e, n) == NonZero(DirectAddrs(g, e)[..n])
  {
    var d := DirectAddrs(g, e);
    if n == 0 {
      assert d[..0] == [];
    } else {
      DirectFreedNonZero(g, e, n - 1);
      assert d[..n] == d[..n - 1] + [d[n - 1]];
      NonZeroSnoc(d[..n - 1], d[n - 1]);
    }
  }

  /** The filter keeps exactly the non-zero elements. */
  lemma {:induction false} NonZeroIn(s: seq<nat>)
    ensures forall x :: x in NonZero(s) <==> x in s && x != 0
  {
    if s != [] {
      NonZeroIn(s[1..]);
      assert forall x :: x in s <==> x == s[0] || x in s[1..];
    }
  }

  /** The `INODE_NUM_INDIRECT` block numbers held by indirect block `b`. */
  function IndirectWords(g: Geometry, blocks: map<nat, Block>, b: nat): (w: seq<nat>)
    ensures |w| == g.numIndirect
    ensures forall i :: 0 <= i < g.numIndirect ==> w[i] == BlockAt(blocks, b).Addr(i)
  {
    seq(g.numIndirect, i requires 0 <= i < g.numIndirect => BlockAt(blocks, b).Addr(i))
  }

  /** `n` non-zero elements then one more: the filter extends by that one
      when it is non-zero. */
  lemma {:induction false} NonZeroSnoc(s: seq<nat>, x: nat)
    ensures NonZero(s + [x]) == NonZero(s) + (if x != 0 then [x] else [])
  {
    if s == [] {
      assert s + [x] == [x];
    } else {
      var h := if s[0] != 0 then [s[0]] else [];
      var t := if x != 0 then [x] else [];
      assert (s + [x])[0] == s[0] && (s + [x])[1..] == s[1..] + [x];
      NonZeroSnoc(s[1..], x);
      assert NonZero(s + [x]) == h + (NonZero(s[1..]) + t);
      assert h + (NonZero(s[1..]) + t) == (h + NonZero(s[1..])) + t;
    }
  }

  /** Filtering keeps distinct non-zero elements distinct. */
  lemma {:induction false} NonZeroDistinct(s: seq<nat>)
    requires forall i, j :: 0 <= i < j < |s| && s[i] != 0 ==> s[i] != s[j]
    ensures Distinct(NonZero(s))
  {
    if s != [] {
      var t := NonZero(s[1..]);
      NonZeroIn(s[1..]);
      assert forall i, j :: 0 <= i < j < |s[1..]| && s[1..][i] != 0 ==> s[1..][i] != s[1..][j] by {
        forall i, j | 0 <= i < j < |s[1..]| && s[1..][i] != 0
          ensures s[1..][i] != s[1..][j]
        {
          assert s[1..][i] == s[i + 1] && s[1..][j] == s[j + 1];
        }
      }
      NonZeroDistinct(s[1..]);
      if s[0] != 0 {
        forall x | x in t
          ensures x != s[0]
        {
          var j :| 0 <= j < |s[1..]| && s[1..][j] == x;
          assert s[j + 1] == x;
        }
        DistinctConcat([s[0]], t);
      }
    }
  }

  /** Two duplicate-free sequences with no common element concatenate to
      a duplicate-free sequence. */
  lemma DistinctConcat(a: seq<nat>, b: seq<nat>)
    requires Distinct(a) && Distinct(b) && forall x :: x in a ==> x !in b
    ensures Distinct(a + b)
  {
    forall i, j | 0 <= i < j < |a + b|
      ensures (a + b)[i] != (a + b)[j]
    {
      if i < |a| && j >= |a| {
        assert (a + b)[i] in a && (a + b)[j] == b[j - |a|];
      }
    }
  }

  /** No element of `s` occurs twice. */
  ghost predicate Distinct(s: seq<nat>)
  {
    forall i, j :: 0 <= i < j < |s| ==> s[i] != s[j]
  }

  /** The elements of `s`. */
  ghost function Elems(s: seq<nat>): set<nat>
  {
    set x | x in s
  }

  /** `e` after `inode_clear`'s loops: every direct address and the
      indirect address are 0; type, links and size are kept. */
  function Cleared(g: Geometry, e: InodeEntry): (c: InodeEntry)
    ensures c.typ == e.typ && c.numLinks == e.numLinks && c.numBytes == e.numBytes
    ensures c.indirect == 0 && forall i :: 0 <= i < g.numDirect ==> c.Addr(i) == 0
  {
    ClearedBelow(e, g.numDirect).(indirect := 0)
  }

  /** `e` with its addresses below `n` set to 0. */
  function ClearedBelow(e: InodeEntry, n: nat): InodeEntry
  {
    e.(addrs := map k | k in e.addrs :: if k < n then 0 else e.addrs[k])
  }

  /** The address `k` of `ClearedBelow(e, n)`. */
  lemma ClearedBelowAddr(e: InodeEntry, n: nat, k: nat)
    ensures ClearedBelow(e, n).Addr(k) == if k < n then 0 else e.Addr(k)
  {
  }

  /** Clearing one more address: a non-zero address `n` is overwritten
      with 0, a zero one is left as it is. */
  lemma ClearedBelowStep(e: InodeEntry, n: nat)
    ensures ClearedBelow(e, n + 1) ==
      if e.Addr(n) != 0 then ClearedBelow(e, n).(addrs := ClearedBelow(e, n).addrs[n := 0])
      else ClearedBelow(e, n)
  {
    var c := ClearedBelow(e, n);
    if e.Addr(n) != 0 {
      assert ClearedBelow(e, n + 1).addrs == c.addrs[n := 0];
    } else {
      assert ClearedBelow(e, n + 1).addrs == c.addrs;
    }
  }

  /** Removing the elements of `s + [x]` removes those of `s`, then `x`. */
  lemma ElemsSnoc(u: set<nat>, s: seq<nat>, x: nat)
    ensures u - Elems(s + [x]) == (u - Elems(s)) - {x}
  {
    assert Elems(s + [x]) == Elems(s) + {x};
  }

  /** The elements of a concatenation. */
  lemma ElemsConcat(a: seq<nat>, b: seq<nat>)
    ensures Elems(a + b) == Elems(a) + Elems(b)
  {
  }

  /** For a sound file, clearing with the indirect block's own words frees
      every mapped block and the indirect block, each exactly once, and
      nothing that is not allocated. */
  lemma ClearFreesMapped(g: Geometry, e: InodeEntry, blocks: map<nat, Block>, used: set<nat>)
    requires FileWF(g, e, blocks, used)
    ensures var fr := ClearFrees(g, e, IndirectWords(g, blocks, e.indirect));
            && Distinct(fr)
            && (forall b :: b in fr ==> b in used)
            && (forall b :: b in fr <==>
                  (b != 0 && b == e.indirect)
                  || exists idx: nat :: idx < g.numDirect + g.numIndirect && b == FileBlock(g, e, blocks, idx) != 0)
  {
    ClearFreesDistinct(g, e, blocks, used);
    ClearFreesUsed(g, e, blocks, used);
    ClearFreesExact(g, e, blocks);
  }

  /** The direct addresses are the file's blocks `0 .. NUM_DIRECT-1`, and
      the words of a present indirect block are the blocks after them. */
  lemma AddrsAreFileBlocks(g: Geometry, e: InodeEntry, blocks: map<nat, Block>)
    ensures forall i :: 0 <= i < g.numDirect ==> DirectAddrs(g, e)[i] == FileBlock(g, e, blocks, i)
    ensures e.indirect != 0 ==> forall i :: 0 <= i < g.numIndirect ==>
              IndirectWords(g, blocks, e.indirect)[i] == FileBlock(g, e, blocks, g.numDirect + i)
  {
  }

  /** No block is freed twice by the clear of a sound file. */
  lemma ClearFreesDistinct(g: Geometry, e: InodeEntry, blocks: map<nat, Block>, used: set<nat>)
    requires FileWF(g, e, blocks, used)
    ensures Distinct(ClearFrees(g, e, IndirectWords(g, blocks, e.indirect)))
  {
    var d := DirectAddrs(g, e);
    var w := IndirectWords(g, blocks, e.indirect);
    assert Distinct(NonZero(d)) by {
      AddrsAreFileBlocks(g, e, blocks);
      NonZeroDistinct(d);
    }
    if e.indirect != 0 {
      assert Distinct(NonZero(w)) && e.indirect !in NonZero(w) by {
        AddrsAreFileBlocks(g, e, blocks);
        NonZeroDistinct(w);
        NonZeroIn(w);
        forall j | 0 <= j < |w|
          ensures w[j] != e.indirect
        {
          assert w[j] == FileBlock(g, e, blocks, g.numDirect + j);
        }
      }
      assert forall x :: x in NonZero(d) ==> x !in NonZero(w) + [e.indirect] by {
        DirectNotIndirect(g, e, blocks, used);
      }
      DistinctConcat(NonZero(w), [e.indirect]);
      DistinctConcat(NonZero(d), NonZero(w) + [e.indirect]);
    } else {
      assert ClearFrees(g, e, w) == NonZero(d);
    }
  }

  /** In a sound file, no direct block is also a word of the indirect
      block or the indirect block itself. */
  lemma DirectNotIndirect(g: Geometry, e: InodeEntry, blocks: map<nat, Block>, used: set<nat>)
    requires FileWF(g, e, blocks, used) && e.indirect != 0
    ensures forall x :: x in NonZero(DirectAddrs(g, e)) ==>
              x !in NonZero(IndirectWords(g, blocks, e.indirect)) + [e.indirect]
  {
    var d := DirectAddrs(g, e);
    var w := IndirectWords(g, blocks, e.indirect);
    AddrsAreFileBlocks(g, e, blocks);
    NonZeroIn(d);
    NonZeroIn(w);
    forall x | x in NonZero(d)
      ensures x !in NonZero(w) + [e.indirect]
    {
      var i :| 0 <= i < |d| && d[i] == x;
      forall j | 0 <= j < |w|
        ensures w[j] != x
      {
        assert w[j] == FileBlock(g, e, blocks, g.numDirect + j);
      }
    }
  }

  /** The clear of a sound file frees only allocated blocks. */
  lemma ClearFreesUsed(g: Geometry, e: InodeEntry, blocks: map<nat, Block>, used: set<nat>)
    requires FileWF(g, e, blocks, used)
    ensures forall b :: b in ClearFrees(g, e, IndirectWords(g, blocks, e.indirect)) ==> b in used
  {
    var d := DirectAddrs(g, e);
    var w := IndirectWords(g, blocks, e.indirect);
    AddrsAreFileBlocks(g, e, blocks);
    NonZeroIn(d);
    NonZeroIn(w);
    forall b | b in ClearFrees(g, e, w)
      ensures b in used
    {
      if b in NonZero(d) {
        var i :| 0 <= i < |d| && d[i] == b;
      } else if b in NonZero(w) {
        var i :| 0 <= i < |w| && w[i] == b;
        assert FileBlock(g, e, blocks, g.numDirect + i) == b;
      }
    }
  }

  /** The clear frees the indirect block and exactly the mapped blocks. */
  lemma ClearFreesExact(g: Geometry, e: InodeEntry, blocks: map<nat, Block>)
    ensures forall b :: b in ClearFrees(g, e, IndirectWords(g, blocks, e.indirect)) <==>
              (b != 0 && b == e.indirect)
              || exists idx: nat :: idx < g.numDirect + g.numIndirect && b == FileBlock(g, e, blocks, idx) != 0
  {
    forall b
      ensures b in ClearFrees(g, e, IndirectWords(g, blocks, e.indirect)) <==>
                (b != 0 && b == e.indirect)
                || exists idx: nat :: idx < g.numDirect + g.numIndirect && b == FileBlock(g, e, blocks, idx) != 0
    {
      if b in ClearFrees(g, e, IndirectWords(g, blocks, e.indirect)) {
        FreedIsMapped(g, e, blocks, b);
      }
      if exists idx: nat :: idx < g.numDirect + g.numIndirect && b == FileBlock(g, e, blocks, idx) != 0 {
        var idx: nat :| idx < g.numDirect + g.numIndirect && b == FileBlock(g, e, blocks, idx) != 0;
        MappedIsFreed(g, e, blocks, b, idx);
      }
    }
  }

  /** A block the clear frees is the indirect block or a mapped one. */
  lemma FreedIsMapped(g: Geometry, e: InodeEntry, blocks: map<nat, Block>, b: nat)
    requires b in ClearFrees(g, e, IndirectWords(g, blocks, e.indirect))
    ensures b != 0
    ensures b != e.indirect ==>
              exists idx: nat :: idx < g.numDirect + g.numIndirect && b == FileBlock(g, e, blocks, idx) != 0
  {
    var d := DirectAddrs(g, e);
    var w := IndirectWords(g, blocks, e.indirect);
    AddrsAreFileBlocks(g, e, blocks);
    NonZeroIn(d);
    NonZeroIn(w);
    if b in NonZero(d) {
      var i :| 0 <= i < |d| && d[i] == b;
      assert FileBlock(g, e, blocks, i) == b;
    } else if b != e.indirect {
      var i :| 0 <= i < |w| && w[i] == b;
      assert FileBlock(g, e, blocks, g.numDirect + i) == b;
    }
  }

  /** Every mapped block is among those the clear frees. */
  lemma MappedIsFreed(g: Geometry, e: InodeEntry, blocks: map<nat, Block>, b: nat, idx: nat)
    requires idx < g.numDirect + g.numIndirect && b == FileBlock(g, e, blocks, idx) != 0
    ensures b in ClearFrees(g, e, IndirectWords(g, blocks, e.indirect))
  {
    var d := DirectAddrs(g, e);
    var w := IndirectWords(g, blocks, e.indirect);
    AddrsAreFileBlocks(g, e, blocks);
    if idx < g.numDirect {
      NonZeroIn(d);
      assert d[idx] == b;
    } else {
      NonZeroIn(w);
      assert e.indirect != 0;
      assert w[idx - g.numDirect] == b;
    }
  }

  /** `inode_clear` as written takes the indirect block's words from the
      block's header: an indirect block mapping block 7 whose header words
      are 0 leaves block 7 allocated. */
  lemma ClearAsWrittenLeaks()
    ensures var g := Geometry(16, 1, 1, 1, 32, 4, 4);
            var e := InodeEntry(Regular, 0, 32, map[0 := 3], 5);
            var blocks := map[5 := Block(map[], map[0 := 7], map[])];
            && g.Valid() && FileWF(g, e, blocks, {3, 5, 7})
            && FileBlock(g, e, blocks, 1) == 7
            && 7 in ClearFrees(g, e, IndirectWords(g, blocks, e.indirect))
            && 7 !in ClearFrees(g, e, [0])
  {
    var g := Geometry(16, 1, 1, 1, 32, 4, 4);
    var e := InodeEntry(Regular, 0, 32, map[0 := 3], 5);
    var blocks := map[5 := Block(map[], map[0 := 7], map[])];
    assert FileBlock(g, e, blocks, 0) == 3;
    assert FileBlock(g, e, blocks, 1) == 7;
    assert IndirectWords(g, blocks, 5) == [7];
    assert DirectAddrs(g, e) == [3];
    assert NonZero([3]) == [3] && NonZero([7]) == [7] && NonZero([0]) == [];
  }

  /** Along a chain of growing sets, the last differs from the first
      exactly when some step added something. */
  lemma GrowsChain(u0: set<nat>, u1: set<nat>, u2: set<nat>)
    requires u0 <= u1 <= u2
    ensures (u2 != u0) == (u1 != u0 || u2 != u1)
  {
    if u1 != u0 {
      var x :| x in u1 && x !in u0;
      assert x in u2;
    }
  }

  /** The inode layer with its super block, block cache and the list
      `head` of in-memory inodes. */
  class InodeTree {
    const geo: Geometry
    const sb: SuperBlock
    const cache: Cache
    var list: seq<Inode>

    /** The constants are sound and the inode table lies below the blocks
        the cache can allocate. */
    ghost predicate Ready()
      reads this, cache
    {
      && geo.Valid() && cache.Valid()
      && forall k: nat :: k < sb.numInodes ==> ToBlockNo(geo, sb, k) < cache.dataStart
    }

    /** At most one in-memory inode per inode number; every listed inode
        is referenced, holds its disk entry, and has a number in
        `1 .. num_inodes-1`. */
    ghost predicate Valid()
      reads this, list
    {
      && (forall i, j :: 0 <= i < j < |list| ==> list[i].inodeNo != list[j].inodeNo)
      && (forall i :: 0 <= i < |list| ==> list[i].rc > 0 && list[i].valid && 0 < list[i].inodeNo < sb.numInodes)
    }

    /** `init_inodes`: an empty list over the given super block and cache. */
    constructor (geo: Geometry, sb: SuperBlock, cache: Cache)
      ensures this.geo == geo && this.sb == sb && this.cache == cache
      ensures list == [] && Valid()
    {
      this.geo := geo;
      this.sb := sb;
      this.cache := cache;
      list := [];
    }

    /** Some in-memory inode has number `k`. */
    ghost predicate Listed(k: nat)
      reads this
    {
      exists i :: 0 <= i < |list| && list[i].inodeNo == k
    }

    /** Inode `k` can be allocated: `1 < k < num_inodes` and its disk
        entry in `blocks` is `INODE_INVALID`. */
    ghost predicate IsFreeInode(blocks: map<nat, Block>, k: nat)
    {
      geo.Valid() && 1 < k < sb.numInodes && DiskEntry(geo, sb, blocks, k).typ == Invalid
    }

    /** `get_inode_inlist`: the listed inode with number `k`, if any. */
    method FindInList(k: nat) returns (r: Inode?)
      requires Valid()
      ensures r != null ==> r in list && r.inodeNo == k
      ensures r == null <==> !Listed(k)
    {
      var n := 0;
      while n < |list|
        invariant 0 <= n <= |list|
        invariant forall i :: 0 <= i < n ==> list[i].inodeNo != k
      {
        if list[n].inodeNo == k {
          return list[n];
        }
        n := n + 1;
      }
      return null;
    }

    /** `inode_alloc`: the first free inode number gets a zeroed entry of
        type `typ`, which is synced. */
    method InodeAlloc(typ: InodeType) returns (r: Result<nat>)
      requires Ready()
      modifies cache
      ensures r.Halt? <==> typ == Invalid || !exists k: nat :: IsFreeInode(old(cache.blocks), k)
      ensures r.Ok? ==> && IsFreeInode(old(cache.blocks), r.value)
                        && (forall k: nat :: k < r.value ==> !IsFreeInode(old(cache.blocks), k))
                        && cache.blocks == WithDiskEntry(geo, sb, old(cache.blocks), r.value, ZeroEntry.(typ := typ))
                        && cache.syncLog == old(cache.syncLog) + [ToBlockNo(geo, sb, r.value)]
      ensures r.Halt? ==> cache.blocks == old(cache.blocks) && cache.syncLog == old(cache.syncLog)
      ensures r.Halt? && typ != Invalid ==> r.reason == "failed to allocate inode on disk"
      ensures cache.used == old(cache.used) && cache.freeLog == old(cache.freeLog)
    {
      if typ == Invalid {
        return Halt("inode_alloc: assert type != INODE_INVALID");
      }
      var i := 0;
      ghost var q := 0;
      while i < sb.numInodes
        invariant i == q * geo.inodePerBlock
        invariant forall k: nat :: k < i ==> !IsFreeInode(cache.blocks, k)
        invariant cache.blocks == old(cache.blocks) && cache.syncLog == old(cache.syncLog)
        invariant cache.used == old(cache.used) && cache.freeLog == old(cache.freeLog)
      {
        var bno := ToBlockNo(geo, sb, i);
        PlaceOf(geo, sb, q, 0);
        var blk := cache.Read(bno);
        var j := 0;
        while j < geo.inodePerBlock
          invariant 0 <= j <= geo.inodePerBlock
          invariant forall k: nat :: k < i + j ==> !IsFreeInode(cache.blocks, k)
          invariant cache.blocks == old(cache.blocks) && cache.syncLog == old(cache.syncLog)
          invariant cache.used == old(cache.used) && cache.freeLog == old(cache.freeLog)
        {
          var check := i + j;
          PlaceOf(geo, sb, q, j);
          if 1 < check < sb.numInodes && blk.Entry(Slot(geo, check)).typ == Invalid {
            assert IsFreeInode(cache.blocks, check);
            cache.PutEntry(bno, Slot(geo, check), ZeroEntry.(typ := typ));
            cache.Sync(bno);
            return Ok(check);
          }
          j := j + 1;
        }
        i := i + geo.inodePerBlock;
        q := q + 1;
      }
      return Halt("failed to allocate inode on disk");
    }

    /** `inode_sync`: halts on a number outside `1 .. num_inodes-1` or an
        invalid disk entry; otherwise loads the disk entry into an inode
        that does not hold it yet, or writes a held entry back when
        `doWrite` is set. */
    method InodeSync(inode: Inode, doWrite: bool) returns (s: Status)
      requires Ready()
      modifies inode`entry, inode`valid, cache
      ensures s.Halted? <==> !(0 < inode.inodeNo < sb.numInodes)
                             || old(DiskEntry(geo, sb, cache.blocks, inode.inodeNo)).typ == Invalid
      ensures s.Halted? || (old(inode.valid) && !doWrite) ==>
                && inode.entry == old(inode.entry) && inode.valid == old(inode.valid)
                && cache.blocks == old(cache.blocks) && cache.syncLog == old(cache.syncLog)
      ensures s.Done? && !old(inode.valid) ==>
                && inode.valid && inode.entry == old(DiskEntry(geo, sb, cache.blocks, inode.inodeNo))
                && cache.blocks == old(cache.blocks) && cache.syncLog == old(cache.syncLog)
      ensures s.Done? && old(inode.valid) && doWrite ==>
                && inode.entry == old(inode.entry) && inode.valid
                && cache.blocks == WithDiskEntry(geo, sb, old(cache.blocks), inode.inodeNo, inode.entry)
                && cache.syncLog == old(cache.syncLog) + [ToBlockNo(geo, sb, inode.inodeNo)]
      ensures cache.used == old(cache.used) && cache.freeLog == old(cache.freeLog)
    {
      var k := inode.inodeNo;
      var bno := ToBlockNo(geo, sb, k);
      var disk := cache.Read(bno).Entry(Slot(geo, k));
      if k <= 0 || k >= sb.numInodes {
        return Halted("inode_sync : inode_number <= 0 or inode_number >= MAX_num_inodes.\n");
      }
      if disk.typ == Invalid {
        return Halted("inode_sync : trying to synchronize unvalid inode on disk.\n");
      }
      if !inode.valid {
        inode.entry := disk;
        inode.valid := true;
      } else if doWrite {
        cache.PutEntry(bno, Slot(geo, k), inode.entry);
        cache.Sync(bno);
      }
      return Done;
    }

    /** `inode_get`: the listed inode `k` with one more reference, or a new
        inode loaded from disk (a directory when `k` is the root, 1) and
        added to the list. */
    method InodeGet(k: nat) returns (r: Result<Inode>)
      requires Ready() && Valid()
      modifies this, list, cache
      ensures Valid()
      ensures r.Halt? <==> !(0 < k < sb.numInodes)
                           || (!old(Listed(k)) && old(DiskEntry(geo, sb, cache.blocks, k)).typ == Invalid)
      ensures r.Ok? && old(Listed(k)) ==>
                && r.value in old(list) && r.value.inodeNo == k
                && list == old(list) && r.value.rc == old(r.value.rc) + 1
      ensures r.Ok? && !old(Listed(k)) ==>
                && fresh(r.value) && list == old(list) + [r.value]
                && r.value.inodeNo == k && r.value.rc == 1 && r.value.valid
                && r.value.entry == (if k == 1 then old(DiskEntry(geo, sb, cache.blocks, k)).(typ := Directory)
                                     else old(DiskEntry(geo, sb, cache.blocks, k)))
      ensures r.Halt? ==> list == old(list)
      ensures forall i :: i in old(list) ==>
                && i.entry == old(i.entry) && i.valid == old(i.valid)
                && (i.rc == old(i.rc) || (r.Ok? && i == r.value))
      ensures cache.blocks == old(cache.blocks) && cache.used == old(cache.used)
      ensures cache.syncLog == old(cache.syncLog) && cache.freeLog == old(cache.freeLog)
    {
      if k == 0 {
        return Halt("inode_get: assert inode_no > 0");
      }
      if k >= sb.numInodes {
        return Halt("inode_get: assert inode_no < num_inodes");
      }
      var found := FindInList(k);
      if found != null {
        found.rc := found.rc + 1;
        return Ok(found);
      }
      r := LoadInode(k);
    }

    /** The branch of `inode_get` for an inode number that is not listed:
        a new inode loaded from disk joins the list with one reference. */
    method LoadInode(k: nat) returns (r: Result<Inode>)
      requires Ready() && Valid() && 0 < k < sb.numInodes && !Listed(k)
      modifies this, cache
      ensures Valid()
      ensures r.Halt? <==> old(DiskEntry(geo, sb, cache.blocks, k)).typ == Invalid
      ensures r.Ok? ==>
                && fresh(r.value) && list == old(list) + [r.value]
                && r.value.inodeNo == k && r.value.rc == 1 && r.value.valid
                && r.value.entry == (if k == 1 then old(DiskEntry(geo, sb, cache.blocks, k)).(typ := Directory)
                                     else old(DiskEntry(geo, sb, cache.blocks, k)))
      ensures r.Halt? ==> list == old(list)
      ensures cache.blocks == old(cache.blocks) && cache.used == old(cache.used)
      ensures cache.syncLog == old(cache.syncLog) && cache.freeLog == old(cache.freeLog)
    {
      var inode := new Inode(k);
      var s := InodeSync(inode, false);
      if s.Halted? {
        return Halt(s.reason);
      }
      if k == 1 {
        inode.entry := inode.entry.(typ := Directory);
      }
      inode.rc := inode.rc + 1;
      list := list + [inode];
      return Ok(inode);
    }

    /** `inode_share`: one more reference to `inode`. */
    method InodeShare(inode: Inode) returns (r: Inode)
      modifies inode`rc
      ensures r == inode && inode.rc == old(inode.rc) + 1
      ensures old(Valid()) ==> Valid()
    {
      inode.rc := inode.rc + 1;
      return inode;
    }

    /** The first loop of `inode_clear`: frees the non-zero direct
        blocks when the inode is valid, and zeroes every direct address. */
    method ClearDirect(inode: Inode)
      modifies inode`entry, cache
      ensures inode.entry == ClearedBelow(old(inode.entry), geo.numDirect)
      ensures cache.freeLog == old(cache.freeLog) + (if inode.valid then NonZero(DirectAddrs(geo, old(inode.entry))) else [])
      ensures cache.used == old(cache.used) - (if inode.valid then Elems(NonZero(DirectAddrs(geo, old(inode.entry)))) else {})
      ensures cache.blocks == old(cache.blocks) && cache.syncLog == old(cache.syncLog)
    {
      ghost var e0, f0, u0 := inode.entry, cache.freeLog, cache.used;
      ghost var freed: seq<nat> := [];
      var i := 0;
      while i < geo.numDirect
        invariant 0 <= i <= geo.numDirect
        invariant inode.entry == ClearedBelow(e0, i)
        invariant freed == (if inode.valid then DirectFreed(e0, i) else [])
        invariant cache.freeLog == f0 + freed && cache.used == u0 - Elems(freed)
        invariant cache.blocks == old(cache.blocks) && cache.syncLog == old(cache.syncLog)
      {
        freed := ClearAddr(inode, i, e0, freed, f0, u0);
        i := i + 1;
      }
      DirectFreedNonZero(geo, e0, i);
      assert DirectAddrs(geo, e0)[..i] == DirectAddrs(geo, e0);
    }

    /** One pass of `inode_clear`'s first loop: a non-zero direct address
        `i` is freed (when the inode is valid) and set to 0. `freed` is
        what the loop has freed so far, from `used == u0`. */
    method ClearAddr(inode: Inode, i: nat, ghost e0: InodeEntry, ghost freed: seq<nat>, ghost f0: seq<nat>, ghost u0: set<nat>)
        returns (ghost freed': seq<nat>)
      requires inode.entry == ClearedBelow(e0, i)
      requires cache.freeLog == f0 + freed && cache.used == u0 - Elems(freed)
      modifies inode`entry, cache
      ensures inode.entry == ClearedBelow(e0, i + 1)
      ensures freed' == freed + (if inode.valid && e0.Addr(i) != 0 then [e0.Addr(i)] else [])
      ensures cache.freeLog == f0 + freed' && cache.used == u0 - Elems(freed')
      ensures cache.blocks == old(cache.blocks) && cache.syncLog == old(cache.syncLog)
    {
      freed' := freed;
      var a := inode.entry.Addr(i);
      assert a == e0.Addr(i) by {
        ClearedBelowAddr(e0, i, i);
      }
      if a != 0 {
        if inode.valid {
          cache.Free(a);
          ElemsSnoc(u0, freed, a);
          freed' := freed + [a];
          assert cache.freeLog == f0 + freed';
        }
        inode.entry := inode.entry.(addrs := inode.entry.addrs[i := 0]);
      }
      assert inode.entry == ClearedBelow(e0, i + 1) by {
        ClearedBelowStep(e0, i);
      }
    }

    /** The second loop of `inode_clear`, for a valid inode with an
        indirect block: frees the non-zero `words`, then the indirect
        block. */
    method ClearIndirect(indirect: nat, words: seq<nat>)
      modifies cache
      ensures cache.freeLog == old(cache.freeLog) + NonZero(words) + [indirect]
      ensures cache.used == old(cache.used) - Elems(NonZero(words) + [indirect])
      ensures cache.blocks == old(cache.blocks) && cache.syncLog == old(cache.syncLog)
    {
      var j := 0;
      while j < |words|
        invariant 0 <= j <= |words|
        invariant cache.freeLog == old(cache.freeLog) + NonZero(words[..j])
        invariant cache.used == old(cache.used) - Elems(NonZero(words[..j]))
        invariant cache.blocks == old(cache.blocks) && cache.syncLog == old(cache.syncLog)
      {
        assert words[..j + 1] == words[..j] + [words[j]];
        NonZeroSnoc(words[..j], words[j]);
        if words[j] != 0 {
          cache.Free(words[j]);
        }
        j := j + 1;
      }
      assert words[..j] == words;
      cache.Free(indirect);
    }

    /** `inode_clear`, freeing the blocks listed in `words` as the indirect
        block's, followed by its final `inode_sync`. */
    method ClearWith(inode: Inode, words: seq<nat>) returns (s: Status)
      requires Ready()
      modifies inode`entry, inode`valid, cache
      ensures cache.freeLog == old(cache.freeLog) + (if old(inode.valid) then ClearFrees(geo, old(inode.entry), words) else [])
      ensures cache.used == old(cache.used) - (if old(inode.valid) then Elems(ClearFrees(geo, old(inode.entry), words)) else {})
      ensures s.Halted? <==> !(0 < inode.inodeNo < sb.numInodes)
                             || old(DiskEntry(geo, sb, cache.blocks, inode.inodeNo)).typ == Invalid
      ensures s.Done? && old(inode.valid) ==>
                && inode.valid && inode.entry == Cleared(geo, old(inode.entry))
                && cache.blocks == WithDiskEntry(geo, sb, old(cache.blocks), inode.inodeNo, inode.entry)
                && cache.syncLog == old(cache.syncLog) + [ToBlockNo(geo, sb, inode.inodeNo)]
      ensures s.Done? && !old(inode.valid) ==>
                && inode.valid && inode.entry == old(DiskEntry(geo, sb, cache.blocks, inode.inodeNo))
                && cache.blocks == old(cache.blocks) && cache.syncLog == old(cache.syncLog)
    {
      ClearBlocks(inode, words);
      s := InodeSync(inode, true);
    }

    /** The two loops of `inode_clear` and its reset of the indirect
        address, freeing the blocks listed in `words` as the indirect
        block's. */
    method ClearBlocks(inode: Inode, words: seq<nat>)
      modifies inode`entry, cache
      ensures inode.entry == Cleared(geo, old(inode.entry))
      ensures cache.freeLog == old(cache.freeLog) + (if inode.valid then ClearFrees(geo, old(inode.entry), words) else [])
      ensures cache.used == old(cache.used) - (if inode.valid then Elems(ClearFrees(geo, old(inode.entry), words)) else {})
      ensures cache.blocks == old(cache.blocks) && cache.syncLog == old(cache.syncLog)
    {
      ghost var e0, f0, u0 := inode.entry, cache.freeLog, cache.used;
      ghost var direct := NonZero(DirectAddrs(geo, e0));
      ClearDirect(inode);
      if inode.entry.indirect != 0 && inode.valid {
        ghost var rest := NonZero(words) + [inode.entry.indirect];
        ClearIndirect(inode.entry.indirect, words);
        assert ClearFrees(geo, e0, words) == direct + rest;
        assert cache.freeLog == f0 + (direct + rest);
        assert cache.used == u0 - Elems(direct + rest) by {
          ElemsConcat(direct, rest);
        }
      } else if inode.valid {
        assert ClearFrees(geo, e0, words) == direct;
      }
      inode.entry := inode.entry.(indirect := 0);
    }

    /** `inode_clear` as written: the words it frees as the indirect
        block's are `headerWords`, read from the block's header (see
        `ClearAsWrittenLeaks`). */
    method InodeClearAsWritten(inode: Inode, headerWords: seq<nat>) returns (s: Status)
      requires Ready()
      modifies inode`entry, inode`valid, cache
      ensures cache.freeLog == old(cache.freeLog) + (if old(inode.valid) then ClearFrees(geo, old(inode.entry), headerWords) else [])
      ensures s.Done? && old(inode.valid) ==> inode.entry == Cleared(geo, old(inode.entry))
    {
      s := ClearWith(inode, headerWords);
    }

    /** `inode_clear` reading the indirect block's own block numbers: frees
        every block of the file (each once, when the file is sound, by
        `ClearFreesMapped`) and writes the cleared entry to disk. */
    method InodeClear(inode: Inode) returns (s: Status)
      requires Ready()
      modifies inode`entry, inode`valid, cache
      ensures cache.freeLog == old(cache.freeLog)
                + (if old(inode.valid) then ClearFrees(geo, old(inode.entry), old(IndirectWords(geo, cache.blocks, inode.entry.indirect))) else [])
      ensures cache.used == old(cache.used)
                - (if old(inode.valid) then Elems(ClearFrees(geo, old(inode.entry), old(IndirectWords(geo, cache.blocks, inode.entry.indirect)))) else {})
      ensures s.Halted? <==> !(0 < inode.inodeNo < sb.numInodes)
                             || old(DiskEntry(geo, sb, cache.blocks, inode.inodeNo)).typ == Invalid
      ensures s.Done? && old(inode.valid) ==>
                && inode.valid && inode.entry == Cleared(geo, old(inode.entry))
                && cache.blocks == WithDiskEntry(geo, sb, old(cache.blocks), inode.inodeNo, inode.entry)
                && cache.syncLog == old(cache.syncLog) + [ToBlockNo(geo, sb, inode.inodeNo)]
      ensures s.Done? && !old(inode.valid) ==>
                && inode.valid && inode.entry == old(DiskEntry(geo, sb, cache.blocks, inode.inodeNo))
                && cache.blocks == old(cache.blocks) && cache.syncLog == old(cache.syncLog)
    {
      s := ClearWith(inode, IndirectWords(geo, cache.blocks, inode.entry.indirect));
    }

    /** The listed inodes without `inode`, in the same order. */
    ghost predicate Removed(before: seq<Inode>, inode: Inode)
      reads this
    {
      exists idx :: 0 <= idx < |before| && before[idx] == inode && list == before[..idx] + before[idx + 1..]
    }

    /** What `inode_put` does to an unreferenced inode with no links:
        `inode_clear`, then the all-zero entry is written to disk. */
    method Destroy(inode: Inode) returns (s: Status)
      requires Ready() && inode.valid && 0 < inode.inodeNo < sb.numInodes
      modifies inode`entry, inode`valid, cache
      ensures s.Halted? <==> old(DiskEntry(geo, sb, cache.blocks, inode.inodeNo)).typ == Invalid
                             || old(inode.entry.typ) == Invalid
      ensures s.Done? ==>
                && inode.entry == ZeroEntry && inode.valid
                && cache.blocks == WithDiskEntry(geo, sb, old(cache.blocks), inode.inodeNo, ZeroEntry)
                && cache.syncLog == old(cache.syncLog) + [ToBlockNo(geo, sb, inode.inodeNo), ToBlockNo(geo, sb, inode.inodeNo)]
      ensures cache.freeLog == old(cache.freeLog)
                + ClearFrees(geo, old(inode.entry), old(IndirectWords(geo, cache.blocks, inode.entry.indirect)))
      ensures cache.used == old(cache.used)
                - Elems(ClearFrees(geo, old(inode.entry), old(IndirectWords(geo, cache.blocks, inode.entry.indirect))))
    {
      s := InodeClear(inode);
      if s.Halted? {
        return;
      }
      DiskEntryUpdate(geo, sb, old(cache.blocks), inode.inodeNo, inode.entry, inode.inodeNo);
      inode.entry := ZeroEntry;
      s := InodeSync(inode, true);
      if s.Done? {
        DiskEntryOverwrite(geo, sb, old(cache.blocks), inode.inodeNo, Cleared(geo, old(inode.entry)), ZeroEntry);
      }
    }

    /** `detach_from_list`: the list without `inode`. */
    method Detach(inode: Inode)
      requires inode in list
      requires forall i, j :: 0 <= i < j < |list| ==> list[i].inodeNo != list[j].inodeNo
      requires forall i :: 0 <= i < |list| && list[i] != inode ==>
                 list[i].rc > 0 && list[i].valid && 0 < list[i].inodeNo < sb.numInodes
      modifies this
      ensures Removed(old(list), inode) && Valid()
    {
      var idx :| 0 <= idx < |list| && list[idx] == inode;
      ghost var l0 := list;
      list := list[..idx] + list[idx + 1..];
      assert Removed(l0, inode);
      assert forall i :: 0 <= i < |list| ==> list[i] == (if i < idx then l0[i] else l0[i + 1]);
      forall i | 0 <= i < |list|
        ensures list[i] != inode
      {
        if i < idx {
          assert l0[i].inodeNo != l0[idx].inodeNo;
        } else {
          assert l0[idx].inodeNo != l0[i + 1].inodeNo;
        }
      }
    }

    /** `inode_put`: drops one reference; the last one removes the inode
        from the list, after clearing it on disk when it has no links and
        is not the root. */
    method InodePut(inode: Inode) returns (s: Status)
      requires Ready() && Valid() && inode in list
      modifies this, inode, cache
      ensures old(inode.rc) > 1 ==>
                && s.Done? && inode.rc == old(inode.rc) - 1 && list == old(list)
                && inode.entry == old(inode.entry)
                && cache.blocks == old(cache.blocks) && cache.used == old(cache.used)
                && cache.syncLog == old(cache.syncLog) && cache.freeLog == old(cache.freeLog)
      ensures old(inode.rc) == 1 && !(old(inode.entry.numLinks) == 0 && inode.inodeNo != 1) ==>
                && s.Done? && inode.rc == 0 && Removed(old(list), inode)
                && inode.entry == old(inode.entry)
                && cache.blocks == old(cache.blocks) && cache.used == old(cache.used)
                && cache.syncLog == old(cache.syncLog) && cache.freeLog == old(cache.freeLog)
      ensures old(inode.rc) == 1 && old(inode.entry.numLinks) == 0 && inode.inodeNo != 1 ==>
                (s.Halted? <==> old(DiskEntry(geo, sb, cache.blocks, inode.inodeNo)).typ == Invalid
                                || old(inode.entry.typ) == Invalid)
      ensures old(inode.rc) == 1 && old(inode.entry.numLinks) == 0 && inode.inodeNo != 1 && s.Done? ==>
                && inode.rc == 0 && Removed(old(list), inode) && inode.entry == ZeroEntry
                && cache.blocks == WithDiskEntry(geo, sb, old(cache.blocks), inode.inodeNo, ZeroEntry)
                && cache.syncLog == old(cache.syncLog) + [ToBlockNo(geo, sb, inode.inodeNo), ToBlockNo(geo, sb, inode.inodeNo)]
      ensures old(inode.rc) == 1 && old(inode.entry.numLinks) == 0 && inode.inodeNo != 1 ==>
                && cache.freeLog == old(cache.freeLog)
                     + ClearFrees(geo, old(inode.entry), old(IndirectWords(geo, cache.blocks, inode.entry.indirect)))
                && cache.used == old(cache.used)
                     - Elems(ClearFrees(geo, old(inode.entry), old(IndirectWords(geo, cache.blocks, inode.entry.indirect))))
      ensures s.Done? ==> Valid()
    {
      inode.rc := inode.rc - 1;
      if inode.rc > 0 {
        return Done;
      }
      if inode.entry.numLinks == 0 && inode.inodeNo != 1 {
        s := Destroy(inode);
        if s.Halted? {
          return;
        }
      }
      Detach(inode);
      return Done;
    }
  
    /** `inode_map`: the block holding `offset`, allocating the indirect
        block and the data block when they are missing; `modified'` records
        whether anything was allocated (it never goes back to false). */
    method InodeMap(inode: Inode, offset: nat, modified: bool) returns (r: Result<nat>, modified': bool)
      requires Ready()
      modifies inode`entry, cache
      ensures offset >= geo.maxBytes ==> r == Halt("inode_map: assert offset < INODE_MAX_BYTES") && inode.entry == old(inode.entry)
                                         && cache.blocks == old(cache.blocks) && cache.used == old(cache.used)
      ensures r.Halt? && offset < geo.maxBytes ==>
                old(FileBlock(geo, inode.entry, cache.blocks, offset / geo.blockSize)) == 0
                && r.reason == "cache_alloc: no free block" && cache.Full()
      ensures offset < geo.maxBytes && old(FileBlock(geo, inode.entry, cache.blocks, offset / geo.blockSize)) != 0 ==>
                && r == Ok(old(FileBlock(geo, inode.entry, cache.blocks, offset / geo.blockSize)))
                && inode.entry == old(inode.entry) && cache.blocks == old(cache.blocks) && cache.used == old(cache.used)
      ensures r.Ok? ==> r.value != 0 && r.value == FileBlock(geo, inode.entry, cache.blocks, offset / geo.blockSize)
      ensures r.Ok? && old(FileWF(geo, inode.entry, cache.blocks, cache.used)) ==>
                && FileWF(geo, inode.entry, cache.blocks, cache.used)
                && KeepsMapped(geo, old(inode.entry), old(cache.blocks), inode.entry, cache.blocks)
                && forall j: nat :: j != offset / geo.blockSize ==>
                     FileBlock(geo, inode.entry, cache.blocks, j) == old(FileBlock(geo, inode.entry, cache.blocks, j))
      ensures old(cache.used) <= cache.used
      ensures modified' == (modified || cache.used != old(cache.used))
      ensures inode.entry.typ == old(inode.entry.typ) && inode.entry.numLinks == old(inode.entry.numLinks)
      ensures inode.entry.numBytes == old(inode.entry.numBytes)
      ensures cache.syncLog == old(cache.syncLog) && cache.freeLog == old(cache.freeLog)
      ensures ChangedOnly(old(cache.blocks), cache.blocks, old(cache.used), {old(inode.entry.indirect)} - {0})
      ensures OldOrFresh(geo, old(inode.entry), old(cache.blocks), inode.entry, cache.blocks, old(cache.used))
      ensures EntriesKept(old(cache.blocks), cache.blocks, cache.dataStart)
    {
      modified' := modified;
      if offset >= geo.maxBytes {
        return Halt("inode_map: assert offset < INODE_MAX_BYTES"), modified';
      }
      var idx := offset / geo.blockSize;
      if idx < geo.numDirect {
        r, modified' := MapDirect(inode, idx, modified');
      } else {
        Arith.DivBelow(offset, geo.numDirect + geo.numIndirect, geo.blockSize);
        r, modified' := MapIndirect(inode, idx, modified');
      }
    }

    /** `inode_map` for a direct slot. */
    method MapDirect(inode: Inode, idx: nat, modified: bool) returns (r: Result<nat>, modified': bool)
      requires Ready() && idx < geo.numDirect
      modifies inode`entry, cache
      ensures r.Halt? ==> old(FileBlock(geo, inode.entry, cache.blocks, idx)) == 0 && r.reason == "cache_alloc: no free block"
      ensures r.Halt? ==> cache.Full()
      ensures old(FileBlock(geo, inode.entry, cache.blocks, idx)) != 0 ==>
                && r == Ok(old(FileBlock(geo, inode.entry, cache.blocks, idx)))
                && inode.entry == old(inode.entry) && cache.blocks == old(cache.blocks) && cache.used == old(cache.used)
      ensures r.Ok? ==> r.value != 0 && r.value == FileBlock(geo, inode.entry, cache.blocks, idx)
      ensures r.Ok? && old(FileWF(geo, inode.entry, cache.blocks, cache.used)) ==>
                && FileWF(geo, inode.entry, cache.blocks, cache.used)
                && KeepsMapped(geo, old(inode.entry), old(cache.blocks), inode.entry, cache.blocks)
                && forall j: nat :: j != idx ==>
                     FileBlock(geo, inode.entry, cache.blocks, j) == old(FileBlock(geo, inode.entry, cache.blocks, j))
      ensures old(cache.used) <= cache.used
      ensures modified' == (modified || cache.used != old(cache.used))
      ensures inode.entry.typ == old(inode.entry.typ) && inode.entry.numLinks == old(inode.entry.numLinks)
      ensures inode.entry.numBytes == old(inode.entry.numBytes)
      ensures cache.syncLog == old(cache.syncLog) && cache.freeLog == old(cache.freeLog)
      ensures ChangedOnly(old(cache.blocks), cache.blocks, old(cache.used), {old(inode.entry.indirect)} - {0})
      ensures OldOrFresh(geo, old(inode.entry), old(cache.blocks), inode.entry, cache.blocks, old(cache.used))
      ensures EntriesKept(old(cache.blocks), cache.blocks, cache.dataStart)
    {
      modified' := modified;
      var a := inode.entry.Addr(idx);
      if a != 0 {
        return Ok(a), modified';
      }
      ghost var e0, b0, u0 := inode.entry, cache.blocks, cache.used;
      var ra := cache.Alloc();
      if ra.Halt? {
        return Halt(ra.reason), modified';
      }
      ChangedAt(b0, b0, u0, {e0.indirect} - {0}, ra.value, ZeroBlock);
      EntriesAt(b0, b0, cache.dataStart, ra.value, ZeroBlock);
      ZeroedOldOrFresh(geo, e0, b0, u0, ra.value);
      DirectOldOrFresh(geo, e0, cache.blocks, u0, idx, ra.value);
      OldOrFreshTrans(geo, e0, b0, e0, cache.blocks, e0.(addrs := e0.addrs[idx := ra.value]), cache.blocks, u0, u0);
      inode.entry := inode.entry.(addrs := inode.entry.addrs[idx := ra.value]);
      modified' := true;
      if FileWF(geo, e0, b0, u0) {
        OutsideUsedFrame(geo, e0, b0, cache.blocks, u0, u0);
        SetDirect(geo, e0, cache.blocks, u0, idx, ra.value);
        KeepsMappedTrans(geo, e0, b0, e0, cache.blocks, inode.entry, cache.blocks);
      }
      return Ok(ra.value), modified';
    }

    /** `inode_map` for a slot of the indirect block, allocating the
        indirect block first when there is none. */
    method MapIndirect(inode: Inode, idx: nat, modified: bool) returns (r: Result<nat>, modified': bool)
      requires Ready() && geo.numDirect <= idx < geo.numDirect + geo.numIndirect
      modifies inode`entry, cache
      ensures r.Halt? ==> old(FileBlock(geo, inode.entry, cache.blocks, idx)) == 0 && r.reason == "cache_alloc: no free block"
      ensures r.Halt? ==> cache.Full()
      ensures old(FileBlock(geo, inode.entry, cache.blocks, idx)) != 0 ==>
                && r == Ok(old(FileBlock(geo, inode.entry, cache.blocks, idx)))
                && inode.entry == old(inode.entry) && cache.blocks == old(cache.blocks) && cache.used == old(cache.used)
      ensures r.Ok? ==> r.value != 0 && r.value == FileBlock(geo, inode.entry, cache.blocks, idx)
      ensures r.Ok? && old(FileWF(geo, inode.entry, cache.blocks, cache.used)) ==>
                && FileWF(geo, inode.entry, cache.blocks, cache.used)
                && KeepsMapped(geo, old(inode.entry), old(cache.blocks), inode.entry, cache.blocks)
                && forall j: nat :: j != idx ==>
                     FileBlock(geo, inode.entry, cache.blocks, j) == old(FileBlock(geo, inode.entry, cache.blocks, j))
      ensures old(cache.used) <= cache.used
      ensures modified' == (modified || cache.used != old(cache.used))
      ensures inode.entry.typ == old(inode.entry.typ) && inode.entry.numLinks == old(inode.entry.numLinks)
      ensures inode.entry.numBytes == old(inode.entry.numBytes)
      ensures cache.syncLog == old(cache.syncLog) && cache.freeLog == old(cache.freeLog)
      ensures ChangedOnly(old(cache.blocks), cache.blocks, old(cache.used), {old(inode.entry.indirect)} - {0})
      ensures OldOrFresh(geo, old(inode.entry), old(cache.blocks), inode.entry, cache.blocks, old(cache.used))
      ensures EntriesKept(old(cache.blocks), cache.blocks, cache.dataStart)
    {
      modified' := modified;
      ghost var e0, b0, u0 := inode.entry, cache.blocks, cache.used;
      ghost var wf := FileWF(geo, e0, b0, u0);
      if inode.entry.indirect == 0 {
        var ri := cache.Alloc();
        if ri.Halt? {
          return Halt(ri.reason), modified';
        }
        ChangedAt(b0, b0, u0, {e0.indirect} - {0}, ri.value, ZeroBlock);
        EntriesAt(b0, b0, cache.dataStart, ri.value, ZeroBlock);
        ZeroedOldOrFresh(geo, e0, b0, u0, ri.value);
        IndirectOldOrFresh(geo, e0, cache.blocks, u0, ri.value);
        OldOrFreshTrans(geo, e0, b0, e0, cache.blocks, e0.(indirect := ri.value), cache.blocks, u0, u0);
        inode.entry := inode.entry.(indirect := ri.value);
        modified' := true;
        if wf {
          OutsideUsedFrame(geo, e0, b0, cache.blocks, u0, u0);
          SetIndirectBlock(geo, e0, cache.blocks, u0, ri.value);
          KeepsMappedTrans(geo, e0, b0, e0, cache.blocks, inode.entry, cache.blocks);
        }
      }
      assert FileBlock(geo, inode.entry, cache.blocks, idx) == cache.Read(inode.entry.indirect).Addr(idx - geo.numDirect);
      var a := cache.Read(inode.entry.indirect).Addr(idx - geo.numDirect);
      if a != 0 {
        return Ok(a), modified';
      }
      ghost var e1, b1, u1 := inode.entry, cache.blocks, cache.used;
      assert wf ==> FileWF(geo, e1, b1, u1) && KeepsMapped(geo, e0, b0, e1, b1);
      var rb := cache.Alloc();
      if rb.Halt? {
        return Halt(rb.reason), modified';
      }
      ghost var b2 := cache.blocks;
      ChangedAt(b0, b1, u0, {e0.indirect} - {0}, rb.value, ZeroBlock);
      EntriesAt(b0, b1, cache.dataStart, rb.value, ZeroBlock);
      ZeroedOldOrFresh(geo, e1, b1, u1, rb.value);
      OldOrFreshTrans(geo, e0, b0, e1, b1, e1, b2, u0, u1);
      cache.PutAddr(inode.entry.indirect, idx - geo.numDirect, rb.value);
      ChangedAt(b0, b2, u0, {e0.indirect} - {0}, e1.indirect, cache.blocks[e1.indirect]);
      EntriesAt(b0, b2, cache.dataStart, e1.indirect, cache.blocks[e1.indirect]);
      SlotOldOrFresh(geo, e1, b2, u1, idx - geo.numDirect, rb.value);
      OldOrFreshTrans(geo, e0, b0, e1, b2, e1, cache.blocks, u0, u1);
      modified' := true;
      if wf {
        OutsideUsedFrame(geo, e1, b1, b2, u1, u1);
        SetIndirectSlot(geo, e1, b2, u1, idx, rb.value);
        KeepsMappedTrans(geo, e1, b1, e1, b2, e1, cache.blocks);
        KeepsMappedTrans(geo, e0, b0, e1, b1, e1, cache.blocks);
      }
      return Ok(rb.value), modified';
    }

    /** `inode_read`: the `count` bytes from `offset`, when the range lies
        within `num_bytes` and every block it touches passes
        `inode_map2`'s checks. */
    method InodeRead(inode: Inode, offset: nat, count: nat) returns (r: Result<seq<byte>>)
      requires Ready()
      ensures r.Ok? <==> && offset < inode.entry.numBytes && offset + count <= inode.entry.numBytes
                         && Readable(geo, inode.entry, cache.blocks, offset, offset + count)
      ensures r.Ok? ==> r.value == FileBytes(geo, inode.entry, cache.blocks, offset, count)
    {
      var end := offset + count;
      if offset >= inode.entry.numBytes {
        return Halt("inode_read: assert offset < num_bytes");
      }
      if end > inode.entry.numBytes {
        return Halt("inode_read: assert end <= num_bytes");
      }
      r := ReadRange(inode, offset, end);
    }

    /** The copy loop of `inode_read`: the bytes of `[offset, end)` block by
        block, halting at the first block `inode_map2` rejects. */
    method ReadRange(inode: Inode, offset: nat, end: nat) returns (r: Result<seq<byte>>)
      requires Ready() && offset <= end
      ensures r.Ok? <==> Readable(geo, inode.entry, cache.blocks, offset, end)
      ensures r.Ok? ==> r.value == FileBytes(geo, inode.entry, cache.blocks, offset, end - offset)
    {
      Arith.RoundDown(offset, geo.blockSize);
      var q := offset / geo.blockSize;
      var i := q * geo.blockSize;
      var out: seq<byte> := [];
      while i < end
        invariant i == q * geo.blockSize && offset / geo.blockSize <= q && offset < i + geo.blockSize
        invariant |out| == Max(Min(i, end), offset) - offset
        invariant out == FileBytes(geo, inode.entry, cache.blocks, offset, |out|)
        invariant MappedBelow(geo, inode.entry, cache.blocks, offset / geo.blockSize, q)
        decreases end - i
      {
        var chunk := ReadChunk(inode, offset, end, q, out);
        if chunk.None? {
          UnreadableAt(geo, inode.entry, cache.blocks, offset, end, q);
          return Halt("inode_map2: assert block is mapped");
        }
        MappedBelowStep(geo, inode.entry, cache.blocks, offset / geo.blockSize, q);
        out := chunk.value;
        assert (q + 1) * geo.blockSize == i + geo.blockSize;
        i := i + geo.blockSize;
        q := q + 1;
      }
      ReadableUpTo(geo, inode.entry, cache.blocks, offset, end, q);
      return Ok(out);
    }

    /** One pass of `inode_read`'s loop, at the file's block `q`: `done`
        extended by the part of `[offset, end)` that block `q` holds, or
        `None` where `inode_map2` rejects the block. */
    method ReadChunk(inode: Inode, offset: nat, end: nat, q: nat, done: seq<byte>) returns (r: Option<seq<byte>>)
      requires Ready() && offset <= end && q * geo.blockSize < end
      requires offset / geo.blockSize <= q && offset < q * geo.blockSize + geo.blockSize
      requires |done| == Max(Min(q * geo.blockSize, end), offset) - offset
      requires done == FileBytes(geo, inode.entry, cache.blocks, offset, |done|)
      ensures r.None? <==> !(q * geo.blockSize < geo.maxBytes && FileBlock(geo, inode.entry, cache.blocks, q) != 0)
      ensures r.Some? ==> && |r.value| == Max(Min(q * geo.blockSize + geo.blockSize, end), offset) - offset
                          && r.value == FileBytes(geo, inode.entry, cache.blocks, offset, |r.value|)
    {
      var i := q * geo.blockSize;
      Arith.BlockOffset(q, 0, geo.blockSize);
      var bno := Map2(inode, i);
      if bno == 0 {
        return None;
      }
      var start := ChunkStart(i, offset);
      var term := ChunkTerm(geo, i, end);
      ChunkStep(geo, inode.entry, cache.blocks, offset, end, q, done);
      return Some(done + cache.Read(bno).Bytes(start, term - start));
    }

    /** `inode_map2` for the block starting at `i`: its block number, or 0
        where one of its asserts fails. */
    method Map2(inode: Inode, i: nat) returns (bno: nat)
      requires Ready()
      ensures bno == (if i < geo.maxBytes then FileBlock(geo, inode.entry, cache.blocks, i / geo.blockSize) else 0)
    {
      if i >= geo.maxBytes {
        return 0;
      }
      var idx := i / geo.blockSize;
      if idx < geo.numDirect {
        return inode.entry.Addr(idx);
      }
      if inode.entry.indirect == 0 {
        return 0;
      }
      return cache.Read(inode.entry.indirect).Addr(idx - geo.numDirect);
    }

    /** The directory contents of `inode`: its first `num_bytes` bytes. */
    ghost function DirBytes(inode: Inode): seq<byte>
      requires Ready()
      reads this, cache, inode
    {
      FileBytes(geo, inode.entry, cache.blocks, 0, inode.entry.numBytes)
    }

    /** `inode_lookup`'s asserts: a directory whose size is a whole number
        of entries, and a name shorter than the name field. */
    ghost predicate LookupAllowed(inode: Inode, name: seq<byte>)
      requires Ready()
      reads this, cache, inode
    {
      && inode.entry.typ == Directory
      && inode.entry.numBytes % geo.DirEntrySize() == 0
      && |name| < geo.nameMax
    }

    /** `inode_lookup` as written: the outer loop runs while
        `block_index <= num_bytes`, so after a miss in a directory whose
        size is a multiple of `BLOCK_SIZE` (an empty one included) it calls
        `inode_read` at offset `num_bytes`, whose assert halts. */
    method InodeLookupAsWritten(inode: Inode, name: seq<byte>) returns (r: Result<Lookup>)
      requires Ready() && CString(name)
      ensures !LookupAllowed(inode, name) ==> r.Halt?
      ensures r.Ok? ==> r.value == LookupIn(geo, DirBytes(inode), name)
      ensures LookupAllowed(inode, name) && Readable(geo, inode.entry, cache.blocks, 0, inode.entry.numBytes) ==>
                (r.Ok? <==> LookupIn(geo, DirBytes(inode), name).Found? || inode.entry.numBytes % geo.blockSize != 0)
    {
      r := ScanDir(inode, name, true);
    }

    /** `inode_lookup` with the outer loop running while `block_index <
        num_bytes`: on a readable directory it always answers. */
    method InodeLookup(inode: Inode, name: seq<byte>) returns (r: Result<Lookup>)
      requires Ready() && CString(name)
      ensures !LookupAllowed(inode, name) ==> r.Halt?
      ensures r.Ok? ==> r.value == LookupIn(geo, DirBytes(inode), name)
      ensures LookupAllowed(inode, name) && Readable(geo, inode.entry, cache.blocks, 0, inode.entry.numBytes) ==> r.Ok?
    {
      r := ScanDir(inode, name, false);
    }

    /** The body of `inode_lookup`: block by block from the start, reads
        the block's part of the directory and scans its entries; the outer
        loop also runs at `block_index == num_bytes` when `throughEnd`. */
    method ScanDir(inode: Inode, name: seq<byte>, throughEnd: bool) returns (r: Result<Lookup>)
      requires Ready() && CString(name)
      ensures !LookupAllowed(inode, name) ==> r.Halt?
      ensures r.Ok? ==> r.value == LookupIn(geo, DirBytes(inode), name)
      ensures LookupAllowed(inode, name) && Readable(geo, inode.entry, cache.blocks, 0, inode.entry.numBytes) && r.Halt? ==>
                throughEnd && LookupIn(geo, DirBytes(inode), name) == NotFound
                && inode.entry.numBytes % geo.blockSize == 0
      ensures (&& LookupAllowed(inode, name) && throughEnd && LookupIn(geo, DirBytes(inode), name) == NotFound
               && inode.entry.numBytes % geo.blockSize == 0) ==> r.Halt?
    {
      if inode.entry.typ != Directory {
        return Halt("inode_lookup: assert type == INODE_DIRECTORY");
      }
      if inode.entry.numBytes % geo.DirEntrySize() != 0 {
        return Halt("inode_lookup: assert num_bytes % sizeof(DirEntry) == 0");
      }
      if |name| >= geo.nameMax {
        return Halt("inode_lookup: assert strlen(name) < FILE_NAME_MAX_LENGTH");
      }
      r := ScanBlocks(inode, name, throughEnd);
    }

    /** `inode_lookup`'s outer loop, once its asserts have passed. */
    method ScanBlocks(inode: Inode, name: seq<byte>, throughEnd: bool) returns (r: Result<Lookup>)
      requires Ready() && inode.entry.numBytes % geo.DirEntrySize() == 0
      ensures r.Ok? ==> r.value == LookupIn(geo, DirBytes(inode), name)
      ensures Readable(geo, inode.entry, cache.blocks, 0, inode.entry.numBytes) && r.Halt? ==>
                throughEnd && LookupIn(geo, DirBytes(inode), name) == NotFound
                && inode.entry.numBytes % geo.blockSize == 0
      ensures (&& throughEnd && LookupIn(geo, DirBytes(inode), name) == NotFound
               && inode.entry.numBytes % geo.blockSize == 0) ==> r.Halt?
    {
      var nb := inode.entry.numBytes;
      ghost var f := DirBytes(inode);
      ghost var readable := Readable(geo, inode.entry, cache.blocks, 0, nb);
      var bi: nat := 0;
      Arith.DivModUnique(0, geo.blockSize, 0, 0);
      Arith.DivModUnique(0, geo.DirEntrySize(), 0, 0);
      r := Ok(NotFound);
      while r == Ok(NotFound) && (bi < nb || (throughEnd && bi == nb))
        invariant bi % geo.blockSize == 0 && bi % geo.DirEntrySize() == 0
        invariant LookupIn(geo, f, name) == LookupFrom(geo, f, name, bi)
        invariant throughEnd && nb % geo.blockSize == 0 ==> bi <= nb
        invariant r.Ok? && r.value.Found? ==> r.value == LookupFrom(geo, f, name, bi)
        invariant r.Halt? ==> readable ==> throughEnd && bi == nb
        decreases r == Ok(NotFound), nb + 1 - bi
      {
        var len := Min(bi + geo.blockSize, nb) - bi;
        NextBlock(bi, nb, throughEnd);
        if readable && bi < nb {
          ReadableWithin(geo, inode.entry, cache.blocks, 0, nb, bi, bi + len);
        }
        r := ScanBlock(inode, name, bi, len);
        if r == Ok(NotFound) {
          LookupNextBlock(geo, f, name, bi, len, geo.blockSize);
          bi := bi + geo.blockSize;
        }
      }
      if r == Ok(NotFound) {
        LookupFromEnd(geo, f, name, bi);
      }
    }

    /** The arithmetic of one pass of `inode_lookup`'s outer loop. */
    lemma NextBlock(bi: nat, nb: nat, throughEnd: bool)
      requires geo.Valid() && bi % geo.blockSize == 0 && bi % geo.DirEntrySize() == 0 && bi <= nb
      requires nb % geo.DirEntrySize() == 0
      ensures (Min(bi + geo.blockSize, nb) - bi) % geo.DirEntrySize() == 0
      ensures (bi + geo.blockSize) % geo.blockSize == 0 && (bi + geo.blockSize) % geo.DirEntrySize() == 0
      ensures bi < nb && nb % geo.blockSize == 0 ==> bi + geo.blockSize <= nb
    {
      var d := geo.DirEntrySize();
      if bi + geo.blockSize > nb {
        Arith.MultipleSub(bi, nb, d);
      }
      Arith.MultipleAdd(bi, geo.blockSize, d);
      Arith.MultipleAdd(bi, geo.blockSize, geo.blockSize);
      if bi < nb && nb % geo.blockSize == 0 {
        Arith.MultipleGap(bi, nb, geo.blockSize);
      }
    }

    /** One pass of `inode_lookup`'s outer loop: reads the `len` bytes of
        the directory from `bi` and scans the entries in them. */
    method ScanBlock(inode: Inode, name: seq<byte>, bi: nat, len: nat) returns (r: Result<Lookup>)
      requires Ready() && len % geo.DirEntrySize() == 0
      ensures r.Ok? <==> && bi < inode.entry.numBytes && bi + len <= inode.entry.numBytes
                         && Readable(geo, inode.entry, cache.blocks, bi, bi + len)
      ensures r.Ok? && r.value.Found? ==> r.value == LookupFrom(geo, DirBytes(inode), name, bi)
      ensures r.Ok? && r.value.NotFound? ==>
                LookupFrom(geo, DirBytes(inode), name, bi) == LookupFrom(geo, DirBytes(inode), name, bi + len)
    {
      var rd := InodeRead(inode, bi, len);
      if rd.Halt? {
        return Halt(rd.reason);
      }
      var res := ScanEntries(rd.value, name, bi);
      assert rd.value == DirBytes(inode)[bi..bi + len] by {
        FileBytesWithin(geo, inode.entry, cache.blocks, 0, inode.entry.numBytes, bi, len);
      }
      if res.Found? {
        WindowLookupHit(geo, DirBytes(inode), name, bi, len);
      } else {
        WindowLookupMiss(geo, DirBytes(inode), name, bi, len);
      }
      return Ok(res);
    }

    /** The inner loop of `inode_lookup`: compares the entries of `buf`,
        the directory bytes read from offset `bi`, with `name` in order,
        `sizeof(DirEntry)` bytes at a time. */
    method ScanEntries(buf: seq<byte>, name: seq<byte>, bi: nat) returns (r: Lookup)
      requires geo.Valid() && |buf| % geo.DirEntrySize() == 0
      ensures r == WindowLookup(geo, buf, name, bi)
    {
      var d := geo.DirEntrySize();
      var inBlock := 0;
      while inBlock < |buf|
        invariant inBlock <= |buf| && inBlock % d == 0
        invariant FirstMatch(geo, buf, name, 0) == FirstMatch(geo, buf, name, inBlock)
      {
        Arith.MultipleGap(inBlock, |buf|, d);
        var entry := buf[inBlock..inBlock + d];
        if NameMatches(name, DirName(geo, entry)) {
          return Found(DirInodeNo(geo, entry), bi + inBlock);
        }
        Arith.DivModUnique(d, d, 1, 0);
        Arith.MultipleAdd(inBlock, d, d);
        inBlock := inBlock + d;
      }
      return NotFound;
    }

    /** `inode_insert`: writes an entry for `inodeNo` named `name` (cut or
        padded to `FILE_NAME_MAX_LENGTH` by `strncpy`) at the directory's
        end and returns that offset. */
    method InodeInsert(inode: Inode, name: seq<byte>, inodeNo: nat) returns (r: Result<nat>)
      requires Ready()
      modifies inode`entry, inode`valid, cache
      ensures old(inode.entry.typ) != Directory || old(inode.entry.numBytes) % geo.DirEntrySize() != 0
              || old(inode.entry.numBytes) >= geo.maxBytes ==>
                && r.Halt? && inode.entry == old(inode.entry)
                && cache.blocks == old(cache.blocks) && cache.used == old(cache.used)
      ensures old(inode.entry.numBytes) + geo.DirEntrySize() > geo.maxBytes ==> r.Halt?
      ensures r.Halt? ==>
                || old(inode.entry.typ) != Directory || old(inode.entry.numBytes) % geo.DirEntrySize() != 0
                || old(inode.entry.numBytes) + geo.DirEntrySize() > geo.maxBytes
                || ((old(inode.entry.numBytes) + geo.DirEntrySize()) % geo.blockSize == 0
                    && old(inode.entry.numBytes) + geo.DirEntrySize() == geo.maxBytes)
                || !(0 < inode.inodeNo < sb.numInodes)
                || old(DiskEntry(geo, sb, cache.blocks, inode.inodeNo)).typ == Invalid
                || cache.Full()
      ensures r.Ok? ==> r.value == old(inode.entry.numBytes)
      ensures r.Ok? && old(inode.valid) ==>
                && inode.entry.numBytes == old(inode.entry.numBytes) + geo.DirEntrySize()
                && inode.entry.typ == Directory && inode.entry.numLinks == old(inode.entry.numLinks)
      ensures r.Ok? && old(inode.valid) && old(FileWF(geo, inode.entry, cache.blocks, cache.used))
              && old(Readable(geo, inode.entry, cache.blocks, 0, inode.entry.numBytes)) ==>
                && FileWF(geo, inode.entry, cache.blocks, cache.used)
                && DirBytes(inode) == old(DirBytes(inode)) + EncodeDirEntry(geo, inodeNo, name)
                && Readable(geo, inode.entry, cache.blocks, 0, inode.entry.numBytes)
      ensures ChangedOnly(old(cache.blocks), cache.blocks, old(cache.used),
                          FileBlocks(geo, old(inode.entry), old(cache.blocks)) + {ToBlockNo(geo, sb, inode.inodeNo)})
      ensures OtherEntriesKept(geo, sb, old(cache.blocks), cache.blocks, inode.inodeNo)
    {
      if inode.entry.typ != Directory {
        return Halt("inode_insert: assert type == INODE_DIRECTORY");
      }
      if inode.entry.numBytes % geo.DirEntrySize() != 0 {
        return Halt("inode_insert: assert num_bytes % sizeof(DirEntry) == 0");
      }
      if inode.entry.numBytes >= geo.maxBytes {
        return Halt("inode_insert: assert num_bytes < INODE_MAX_BYTES");
      }
      var nb := inode.entry.numBytes;
      var entry := EncodeDirEntry(geo, inodeNo, name);
      var s := InodeWrite(inode, entry, nb);
      if s.Halted? {
        return Halt(s.reason);
      }
      if old(inode.valid) && old(FileWF(geo, inode.entry, cache.blocks, cache.used))
         && old(Readable(geo, inode.entry, cache.blocks, 0, inode.entry.numBytes)) {
        AppendBytes(geo, old(inode.entry), old(cache.blocks), inode.entry, cache.blocks, cache.used, nb, entry);
      }
      return Ok(nb);
    }

    /** `inode_remove`: zeroes the entry at `index` of a directory and,
        when the write leaves it as the last one, sets `num_bytes` to
        `index` (without writing the entry back). An index at or past the
        end changes nothing. */
    method InodeRemove(inode: Inode, index: nat) returns (s: Status)
      requires Ready()
      modifies inode`entry, inode`valid, cache
      ensures old(inode.entry.typ) != Directory || index >= geo.maxBytes || index % geo.DirEntrySize() != 0 ==>
                && s.Halted? && inode.entry == old(inode.entry)
                && cache.blocks == old(cache.blocks) && cache.used == old(cache.used)
      ensures s.Halted? ==>
                || old(inode.entry.typ) != Directory || index % geo.DirEntrySize() != 0
                || index + geo.DirEntrySize() > geo.maxBytes
                || ((index + geo.DirEntrySize()) % geo.blockSize == 0 && index + geo.DirEntrySize() == geo.maxBytes)
                || !(0 < inode.inodeNo < sb.numInodes)
                || old(DiskEntry(geo, sb, cache.blocks, inode.inodeNo)).typ == Invalid
                || cache.Full()
      ensures old(inode.entry.typ) == Directory && index < geo.maxBytes && index % geo.DirEntrySize() == 0
              && index >= old(inode.entry.numBytes) ==>
                && s.Done? && inode.entry == old(inode.entry)
                && cache.blocks == old(cache.blocks) && cache.used == old(cache.used)
      ensures s.Done? && index < old(inode.entry.numBytes) && old(inode.valid) ==>
                && inode.entry.numBytes == (if index + geo.DirEntrySize() >= old(inode.entry.numBytes) then index
                                            else old(inode.entry.numBytes))
                && inode.entry.typ == Directory && inode.entry.numLinks == old(inode.entry.numLinks)
      ensures s.Done? && index < old(inode.entry.numBytes) && old(inode.valid)
              && old(FileWF(geo, inode.entry, cache.blocks, cache.used)) ==>
                WriteDone(geo, old(inode.entry), old(cache.blocks), inode.entry, cache.blocks, cache.used,
                          index, Zeros(geo.DirEntrySize()))
      ensures ChangedOnly(old(cache.blocks), cache.blocks, old(cache.used),
                          FileBlocks(geo, old(inode.entry), old(cache.blocks)) + {ToBlockNo(geo, sb, inode.inodeNo)})
      ensures OtherEntriesKept(geo, sb, old(cache.blocks), cache.blocks, inode.inodeNo)
    {
      if inode.entry.typ != Directory {
        return Halted("inode_remove: assert type == INODE_DIRECTORY");
      }
      if index >= geo.maxBytes {
        return Halted("inode_remove: assert index < INODE_MAX_BYTES");
      }
      if index % geo.DirEntrySize() != 0 {
        return Halted("inode_remove: assert index % sizeof(DirEntry) == 0");
      }
      if index >= inode.entry.numBytes {
        return Done;
      }
      s := InodeWrite(inode, Zeros(geo.DirEntrySize()), index);
      if s.Halted? {
        return;
      }
      if index + geo.DirEntrySize() == inode.entry.numBytes {
        ghost var e1 := inode.entry;
        inode.entry := inode.entry.(numBytes := index);
        if old(inode.valid) && old(FileWF(geo, inode.entry, cache.blocks, cache.used)) {
          WriteDoneFrame(geo, sb, old(inode.entry), old(cache.blocks), e1, cache.blocks, cache.used,
                         index, Zeros(geo.DirEntrySize()), inode.entry, 0, inode.entry);
        }
      }
    }

    /** The copy loop of `inode_write` and what it achieves: for `i` from
        the start of the block holding `offset` while `i <= end`, map the
        block at `i` and copy its chunk of `src` into it. The loop also maps
        the block starting at `end` when `end` lies on a block boundary, so
        such a write that ends at `INODE_MAX_BYTES` halts in `inode_map`. */
    method WriteLoop(inode: Inode, src: seq<byte>, offset: nat) returns (s: Status, changed: bool)
      requires Ready() && offset + |src| <= geo.maxBytes
      modifies inode`entry, cache
      ensures s.Halted? ==> s.reason in {"cache_alloc: no free block", "inode_map: assert offset < INODE_MAX_BYTES"}
      ensures s.Halted? ==> cache.Full() || ((offset + |src|) % geo.blockSize == 0 && offset + |src| == geo.maxBytes)
      ensures (offset + |src|) % geo.blockSize == 0 && offset + |src| == geo.maxBytes ==> s.Halted?
      ensures s.Done? && old(FileWF(geo, inode.entry, cache.blocks, cache.used)) ==>
                WriteDone(geo, old(inode.entry), old(cache.blocks), inode.entry, cache.blocks, cache.used, offset, src)
      ensures old(cache.used) <= cache.used && changed == (cache.used != old(cache.used))
      ensures inode.entry.typ == old(inode.entry.typ) && inode.entry.numLinks == old(inode.entry.numLinks)
      ensures inode.entry.numBytes == old(inode.entry.numBytes)
      ensures cache.syncLog == old(cache.syncLog) && cache.freeLog == old(cache.freeLog)
      ensures WriteFrame(geo, old(inode.entry), old(cache.blocks), old(cache.used),
                         inode.entry, cache.blocks, cache.used, cache.dataStart)
    {
      ghost var q;
      s, changed, q := WriteBlocks(inode, src, offset);
      if s.Done? && old(FileWF(geo, inode.entry, cache.blocks, cache.used)) {
        ProgressDone(geo, old(inode.entry), old(cache.blocks), inode.entry, cache.blocks, cache.used, offset, src, q);
      }
    }

    /** The loop of `inode_write`: block by block from the one holding
        `offset`, until the block past the last byte of `src` (`q` counts
        the blocks). */
    method WriteBlocks(inode: Inode, src: seq<byte>, offset: nat) returns (s: Status, changed: bool, ghost q: nat)
      requires Ready() && offset + |src| <= geo.maxBytes
      modifies inode`entry, cache
      ensures s.Halted? ==> s.reason in {"cache_alloc: no free block", "inode_map: assert offset < INODE_MAX_BYTES"}
      ensures s.Halted? ==> cache.Full() || ((offset + |src|) % geo.blockSize == 0 && offset + |src| == geo.maxBytes)
      ensures (offset + |src|) % geo.blockSize == 0 && offset + |src| == geo.maxBytes ==> s.Halted?
      ensures s.Done? && old(FileWF(geo, inode.entry, cache.blocks, cache.used)) ==>
                && offset + |src| < q * geo.blockSize
                && WriteProgress(geo, old(inode.entry), old(cache.blocks), inode.entry, cache.blocks, cache.used,
                                 offset, src, q, |src|)
      ensures old(cache.used) <= cache.used && changed == (cache.used != old(cache.used))
      ensures Steady(old(inode.entry), inode.entry, old(cache.syncLog), old(cache.freeLog))
      ensures WriteFrame(geo, old(inode.entry), old(cache.blocks), old(cache.used),
                         inode.entry, cache.blocks, cache.used, cache.dataStart)
    {
      var end := offset + |src|;
      ghost var e0, b0, u0 := inode.entry, cache.blocks, cache.used;
      ghost var wf0 := FileWF(geo, e0, b0, u0);
      Arith.RoundDown(offset, geo.blockSize);
      q := offset / geo.blockSize;
      var i: nat := offset / geo.blockSize * geo.blockSize;
      var pos: nat := 0;
      changed := false;
      s := Done;
      while s.Done? && i <= end
        invariant i == q * geo.blockSize && offset / geo.blockSize <= q && offset < i + geo.blockSize
        invariant pos == Max(Min(i, end), offset) - offset
        invariant changed == (cache.used != u0)
        invariant s.Halted? ==> s.reason in {"cache_alloc: no free block", "inode_map: assert offset < INODE_MAX_BYTES"}
        invariant s.Halted? ==> cache.Full() || (end % geo.blockSize == 0 && end == geo.maxBytes)
        invariant Steady(e0, inode.entry, old(cache.syncLog), old(cache.freeLog))
        invariant end % geo.blockSize == 0 && end == geo.maxBytes ==> i <= end
        invariant wf0 && s.Done? ==> WriteProgress(geo, e0, b0, inode.entry, cache.blocks, cache.used, offset, src, q, pos)
        invariant WriteFrame(geo, e0, b0, u0, inode.entry, cache.blocks, cache.used, cache.dataStart)
        decreases s.Done?, end + 1 - i
      {
        var n;
        ghost var u1 := cache.used;
        s, changed, n := WriteBlock(inode, src, offset, i, pos, changed, q, e0, b0, u0);
        GrowsChain(u0, u1, cache.used);
        if s.Done? {
          Arith.NextMultiple(q, geo.blockSize, i, end);
          pos := pos + n;
          i := i + geo.blockSize;
          q := q + 1;
        }
      }
    }

    /** The entry's type, link count and size and the cache's logs are
        as they were in `e0`, `sync0` and `free0`. */
    ghost predicate Steady(e0: InodeEntry, e: InodeEntry, sync0: seq<nat>, free0: seq<nat>)
      reads cache
    {
      && e.typ == e0.typ && e.numLinks == e0.numLinks && e.numBytes == e0.numBytes
      && cache.syncLog == sync0 && cache.freeLog == free0
    }

    /** One pass of `inode_write`'s loop: maps the block at `i = q *
        BLOCK_SIZE` and copies into it the `n` bytes of `src` from `pos`
        that belong there. */
    method WriteBlock(inode: Inode, src: seq<byte>, offset: nat, i: nat, pos: nat, changed: bool,
                      ghost q: nat, ghost e0: InodeEntry, ghost b0: map<nat, Block>, ghost u0: set<nat>)
      returns (s: Status, changed': bool, n: nat)
      requires Ready() && offset + |src| <= geo.maxBytes
      requires WriteFrame(geo, e0, b0, u0, inode.entry, cache.blocks, cache.used, cache.dataStart)
      requires i == q * geo.blockSize && offset / geo.blockSize <= q && offset < i + geo.blockSize
      requires i <= offset + |src| && pos == Max(i, offset) - offset
      modifies inode`entry, cache
      ensures s.Halted? ==> s.reason in {"cache_alloc: no free block", "inode_map: assert offset < INODE_MAX_BYTES"}
      ensures s.Halted? ==> cache.Full() || ((offset + |src|) % geo.blockSize == 0 && offset + |src| == geo.maxBytes)
      ensures s.Done? ==> i < geo.maxBytes && pos + n == Min(i + geo.blockSize, offset + |src|) - offset
      ensures s.Done? && old(WriteProgress(geo, e0, b0, inode.entry, cache.blocks, cache.used, offset, src, q, pos)) ==>
                WriteProgress(geo, e0, b0, inode.entry, cache.blocks, cache.used, offset, src, q + 1, pos + n)
      ensures old(cache.used) <= cache.used && changed' == (changed || cache.used != old(cache.used))
      ensures Steady(old(inode.entry), inode.entry, old(cache.syncLog), old(cache.freeLog))
      ensures WriteFrame(geo, e0, b0, u0, inode.entry, cache.blocks, cache.used, cache.dataStart)
    {
      var end := offset + |src|;
      ghost var e1, b1, u1 := inode.entry, cache.blocks, cache.used;
      ghost var wf := WriteProgress(geo, e0, b0, e1, b1, u1, offset, src, q, pos);
      Arith.BlockOffset(q, 0, geo.blockSize);
      var r;
      r, changed' := InodeMap(inode, i, changed);
      WriteFrameAfterMap(geo, e0, b0, u0, e1, b1, u1, inode.entry, cache.blocks, cache.used, cache.dataStart);
      if r.Halt? {
        return Halted(r.reason), changed', 0;
      }
      Arith.DivBelow(i, geo.numDirect + geo.numIndirect, geo.blockSize);
      if wf {
        ProgressAfterMap(geo, e0, b0, e1, b1, u1, inode.entry, cache.blocks, cache.used, offset, src, q, pos);
      }
      n := CopyChunk(inode, src, offset, i, pos, r.value, q, e0, b0, u0);
      return Done, changed', n;
    }

    /** The copy half of one pass of `inode_write`'s loop: the bytes of
        `src` from `pos` that belong in block `bno`, the file's block `q`,
        copied into it. */
    method CopyChunk(inode: Inode, src: seq<byte>, offset: nat, i: nat, pos: nat, bno: nat,
                     ghost q: nat, ghost e0: InodeEntry, ghost b0: map<nat, Block>, ghost u0: set<nat>)
      returns (n: nat)
      requires Ready() && offset + |src| <= geo.maxBytes
      requires WriteFrame(geo, e0, b0, u0, inode.entry, cache.blocks, cache.used, cache.dataStart)
      requires i == q * geo.blockSize && offset / geo.blockSize <= q && offset < i + geo.blockSize
      requires i <= offset + |src| && pos == Max(i, offset) - offset
      requires q < geo.numDirect + geo.numIndirect && bno == FileBlock(geo, inode.entry, cache.blocks, q) && bno != 0
      modifies cache
      ensures pos + n == Min(i + geo.blockSize, offset + |src|) - offset
      ensures old(WriteProgress(geo, e0, b0, inode.entry, cache.blocks, cache.used, offset, src, q + 1, pos)) ==>
                WriteProgress(geo, e0, b0, inode.entry, cache.blocks, cache.used, offset, src, q + 1, pos + n)
      ensures cache.used == old(cache.used)
      ensures cache.syncLog == old(cache.syncLog) && cache.freeLog == old(cache.freeLog)
      ensures WriteFrame(geo, e0, b0, u0, inode.entry, cache.blocks, cache.used, cache.dataStart)
    {
      var end := offset + |src|;
      var start := ChunkStart(i, offset);
      var term := ChunkTerm(geo, i, end);
      ChunkPlace(geo, offset, end, q, pos);
      if WriteProgress(geo, e0, b0, inode.entry, cache.blocks, cache.used, offset, src, q + 1, pos) {
        ProgressAfterChunk(geo, e0, b0, inode.entry, cache.blocks, cache.used, offset, src, q, start, term, pos);
      }
      WriteFrameAfterBytes(geo, e0, b0, u0, inode.entry, cache.blocks, cache.used, cache.dataStart,
                           q, start, src[pos..pos + (term - start)]);
      cache.PutBytes(bno, start, src[pos..pos + (term - start)]);
      return term - start;
    }

    /** `inode_write`: copies `src` to `offset`, which must not lie past
        `num_bytes`, mapping blocks as needed; then, when a block was
        allocated or the file grew, sets `num_bytes` to the larger of the
        old size and the write's end and writes the entry back. */
    method InodeWrite(inode: Inode, src: seq<byte>, offset: nat) returns (s: Status)
      requires Ready()
      modifies inode`entry, inode`valid, cache
      ensures offset > old(inode.entry.numBytes) || offset + |src| > geo.maxBytes ==>
                && s.Halted? && inode.entry == old(inode.entry)
                && cache.blocks == old(cache.blocks) && cache.used == old(cache.used)
                && cache.syncLog == old(cache.syncLog)
      ensures (offset + |src|) % geo.blockSize == 0 && offset + |src| == geo.maxBytes ==> s.Halted?
      ensures s.Halted? ==>
                || offset > old(inode.entry.numBytes) || offset + |src| > geo.maxBytes
                || ((offset + |src|) % geo.blockSize == 0 && offset + |src| == geo.maxBytes)
                || !(0 < inode.inodeNo < sb.numInodes)
                || old(DiskEntry(geo, sb, cache.blocks, inode.inodeNo)).typ == Invalid
                || cache.Full()
      ensures s.Done? && old(inode.valid) ==>
                && inode.entry.numBytes == Max(offset + |src|, old(inode.entry.numBytes))
                && inode.entry.typ == old(inode.entry.typ) && inode.entry.numLinks == old(inode.entry.numLinks)
      ensures s.Done? && old(inode.valid) && old(FileWF(geo, inode.entry, cache.blocks, cache.used)) ==>
                WriteDone(geo, old(inode.entry), old(cache.blocks), inode.entry, cache.blocks, cache.used, offset, src)
      ensures s.Done? && old(inode.valid) ==>
                || (&& cache.used == old(cache.used) && offset + |src| <= old(inode.entry.numBytes)
                    && cache.syncLog == old(cache.syncLog))
                || (&& DiskEntry(geo, sb, cache.blocks, inode.inodeNo) == inode.entry
                    && cache.syncLog == old(cache.syncLog) + [ToBlockNo(geo, sb, inode.inodeNo)])
      ensures old(cache.used) <= cache.used && cache.freeLog == old(cache.freeLog)
      ensures ChangedOnly(old(cache.blocks), cache.blocks, old(cache.used),
                          FileBlocks(geo, old(inode.entry), old(cache.blocks)) + {ToBlockNo(geo, sb, inode.inodeNo)})
      ensures OtherEntriesKept(geo, sb, old(cache.blocks), cache.blocks, inode.inodeNo)
    {
      var end := offset + |src|;
      if offset > inode.entry.numBytes {
        return Halted("inode_write: assert offset <= num_bytes");
      }
      if end > geo.maxBytes {
        return Halted("inode_write: assert end <= INODE_MAX_BYTES");
      }
      var changed;
      s, changed := WriteLoop(inode, src, offset);
      ghost var bL := cache.blocks;
      ghost var except := FileBlocks(geo, old(inode.entry), old(cache.blocks));
      NoWriteBackFrame(geo, sb, old(cache.blocks), bL, old(cache.used), except, cache.dataStart, inode.inodeNo);
      if s.Halted? {
        return;
      }
      if changed || inode.entry.numBytes < end {
        ghost var e1, b1 := inode.entry, cache.blocks;
        inode.entry := inode.entry.(numBytes := Max(end, inode.entry.numBytes));
        s := InodeSync(inode, true);
        if cache.blocks != bL {
          WriteBackFrame(geo, sb, old(cache.blocks), bL, old(cache.used), except, cache.dataStart, inode.inodeNo, inode.entry);
        }
        if s.Done? && old(inode.valid) {
          if old(FileWF(geo, inode.entry, cache.blocks, cache.used)) {
            WriteDoneFrame(geo, sb, old(inode.entry), old(cache.blocks), e1, b1, cache.used, offset, src,
                           inode.entry, inode.inodeNo, inode.entry);
          }
          DiskEntryUpdate(geo, sb, b1, inode.inodeNo, inode.entry, inode.inodeNo);
        }
      }
    }
  }
}
