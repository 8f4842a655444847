/** The physical page pool: one usage flag per page (`pagepool`), handed out
    first-fit in contiguous runs (src/core/physical_memory.c). */
module PhysicalMemory {
  import opened Common
  import Arith

  /** Pages `i .. i+n-1` are all free (their flag is clear). */
  predicate RunFree(pool: seq<bool>, i: nat, n: nat)
    requires i + n <= |pool|
  {
    forall k :: i <= k < i + n ==> !pool[k]
  }

  /** `i` is the lowest start of a free run of `n` pages that ends within the
      first `limit` pages. */
  predicate IsFirstFit(pool: seq<bool>, limit: nat, n: nat, i: nat)
    requires limit <= |pool|
  {
    && i + n <= limit
    && RunFree(pool, i, n)
    && forall i' :: 0 <= i' < i ==> !RunFree(pool, i', n)
  }

  /** No free run of `n` pages ends within the first `limit` pages. */
  predicate NoFit(pool: seq<bool>, limit: nat, n: nat)
    requires limit <= |pool|
  {
    forall i :: 0 <= i && i + n <= limit ==> !RunFree(pool, i, n)
  }

  /** The pool with the flags of pages `lo .. lo+n-1` set to `used`. */
  function Marked(pool: seq<bool>, lo: nat, n: nat, used: bool): (r: seq<bool>)
    ensures |r| == |pool|
    ensures forall k :: 0 <= k < |pool| && !(lo <= k < lo + n) ==> r[k] == pool[k]
    ensures forall k :: lo <= k < lo + n && k < |pool| ==> r[k] == used
  {
    seq(|pool|, k requires 0 <= k < |pool| => if lo <= k < lo + n then used else pool[k])
  }

  /** Marking a free run used and then free again gives back the pool: a
      successful `pool_alloc` followed by `pool_free` of the same range
      restores the pool. */
  lemma AllocFreeRestores(pool: seq<bool>, i: nat, n: nat)
    requires i + n <= |pool| && RunFree(pool, i, n)
    ensures Marked(Marked(pool, i, n, true), i, n, false) == pool
  {
    var r := Marked(Marked(pool, i, n, true), i, n, false);
    forall k | 0 <= k < |pool| ensures r[k] == pool[k] {
      if i <= k < i + n {
        assert !pool[k];
      }
    }
  }

  /** Any used page inside a window of `n` pages spoils every run that
      covers it: this is why `pool_alloc` may resume its scan just past a
      used page (`i += j`) without missing a run. */
  lemma UsedPageSpoilsRuns(pool: seq<bool>, u: nat, n: nat, i: nat)
    requires u < |pool| && pool[u]
    requires i <= u < i + n && i + n <= |pool|
    ensures !RunFree(pool, i, n)
  {
  }

  /** The first-fit start, when there is one, is unique: `pool_alloc` is
      deterministic in the pool's state. */
  lemma FirstFitUnique(pool: seq<bool>, limit: nat, n: nat, i: nat, j: nat)
    requires limit <= |pool|
    requires IsFirstFit(pool, limit, n, i) && IsFirstFit(pool, limit, n, j)
    ensures i == j
  {
  }

  // ---------------------------------------------------------------------
  // Finding: the bound of pool_alloc's scan, as the source computes it.
  // ---------------------------------------------------------------------

  /** The bound `poolnumend - numpages` of `pool_alloc`'s outer loop as the
      source evaluates it: `poolnumend` is a `u64`, so `numpages` is
      converted to `u64` and the difference wraps modulo 2^64. */
  function ScanBoundAsWritten(poolnumend: nat, n: nat): (b: nat)
    requires poolnumend < U64_LIMIT && 0 < n < U64_LIMIT
    ensures b < U64_LIMIT
    ensures n <= poolnumend ==> b + n == poolnumend
  {
    (poolnumend - n) % U64_LIMIT
  }

  /** As written, a request for more pages than the pool holds makes the
      bound wrap to nearly 2^64, so the scan starts at page 0 and examines
      pages `0 .. n-1`, past `poolnumend`: with those flags clear (as the
      zero-initialised `pagepool` has them) it hands out a run that reaches
      beyond the managed pages. */
  lemma WrappedBoundAdmitsOverrun(poolnumend: nat, n: nat)
    requires poolnumend < n < U64_LIMIT
    ensures 0 <= ScanBoundAsWritten(poolnumend, n)
    ensures ScanBoundAsWritten(poolnumend, n) == U64_LIMIT - (n - poolnumend)
    ensures ScanBoundAsWritten(poolnumend, n) >= poolnumend
  {
  }

  /** Concrete instance: 2 managed pages, a request for 3. The scan admits
      start 0, whose run covers page 2, which the pool does not manage; the
      corrected scan (`PagePool.Alloc`) admits no start at all. */
  lemma OverrunExample()
    ensures 0 <= ScanBoundAsWritten(2, 3) && 0 + 3 > 2
    ensures NoFit([false, false, false, false], 2, 3)
  {
  }

  /** The page pool. `pagepool` is the static `char pagepool[PAGEPOOLSIZE]`
      (a non-zero byte means the page is used), `poolnumend` the number of
      pages actually managed, `pagestart` the address of page 0 (0 is
      NULL). */
  class PagePool {
    const pageSize: nat
    var pagepool: array<bool>
    var poolnumend: nat
    var pagestart: nat

    ghost predicate Valid()
      reads this
    {
      pageSize > 0 && poolnumend <= pagepool.Length
    }

    /** The state before `pool_init`: the static array is all zero,
        `poolnumend == PAGEPOOLSIZE` and `pagestart == NULL`. */
    constructor (poolSize: nat, pageSize: nat)
      requires pageSize > 0
      ensures Valid() && fresh(pagepool)
      ensures this.pageSize == pageSize && pagepool.Length == poolSize
      ensures forall k :: 0 <= k < poolSize ==> !pagepool[k]
      ensures poolnumend == poolSize && pagestart == 0
    {
      this.pageSize := pageSize;
      pagepool := new bool[poolSize](_ => false);
      poolnumend := poolSize;
      pagestart := 0;
    }

    /** `pool_init(start, end)`: manage the pages between `start` and `end`,
        never more than before, and mark every managed page free. */
    method Init(start: nat, end: nat)
      requires Valid() && start <= end
      modifies this`poolnumend, this`pagestart, pagepool
      ensures Valid()
      ensures poolnumend == Min(old(poolnumend), (end - start) / pageSize)
      ensures pagestart == start
      ensures forall k :: 0 <= k < poolnumend ==> !pagepool[k]
      ensures forall k :: poolnumend <= k < pagepool.Length ==> pagepool[k] == old(pagepool[k])
    {
      var pagenum := (end - start) / pageSize;
      poolnumend := Min(poolnumend, pagenum);
      pagestart := start;
      var i := 0;
      while i < poolnumend
        invariant 0 <= i <= poolnumend
        invariant Valid() && pagestart == start
        invariant poolnumend == Min(old(poolnumend), pagenum)
        invariant forall k :: 0 <= k < i ==> !pagepool[k]
        invariant forall k :: i <= k < pagepool.Length ==> pagepool[k] == old(pagepool[k])
      {
        pagepool[i] := false;
        i := i + 1;
      }
    }

    /** `pool_alloc(numpages)`: the address of the lowest free run of
        `numpages` managed pages, now marked used, or NULL (0) with the pool
        unchanged. The scan only admits runs that end within `poolnumend`
        (see `ScanBoundAsWritten` for the bound as the source computes it). */
    method Alloc(n: int) returns (page: nat, ghost index: nat)
      requires Valid() && pagestart > 0
      modifies pagepool
      ensures Valid()
      ensures page == 0 <==> n <= 0 || NoFit(old(pagepool[..]), poolnumend, n)
      ensures page == 0 ==> pagepool[..] == old(pagepool[..])
      ensures page != 0 ==> n > 0 && IsFirstFit(old(pagepool[..]), poolnumend, n, index)
      ensures page != 0 ==> page == pagestart + pageSize * index
      ensures page != 0 ==> pagepool[..] == Marked(old(pagepool[..]), index, n, true)
    {
      page, index := 0, 0;
      if n <= 0 {
        // the inner loop never runs, so no run is ever recorded
        return;
      }
      ghost var pool := pagepool[..];
      var i := 0;
      while i + n <= poolnumend
        invariant pagepool[..] == pool
        invariant 0 <= i && page == 0
        invariant forall i' :: 0 <= i' < i && i' + n <= poolnumend ==> !RunFree(pool, i', n)
        decreases poolnumend - i
      {
        var j := 0;
        while j < n && !pagepool[i + j]
          invariant 0 <= j <= n
          invariant RunFree(pool, i, j)
        {
          j := j + 1;
        }
        if j == n {
          page := pagestart + pageSize * i;
          index := i;
          break;
        }
        forall i' | i <= i' <= i + j && i' + n <= poolnumend
          ensures !RunFree(pool, i', n)
        {
          UsedPageSpoilsRuns(pool, i + j, n, i');
        }
        i := i + j + 1;
      }
      if page != 0 {
        var k := i;
        while k < i + n
          invariant i <= k <= i + n
          invariant pagepool[..] == Marked(pool, i, k - i, true)
        {
          pagepool[k] := true;
          k := k + 1;
        }
      }
    }

    /** `pool_free(page_address, numpages)`: halts if the address is not
        page-aligned, if the range runs past `poolnumend`, or if a page in
        it is already free (double free); otherwise marks exactly those
        pages free. */
    method Free(addr: nat, n: nat) returns (st: Status)
      requires Valid() && pagestart <= addr
      modifies pagepool
      ensures Valid()
      ensures st.Done? <==>
        && addr % pageSize == 0
        && (addr - pagestart) / pageSize + n <= poolnumend
        && forall k :: (addr - pagestart) / pageSize <= k < (addr - pagestart) / pageSize + n ==> old(pagepool[k])
      ensures st.Done? ==> pagepool[..] == Marked(old(pagepool[..]), (addr - pagestart) / pageSize, n, false)
    {
      if addr % pageSize != 0 {
        return Halted("kmem: page address not aligned.");
      }
      var localstart := (addr - pagestart) / pageSize;
      if !(localstart + n <= poolnumend) {
        return Halted("assert localstart + numpages <= poolnumend");
      }
      ghost var pool := pagepool[..];
      var i := localstart;
      while i < localstart + n
        invariant localstart <= i <= localstart + n
        invariant forall k :: localstart <= k < i ==> pool[k]
        invariant pagepool[..] == Marked(pool, localstart, i - localstart, false)
      {
        if !pagepool[i] {
          return Halted("kmem: refree a free physical page.");
        }
        pagepool[i] := false;
        i := i + 1;
      }
      st := Done;
    }

    /** `kalloc()`: one page, never NULL; halts when no page is free. */
    method Kalloc() returns (r: Result<nat>, ghost index: nat)
      requires Valid() && pagestart > 0
      modifies pagepool
      ensures Valid()
      ensures r.Halt? <==> NoFit(old(pagepool[..]), poolnumend, 1)
      ensures r.Halt? ==> r.reason == "kmem: kalloc fails."
      ensures r.Ok? ==> r.value != 0 && r.value == pagestart + pageSize * index
      ensures r.Ok? ==> IsFirstFit(old(pagepool[..]), poolnumend, 1, index)
      ensures r.Ok? ==> pagepool[..] == Marked(old(pagepool[..]), index, 1, true)
    {
      var p;
      p, index := Alloc(1);
      if p == 0 {
        return Halt("kmem: kalloc fails."), index;
      }
      r := Ok(p);
    }

    /** `nkalloc(numpages)`: like `kalloc` for a run of `numpages` pages. */
    method Nkalloc(n: int) returns (r: Result<nat>, ghost index: nat)
      requires Valid() && pagestart > 0
      modifies pagepool
      ensures Valid()
      ensures r.Halt? <==> n <= 0 || NoFit(old(pagepool[..]), poolnumend, n)
      ensures r.Ok? ==> r.value != 0 && r.value == pagestart + pageSize * index
      ensures r.Ok? ==> n > 0 && IsFirstFit(old(pagepool[..]), poolnumend, n, index)
      ensures r.Ok? ==> pagepool[..] == Marked(old(pagepool[..]), index, n, true)
    {
      var p;
      p, index := Alloc(n);
      if p == 0 {
        return Halt("kmem: nkalloc fails."), index;
      }
      r := Ok(p);
    }

    /** `kfree(page_address)`: `pool_free` of one page. */
    method Kfree(addr: nat) returns (st: Status)
      requires Valid() && pagestart <= addr
      modifies pagepool
      ensures Valid()
      ensures st.Done? <==>
        && addr % pageSize == 0
        && (addr - pagestart) / pageSize < poolnumend
        && old(pagepool[(addr - pagestart) / pageSize])
      ensures st.Done? ==> pagepool[..] == Marked(old(pagepool[..]), (addr - pagestart) / pageSize, 1, false)
    {
      st := Free(addr, 1);
    }

    /** `nfree(page_address, numpages)`. */
    method Nfree(addr: nat, n: nat) returns (st: Status)
      requires Valid() && pagestart <= addr
      modifies pagepool
      ensures Valid()
      ensures st.Done? <==>
        && addr % pageSize == 0
        && (addr - pagestart) / pageSize + n <= poolnumend
        && forall k :: (addr - pagestart) / pageSize <= k < (addr - pagestart) / pageSize + n ==> old(pagepool[k])
      ensures st.Done? ==> pagepool[..] == Marked(old(pagepool[..]), (addr - pagestart) / pageSize, n, false)
    {
      st := Free(addr, n);
    }

    /** `test1_pm_kfree_kalloc` (src/core/virtual_memory.c): allocate ten
        single pages, free them in reverse order, allocate ten again; the
        second round yields the same addresses in the same order, and after
        the final frees the pool is as it was. Only the first round's
        `kalloc` can halt; the test's `assert` never fails. The pool start
        is page-aligned, as `init_memory_manager` rounds it up. */
    method KallocKfreeTest() returns (st: Status, first: seq<nat>, second: seq<nat>)
      requires Valid() && pagestart > 0 && pagestart % pageSize == 0
      modifies pagepool
      ensures Valid()
      ensures st.Halted? ==> st.reason == "kmem: kalloc fails."
      ensures st.Done? ==> |first| == 10 && second == first
      ensures st.Done? ==> pagepool[..] == old(pagepool[..])
    {
      ghost var states: seq<seq<bool>> := [pagepool[..]];
      ghost var idx: seq<nat> := [];
      first, second := [], [];
      var i := 0;
      while i < 10
        invariant Valid() && 0 <= i <= 10
        invariant |first| == i && AllocTrace(states, idx, first)
        invariant states[0] == old(pagepool[..]) && states[i] == pagepool[..]
      {
        var r, ix := Kalloc();
        if r.Halt? {
          return Halted(r.reason), first, second;
        }
        first, idx, states := first + [r.value], idx + [ix], states + [pagepool[..]];
        i := i + 1;
      }
      FreeInReverse(first, states, idx);
      second := AllocAgain(10, first, states, idx);
      FreeInReverse(second, states, idx);
      st := Done;
    }

    /** `states[k+1]` is the pool after the `k`-th single-page `kalloc`
        from `states[k]`, which returned `addrs[k]`, page `idx[k]`. */
    ghost predicate AllocTrace(states: seq<seq<bool>>, idx: seq<nat>, addrs: seq<nat>)
      reads this, pagepool
    {
      && Valid()
      && |states| == |idx| + 1 && |addrs| == |idx|
      && (forall k :: 0 <= k < |states| ==> |states[k]| == pagepool.Length)
      && forall k :: 0 <= k < |idx| ==>
        && addrs[k] == pagestart + pageSize * idx[k]
        && IsFirstFit(states[k], poolnumend, 1, idx[k])
        && states[k + 1] == Marked(states[k], idx[k], 1, true)
    }

    /** `for (; i > 0; i--) kfree(contain[i-1]);` undoes a trace. */
    method FreeInReverse(addrs: seq<nat>, ghost states: seq<seq<bool>>, ghost idx: seq<nat>)
      requires AllocTrace(states, idx, addrs) && pagepool[..] == states[|idx|]
      requires pagestart % pageSize == 0
      modifies pagepool
      ensures Valid() && pagepool[..] == states[0]
    {
      var i := |addrs|;
      while i > 0
        invariant 0 <= i <= |idx| && Valid() && pagepool[..] == states[i]
        invariant AllocTrace(states, idx, addrs)
      {
        FreedIndex(addrs[i - 1], idx[i - 1]);
        var s := Kfree(addrs[i - 1]);
        assert s.Done?;
        AllocFreeRestores(states[i - 1], idx[i - 1], 1);
        i := i - 1;
      }
    }

    /** Replaying `kalloc` from the trace's first state returns the same
        addresses in the same order. */
    method AllocAgain(count: nat, addrs: seq<nat>, ghost states: seq<seq<bool>>, ghost idx: seq<nat>)
      returns (again: seq<nat>)
      requires pagestart > 0 && count == |addrs|
      requires AllocTrace(states, idx, addrs) && pagepool[..] == states[0]
      modifies pagepool
      ensures AllocTrace(states, idx, addrs) && pagepool[..] == states[|idx|]
      ensures again == addrs
    {
      again := [];
      var i := 0;
      while i < count
        invariant 0 <= i <= count && Valid() && pagepool[..] == states[i]
        invariant AllocTrace(states, idx, addrs)
        invariant again == addrs[..i]
      {
        var r, ix := Kalloc();
        assert IsFirstFit(states[i], poolnumend, 1, idx[i]);
        assert r.Ok?;
        FirstFitUnique(states[i], poolnumend, 1, ix, idx[i]);
        again := again + [r.value];
        i := i + 1;
      }
    }

    /** The address of page `index` is aligned and gives back `index`. */
    lemma FreedIndex(addr: nat, index: nat)
      requires Valid() && pagestart % pageSize == 0
      requires addr == pagestart + pageSize * index
      ensures pagestart <= addr && addr % pageSize == 0
      ensures (addr - pagestart) / pageSize == index
    {
      Arith.BlockOffset(index, 0, pageSize);
      Arith.BlockOffset(pagestart / pageSize + index, 0, pageSize);
      Arith.RoundDown(pagestart, pageSize);
      assert addr == (pagestart / pageSize + index) * pageSize;
    }
  }
}
