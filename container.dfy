/** PID allocation in the container hierarchy (src/core/container.c,
    `alloc_resource` for PID) and PCB slot allocation in a container's
    process table (src/core/sched.c, `alloc_pcb_simple`). */
module Containers {
  import opened Common

  /** `NPROC` (src/core/proc.h:8). */
  const NPROC: nat := 16

  /** `enum procstate` (src/core/proc.h:12); `memset(p, 0, ...)` makes a
      slot `Unused`, the first enumerator. */
  datatype ProcState = Unused | Embryo | Sleeping | Runnable | Running | Zombie

  /** The scalar and pointer fields of `struct proc` that `memset` clears
      (src/core/proc.h:39-54); the page table, stack, trap frame, context
      and name are left out. */
  class Proc {
    var sz: nat
    var state: ProcState
    var pid: int
    var parent: Proc?
    var killed: int
    var isScheduler: bool
    var cont: Container?

    constructor ()
      ensures Zeroed()
    {
      sz, state, pid, parent, killed, isScheduler, cont := 0, Unused, 0, null, 0, false, null;
    }

    /** `memset(p, 0, sizeof(proc))` followed by `p->state = EMBRYO`. */
    method Reset()
      modifies this
      ensures sz == 0 && state == Embryo && pid == 0 && parent == null && killed == 0
      ensures !isScheduler && cont == null
    {
      sz, state, pid, parent, killed, isScheduler, cont := 0, Embryo, 0, null, 0, false, null;
    }

    /** Every modelled field holds what an all-zero `struct proc` holds. */
    ghost predicate Zeroed()
      reads this
    {
      sz == 0 && state == Unused && pid == 0 && parent == null && killed == 0
      && !isScheduler && cont == null
    }
  }

  /** One slot of a container's `pmap`. */
  datatype PidEntry = PidEntry(valid: bool, pidLocal: int, p: Proc?)

  /** The all-zero slot that `memset` of a fresh container leaves. */
  const FreeSlot := PidEntry(false, 0, null)

  /** The PIDs a container has issued are distinct and lie in
      `1 .. nextPid-1`. */
  ghost predicate PidsIssued(pmap: seq<PidEntry>, nextPid: int)
  {
    && nextPid >= 1
    && (forall i :: 0 <= i < |pmap| && pmap[i].valid ==> 1 <= pmap[i].pidLocal < nextPid)
    && (forall i, j :: 0 <= i < j < |pmap| && pmap[i].valid && pmap[j].valid ==>
          pmap[i].pidLocal != pmap[j].pidLocal)
  }

  predicate HasFree(pmap: seq<PidEntry>)
  {
    exists i :: 0 <= i < |pmap| && !pmap[i].valid
  }

  /** The lowest index of an invalid slot at or after `from`. */
  function FirstFreeFrom(pmap: seq<PidEntry>, from: nat): (i: nat)
    requires exists k :: from <= k < |pmap| && !pmap[k].valid
    ensures from <= i < |pmap| && !pmap[i].valid
    ensures forall k :: from <= k < i ==> pmap[k].valid
    decreases |pmap| - from
  {
    if !pmap[from].valid then from else FirstFreeFrom(pmap, from + 1)
  }

  /** The lowest index of an invalid slot. */
  function FirstFree(pmap: seq<PidEntry>): (i: nat)
    requires HasFree(pmap)
    ensures i < |pmap| && !pmap[i].valid
    ensures forall k :: 0 <= k < i ==> pmap[k].valid
  {
    FirstFreeFrom(pmap, 0)
  }

  /** The pmap after the lowest free slot records `p` with PID `pid`. */
  function Claimed(pmap: seq<PidEntry>, p: Proc, pid: int): (r: seq<PidEntry>)
    requires HasFree(pmap)
    ensures |r| == |pmap|
  {
    pmap[FirstFree(pmap) := PidEntry(true, pid, p)]
  }

  /** Claiming the lowest free slot with the next PID keeps the issued PIDs
      distinct and below the incremented counter. */
  lemma ClaimKeepsPidsIssued(pmap: seq<PidEntry>, nextPid: int, p: Proc)
    requires PidsIssued(pmap, nextPid) && HasFree(pmap)
    ensures PidsIssued(Claimed(pmap, p, nextPid), nextPid + 1)
  {
    var r := Claimed(pmap, p, nextPid);
    var f := FirstFree(pmap);
    forall i, j | 0 <= i < j < |r| && r[i].valid && r[j].valid
      ensures r[i].pidLocal != r[j].pidLocal
    {
      if i != f && j != f {
        assert r[i] == pmap[i] && r[j] == pmap[j];
      }
    }
  }

  /** A container: its `pmap` of `npid` (NPID) slots, its scheduler's PID
      counter `scheduler.pid`, its parent, and its scheduler's process
      table. `Repr` is the container, its tables and its ancestors' `Repr`,
      so the parent chain is finite and acyclic. */
  class Container {
    const npid: nat
    const pmap: array<PidEntry>
    const parent: Container?
    const ptable: seq<Proc>
    ghost const Repr: set<object>
    var nextPid: int

    ghost predicate Valid()
      reads this, Repr
      decreases Repr
    {
      && this in Repr && pmap in Repr
      && pmap.Length == npid && |ptable| == NPROC
      && (forall i, j :: 0 <= i < j < NPROC ==> ptable[i] != ptable[j])
      && (forall i :: 0 <= i < NPROC ==> ptable[i] !in Repr)
      && PidsIssued(pmap[..], nextPid)
      && (parent == null ==> Repr == {this, pmap})
      && (parent != null ==>
            && parent in Repr && Repr == {this, pmap} + parent.Repr
            && this !in parent.Repr && pmap !in parent.Repr
            && parent.Valid())
    }

    /** `alloc_container`'s initialisation: every `pmap` slot and process
        slot is zero, and `scheduler.pid` starts at 1. `parent` is the
        container that `spawn_container` links it to (NULL for the root). */
    constructor (npid: nat, parent: Container?)
      requires parent != null ==> parent.Valid()
      ensures Valid() && this.npid == npid && this.parent == parent
      ensures fresh(pmap)
      ensures nextPid == 1
      ensures forall i :: 0 <= i < npid ==> pmap[i] == FreeSlot
      ensures forall i :: 0 <= i < NPROC ==> fresh(ptable[i]) && ptable[i].Zeroed()
      ensures parent != null ==> Snapshot(this) == [Slots(pmap[..], 1)] + Snapshot(parent)
    {
      this.npid := npid;
      this.parent := parent;
      var ps: seq<Proc> := [];
      while |ps| < NPROC
        invariant |ps| <= NPROC
        invariant forall k :: 0 <= k < |ps| ==> fresh(ps[k]) && ps[k].Zeroed()
        invariant forall k, l :: 0 <= k < l < |ps| ==> ps[k] != ps[l]
      {
        var p := new Proc();
        ps := ps + [p];
      }
      var table := new PidEntry[npid](_ => FreeSlot);
      pmap := table;
      ptable := ps;
      nextPid := 1;
      Repr := {this, table} + (if parent == null then {} else parent.Repr);
      new;
      assert pmap[..] == seq(npid, _ => FreeSlot);
    }
  }

  /** The PID state of one container: its `pmap` and `scheduler.pid`. */
  datatype Slots = Slots(pmap: seq<PidEntry>, nextPid: int)

  /** The PID state of a container and of each ancestor, nearest first. */
  ghost function Snapshot(c: Container): (s: seq<Slots>)
    requires c.Valid()
    reads c.Repr
    ensures |s| >= 1 && s[0] == Slots(c.pmap[..], c.nextPid)
    decreases c.Repr
  {
    [Slots(c.pmap[..], c.nextPid)] + (if c.parent == null then [] else Snapshot(c.parent))
  }

  /** Every container on the chain still has an invalid slot. */
  predicate AllHaveFree(s: seq<Slots>)
  {
    forall k :: 0 <= k < |s| ==> HasFree(s[k].pmap)
  }

  /** Each container on the chain claims its lowest free slot for `p` under
      its own next PID, and advances its counter. */
  function ClaimAll(s: seq<Slots>, p: Proc): (r: seq<Slots>)
    requires AllHaveFree(s)
    ensures |r| == |s|
  {
    if s == [] then []
    else [Slots(Claimed(s[0].pmap, p, s[0].nextPid), s[0].nextPid + 1)] + ClaimAll(s[1..], p)
  }

  /** Claiming on one container records `p` in a slot that was invalid,
      under a PID no valid slot held, and keeps the issued PIDs sound. */
  lemma ClaimRecords(pmap: seq<PidEntry>, nextPid: int, p: Proc)
    requires HasFree(pmap) && PidsIssued(pmap, nextPid)
    ensures PidsIssued(Claimed(pmap, p, nextPid), nextPid + 1)
    ensures exists i :: 0 <= i < |pmap| && !pmap[i].valid
                        && Claimed(pmap, p, nextPid)[i] == PidEntry(true, nextPid, p)
    ensures forall i :: 0 <= i < |pmap| && pmap[i].valid ==> pmap[i].pidLocal != nextPid
  {
    ClaimKeepsPidsIssued(pmap, nextPid, p);
    var i := FirstFree(pmap);
    assert Claimed(pmap, p, nextPid)[i] == PidEntry(true, nextPid, p);
  }

  /** After `ClaimAll`, every container on the chain maps some slot to `p`
      under the PID its counter held, and that PID is new to it. */
  lemma ClaimAllRecords(s: seq<Slots>, p: Proc)
    requires AllHaveFree(s)
    requires forall k :: 0 <= k < |s| ==> PidsIssued(s[k].pmap, s[k].nextPid)
    ensures forall k :: 0 <= k < |s| ==>
      && ClaimAll(s, p)[k].nextPid == s[k].nextPid + 1
      && PidsIssued(ClaimAll(s, p)[k].pmap, ClaimAll(s, p)[k].nextPid)
      && |ClaimAll(s, p)[k].pmap| == |s[k].pmap|
      && (exists i :: 0 <= i < |s[k].pmap| && !s[k].pmap[i].valid
                      && ClaimAll(s, p)[k].pmap[i] == PidEntry(true, s[k].nextPid, p))
      && (forall i :: 0 <= i < |s[k].pmap| && s[k].pmap[i].valid ==>
                      s[k].pmap[i].pidLocal != s[k].nextPid)
  {
    forall k | 0 <= k < |s|
      ensures ClaimAll(s, p)[k] == Slots(Claimed(s[k].pmap, p, s[k].nextPid), s[k].nextPid + 1)
      ensures PidsIssued(Claimed(s[k].pmap, p, s[k].nextPid), s[k].nextPid + 1)
      ensures exists i :: 0 <= i < |s[k].pmap| && !s[k].pmap[i].valid
                          && Claimed(s[k].pmap, p, s[k].nextPid)[i] == PidEntry(true, s[k].nextPid, p)
      ensures forall i :: 0 <= i < |s[k].pmap| && s[k].pmap[i].valid ==> s[k].pmap[i].pidLocal != s[k].nextPid
    {
      ClaimAllIndex(s, p, k);
      ClaimRecords(s[k].pmap, s[k].nextPid, p);
    }
  }

  /** Element `k` of `ClaimAll` is the claim on element `k`. */
  lemma {:induction false} ClaimAllIndex(s: seq<Slots>, p: Proc, k: nat)
    requires AllHaveFree(s) && k < |s|
    ensures ClaimAll(s, p)[k] == Slots(Claimed(s[k].pmap, p, s[k].nextPid), s[k].nextPid + 1)
    decreases k
  {
    if k > 0 {
      ClaimAllIndex(s[1..], p, k - 1);
    }
  }

  /** The loop of `alloc_resource` on one container: claim the lowest
      invalid `pmap` slot for `p` with PID `scheduler.pid` and increment the
      counter, or report -1 when every slot is valid. */
  method ClaimLocal(c: Container, p: Proc) returns (pid: int)
    requires c.Valid()
    modifies c, c.pmap
    ensures c.Valid()
    ensures pid < 0 <==> !HasFree(old(c.pmap[..]))
    ensures pid < 0 ==> c.pmap[..] == old(c.pmap[..]) && c.nextPid == old(c.nextPid)
    ensures pid >= 0 ==>
      && pid == old(c.nextPid) && c.nextPid == old(c.nextPid) + 1
      && c.pmap[..] == Claimed(old(c.pmap[..]), p, old(c.nextPid))
  {
    pid := -1;
    var i := 0;
    while i < c.npid
      invariant 0 <= i <= c.npid
      invariant forall k :: 0 <= k < i ==> c.pmap[k].valid
    {
      if !c.pmap[i].valid {
        ghost var before := c.pmap[..];
        assert FirstFree(before) == i;
        pid := c.nextPid;
        c.nextPid := c.nextPid + 1;
        c.pmap[i] := PidEntry(true, pid, p);
        assert c.pmap[..] == Claimed(before, p, pid);
        ClaimKeepsPidsIssued(before, pid, p);
        return;
      }
      i := i + 1;
    }
  }

  /** `alloc_resource(this, p, PID)`: NULL (here `None`) and no change when
      `this` or `p` is NULL. Otherwise the container claims its lowest
      invalid `pmap` slot for `p` with PID `scheduler.pid`, increments the
      counter, and recurses on its parent, so that every ancestor up to the
      root records `p` under a PID of its own; the result is the PID in the
      container itself. Halts when a container on the chain has no invalid
      slot (the containers below it have already claimed theirs). The
      source returns the address of its local `foundpid`; the model returns
      the PID itself. */
  method AllocResource(c: Container?, p: Proc?) returns (r: Result<Option<int>>)
    requires c != null ==> c.Valid()
    modifies if c == null then {} else c.Repr
    decreases if c == null then {} else c.Repr
    ensures c != null ==> c.Valid()
    ensures c == null || p == null ==> r == Ok(None)
    ensures c != null && p == null ==> Snapshot(c) == old(Snapshot(c))
    ensures c != null && p != null ==> (r.Halt? <==> !AllHaveFree(old(Snapshot(c))))
    ensures c != null && p != null && r.Ok? ==>
      r.value == Some(old(c.nextPid)) && Snapshot(c) == ClaimAll(old(Snapshot(c)), p)
  {
    if c == null || p == null {
      return Ok(None);
    }
    ghost var s0 := Snapshot(c);
    ghost var up0 := if c.parent == null then [] else Snapshot(c.parent);
    assert s0 == [s0[0]] + up0;
    var foundpid := ClaimLocal(c, p);
    if foundpid < 0 {
      assert !HasFree(s0[0].pmap);
      return Halt("alloc_resource : could not allocate new pid.");
    }
    label call:
    assert c.parent != null ==> up0 == old@call(Snapshot(c.parent));
    var up := AllocResource(c.parent, p);
    if c.parent != null {
      assert Snapshot(c) == [Snapshot(c)[0]] + Snapshot(c.parent);
    }
    if up.Halt? {
      ghost var k :| 0 <= k < |up0| && !HasFree(up0[k].pmap);
      assert s0[k + 1] == up0[k];
      return Halt(up.reason);
    }
    r := Ok(Some(foundpid));
  }

  /** The `state` of each slot of a process table. */
  ghost function States(ptable: seq<Proc>): (st: seq<ProcState>)
    reads set i | 0 <= i < |ptable| :: ptable[i]
    ensures |st| == |ptable|
    ensures forall i :: 0 <= i < |ptable| ==> st[i] == ptable[i].state
  {
    if ptable == [] then [] else [ptable[0].state] + States(ptable[1..])
  }

  /** The lowest index of an `Unused` slot. */
  function FirstUnused(st: seq<ProcState>): (i: nat)
    requires Unused in st
    ensures i < |st| && st[i] == Unused
    ensures forall k :: 0 <= k < i ==> st[k] != Unused
  {
    if st[0] == Unused then 0 else 1 + FirstUnused(st[1..])
  }

  /** A process slot as `alloc_pcb_simple` leaves it: zeroed, `Embryo`,
      and carrying `pid`. */
  ghost predicate Embryonic(p: Proc, pid: int)
    reads p
  {
    p.sz == 0 && p.state == Embryo && p.pid == pid && p.parent == null && p.killed == 0
    && !p.isScheduler && p.cont == null
  }

  /** The body of `alloc_pcb_simple` once it has chosen slot `p`: zero it,
      mark it `Embryo`, and give it the PID that `alloc_resource` issues in
      `c`. */
  method MakeEmbryo(c: Container, p: Proc) returns (r: Result<Proc?>)
    requires c.Valid() && p !in c.Repr
    modifies c.Repr, p
    ensures c.Valid()
    ensures r.Halt? <==> !AllHaveFree(old(Snapshot(c)))
    ensures r.Ok? ==>
      r.value == p && Embryonic(p, old(c.nextPid)) && Snapshot(c) == ClaimAll(old(Snapshot(c)), p)
  {
    p.Reset();
    r := IssuePid(c, p);
  }

  /** `p->pid = *(int *)alloc_resource(this->cont, p, PID)` on a slot that
      has just been zeroed and marked `Embryo`. */
  method IssuePid(c: Container, p: Proc) returns (r: Result<Proc?>)
    requires c.Valid() && p !in c.Repr && Embryonic(p, 0)
    modifies c.Repr, p
    ensures c.Valid()
    ensures r.Halt? <==> !AllHaveFree(old(Snapshot(c)))
    ensures r.Ok? ==>
      r.value == p && Embryonic(p, old(c.nextPid)) && Snapshot(c) == ClaimAll(old(Snapshot(c)), p)
  {
    var res := AllocResource(c, p);
    if res.Halt? {
      return Halt(res.reason);
    }
    p.pid := res.value.value;
    return Ok(p);
  }

  /** `alloc_pcb_simple(this)` on the scheduler of container `c`: takes the
      lowest `Unused` slot of the process table, zeroes it, marks it
      `Embryo` and gives it the PID that `alloc_resource` issues in `c`
      (which every ancestor records as well). Returns NULL, changing
      nothing, when no slot is `Unused`; halts when `alloc_resource` does. */
  method AllocPcbSimple(c: Container) returns (r: Result<Proc?>)
    requires c.Valid()
    modifies c.Repr, set i | 0 <= i < |c.ptable| :: c.ptable[i]
    ensures c.Valid()
    ensures Unused !in old(States(c.ptable)) ==>
      && r == Ok(null) && Snapshot(c) == old(Snapshot(c)) && States(c.ptable) == old(States(c.ptable))
      && forall k :: 0 <= k < NPROC ==> unchanged(c.ptable[k])
    ensures r.Halt? <==> Unused in old(States(c.ptable)) && !AllHaveFree(old(Snapshot(c)))
    ensures Unused in old(States(c.ptable)) && r.Ok? ==>
      var i := FirstUnused(old(States(c.ptable)));
      && r.value == c.ptable[i]
      && Embryonic(c.ptable[i], old(c.nextPid))
      && Snapshot(c) == ClaimAll(old(Snapshot(c)), c.ptable[i])
      && forall k :: 0 <= k < NPROC && k != i ==> unchanged(c.ptable[k])
  {
    var i := 0;
    while i < NPROC
      invariant 0 <= i <= NPROC
      invariant forall k :: 0 <= k < i ==> c.ptable[k].state != Unused
    {
      if c.ptable[i].state == Unused {
        assert FirstUnused(old(States(c.ptable))) == i;
        r := MakeEmbryo(c, c.ptable[i]);
        return;
      }
      i := i + 1;
    }
    return Ok(null);
  }
}
