/** The SD card request queue (src/driver/buf.c): a FIFO of `buf` records
    that the source keeps as a circular doubly linked list through each
    buffer's `listnode`, with the static `head` as sentinel. Here the list
    is the sequence of buffers from `head.next` round to `head.prev`. */
module SdBuf {
  import opened Common

  /** `struct buf` (src/driver/buf.h:12-17); its `listnode` is its position
      in the queue. */
  class Buf {
    var flags: int
    var blockno: nat
    var data: seq<byte>

    constructor (blockno: nat)
      ensures this.blockno == blockno && flags == 0 && data == Zeros(512)
    {
      this.blockno := blockno;
      flags := 0;
      data := Zeros(512);
    }
  }

  /** One request to the queue. */
  datatype Op = Add(b: Buf) | Fetch

  /** Applying `ops` in order to queue `q`: the final queue, and the
      buffers `fetch_task` returned (a fetch from an empty queue returns
      NULL and contributes nothing). */
  function Run(q: seq<Buf>, ops: seq<Op>): (seq<Buf>, seq<Buf>)
    decreases |ops|
  {
    if ops == [] then (q, [])
    else match ops[0]
      case Add(b) => Run(q + [b], ops[1..])
      case Fetch =>
        if q == [] then Run(q, ops[1..])
        else
          var (rest, out) := Run(q[1..], ops[1..]);
          (rest, [q[0]] + out)
  }

  /** The buffers passed to `add_task`, in order. */
  function Added(ops: seq<Op>): (bs: seq<Buf>)
    ensures |bs| <= |ops|
  {
    if ops == [] then []
    else match ops[0]
      case Add(b) => [b] + Added(ops[1..])
      case Fetch => Added(ops[1..])
  }

  /** FIFO: whatever the interleaving of adds and fetches, the buffers come
      out of `fetch_task` in the order they were queued, and those not yet
      fetched are still queued behind them in that order. */
  lemma {:induction false} FifoOrder(q: seq<Buf>, ops: seq<Op>)
    ensures Run(q, ops).1 + Run(q, ops).0 == q + Added(ops)
    decreases |ops|
  {
    if ops != [] {
      match ops[0]
      case Add(b) =>
        FifoOrder(q + [b], ops[1..]);
        assert q + [b] + Added(ops[1..]) == q + Added(ops);
      case Fetch =>
        assert Added(ops) == Added(ops[1..]);
        if q == [] {
          FifoOrder(q, ops[1..]);
        } else {
          FifoOrder(q[1..], ops[1..]);
          var (rest, out) := Run(q[1..], ops[1..]);
          assert Run(q, ops) == (rest, [q[0]] + out);
          calc {
            Run(q, ops).1 + Run(q, ops).0;
            ([q[0]] + out) + rest;
            [q[0]] + (out + rest);
            [q[0]] + (q[1..] + Added(ops[1..]));
            ([q[0]] + q[1..]) + Added(ops[1..]);
            { assert q == [q[0]] + q[1..]; }
            q + Added(ops);
          }
        }
    }
  }

  /** Fetching never hands out more buffers than were queued or added. */
  lemma FetchedBounded(q: seq<Buf>, ops: seq<Op>)
    ensures |Run(q, ops).1| <= |q| + |Added(ops)|
  {
    FifoOrder(q, ops);
  }

  /** The queue: the static list `head`. */
  class SdQueue {
    var tasks: seq<Buf>

    /** A buffer is linked at most once: its `listnode` has one place. */
    ghost predicate Valid()
      reads this
    {
      forall i, j :: 0 <= i < j < |tasks| ==> tasks[i] != tasks[j]
    }

    /** `init_sdbuf()`: the list is empty. */
    constructor ()
      ensures Valid() && tasks == []
    {
      tasks := [];
    }

    /** `init_sdbuf()` on an existing queue: `head` is reset to an empty
        circular list (any linked buffers are dropped). */
    method Init()
      modifies this
      ensures Valid() && tasks == []
    {
      tasks := [];
    }

    /** `try_fetch_task()`: the oldest queued buffer, or NULL when the queue
        is empty; the queue is left as it is. */
    method TryFetchTask() returns (r: Buf?)
      ensures r == null <==> tasks == []
      ensures r != null ==> r == tasks[0]
    {
      if tasks != [] {
        r := tasks[0];
      } else {
        r := null;
      }
    }

    /** `fetch_task()`: NULL and no change on an empty queue; otherwise the
        oldest buffer, unlinked from the head of the queue. */
    method FetchTask() returns (r: Buf?)
      requires Valid()
      modifies this
      ensures Valid()
      ensures old(tasks) == [] ==> r == null && tasks == []
      ensures old(tasks) != [] ==> r == old(tasks)[0] && tasks == old(tasks)[1..] && r !in tasks
      ensures Run(old(tasks), [Fetch]) == (tasks, if r == null then [] else [r as Buf])
    {
      r := TryFetchTask();
      if r != null {
        tasks := tasks[1..];
      }
      ghost var ops: seq<Op> := [Fetch];
      assert ops[1..] == [];
      if old(tasks) != [] {
        assert Run(old(tasks)[1..], []) == (old(tasks)[1..], []);
        assert Run(old(tasks), ops) == (old(tasks)[1..], [old(tasks)[0]] + []);
        assert r != null;
        assert [old(tasks)[0]] + [] == [r as Buf];
        assert Run(old(tasks), ops) == (tasks, [r as Buf]);
      } else {
        assert Run(old(tasks), ops) == Run([], []);
        assert Run(old(tasks), ops) == (tasks, []);
      }
    }

    /** `add_task(b)`: link `b` in front of `head`, at the tail. */
    method AddTask(b: Buf)
      requires Valid() && b !in tasks
      modifies this
      ensures Valid()
      ensures tasks == old(tasks) + [b]
      ensures (tasks, []) == Run(old(tasks), [Add(b)])
    {
      tasks := tasks + [b];
      assert [Add(b)][1..] == [];
    }
  }

  /** Two buffers added to an empty queue come out in the order added, and
      a third fetch finds the queue empty. */
  method FifoScenario(a: Buf, b: Buf) returns (x: Buf?, y: Buf?, z: Buf?)
    requires a != b
    ensures x == a && y == b && z == null
  {
    var q := new SdQueue();
    q.AddTask(a);
    q.AddTask(b);
    x := q.FetchTask();
    y := q.FetchTask();
    z := q.FetchTask();
  }
}
