/**
 * The intrusive process queue of kernel/schedule.rs and the process
 * operations that put a process on one (kernel/proc.rs).
 *
 * A queue threads its processes through their own `next` and `prev` fields,
 * from `front` to `back`. The ghost sequence `nodes` lists them in that
 * order; `Valid` ties the links to it.
 */
module Schedule {
  import opened Types
  import Proc
  import Vm
  import PagePool

  /** The processes of a queue, front to back, as a value. */
  type Order = seq<Proc.Proc>

  /** s without its element at position i. */
  ghost function Without(s: Order, i: nat): (r: Order)
    requires i < |s|
    ensures |r| == |s| - 1
    ensures forall k | 0 <= k < i :: r[k] == s[k]
    ensures forall k | i <= k < |r| :: r[k] == s[k + 1]
  {
    s[..i] + s[i + 1..]
  }

  class Queue {
    /** The queue's identity, recorded in `wq` by a process waiting on it. */
    const id: Proc.QueueId
    var front: Proc.Proc?
    var back: Proc.Proc?
    ghost var nodes: Order

    /**
     * The links spell out `nodes`: no process twice, `front` and `back` null
     * exactly when the queue is empty and otherwise its two ends, with nothing
     * before the front and nothing after the back, and each pair of
     * neighbours linked both ways.
     */
    ghost predicate Valid()
      reads this, nodes
    {
      && (forall i, j | 0 <= i < j < |nodes| :: nodes[i] != nodes[j])
      && (front == null <==> nodes == []) && (back == null <==> nodes == [])
      && (nodes != [] ==> front == nodes[0] && back == nodes[|nodes| - 1])
      && (nodes != [] ==> nodes[0].prev == null && nodes[|nodes| - 1].next == null)
      && (forall i | 0 <= i < |nodes| - 1 :: nodes[i].next == nodes[i + 1] && nodes[i + 1].prev == nodes[i])
    }

    /** `Queue::new()`: an empty queue. */
    constructor (id: Proc.QueueId)
      ensures Valid() && this.id == id && nodes == [] && front == null && back == null
    {
      this.id := id;
      front := null;
      back := null;
      nodes := [];
    }

    /**
     * `push_front(n)`: n becomes the front, with no predecessor and the old
     * front as successor; into an empty queue it is also the back.
     */
    method PushFront(n: Proc.Proc)
      requires Valid() && n !in nodes
      modifies this`front, this`back, this`nodes, n`next, n`prev, nodes`prev
      ensures Valid() && nodes == [n] + old(nodes)
      ensures front == n && n.prev == null && n.next == old(front)
      ensures old(front) == null ==> back == n
      ensures old(front) != null ==> back == old(back)
    {
      ghost var s := nodes;
      n.next := front;
      n.prev := null;
      if front != null {
        front.prev := n;
      } else {
        back := n;
      }
      front := n;
      nodes := [n] + nodes;
      assert forall k | 1 <= k < |nodes| :: nodes[k] == s[k - 1];
    }

    /**
     * `remove(n)`: n's neighbours are linked to each other, or `front` and
     * `back` move past n where it was an end; the others keep their order.
     * n's own links are left as they were.
     */
    method Remove(n: Proc.Proc)
      requires Valid() && n in nodes
      modifies this`front, this`back, this`nodes, nodes`next, nodes`prev
      ensures Valid() && nodes == Without(old(nodes), IndexOf(old(nodes), n))
      ensures n.next == old(n.next) && n.prev == old(n.prev)
      ensures front == (if old(front) == n then old(n.next) else old(front))
      ensures back == (if old(back) == n then old(n.prev) else old(back))
    {
      ghost var s := nodes;
      ghost var i := IndexOf(s, n);
      assert i > 0 ==> s[i - 1].next == n && n.prev == s[i - 1];
      assert i < |s| - 1 ==> n.next == s[i + 1] && s[i + 1].prev == n;
      if n.next != null {
        n.next.prev := n.prev;
      } else {
        back := n.prev;
      }
      if n.prev != null {
        n.prev.next := n.next;
      } else {
        front := n.next;
      }
      nodes := Without(s, i);
      forall k | 0 <= k < |nodes| - 1
        ensures nodes[k].next == nodes[k + 1] && nodes[k + 1].prev == nodes[k]
      {
        if k + 1 < i {
          assert nodes[k] == s[k] && nodes[k + 1] == s[k + 1];
        } else if k + 1 == i {
          assert nodes[k] == s[i - 1] && nodes[k + 1] == s[i + 1];
        } else {
          assert nodes[k] == s[k + 1] && nodes[k + 1] == s[k + 2];
        }
      }
    }

    /**
     * `pop_back()`: None on an empty queue, which stays as it is; otherwise
     * the old back, removed, its predecessor now the back.
     */
    method PopBack() returns (b: Proc.Proc?)
      requires Valid()
      modifies this`front, this`back, this`nodes, nodes`next, nodes`prev
      ensures Valid()
      ensures old(nodes) == [] ==> b == null && nodes == [] && front == null && back == null
      ensures old(nodes) != [] ==> b == old(nodes[|nodes| - 1]) && nodes == old(nodes[..|nodes| - 1])
      ensures old(nodes) != [] ==> back == old(b.prev)
      ensures old(nodes) != [] ==> b.next == old(b.next) && b.prev == old(b.prev)
    {
      b := back;
      if b == null {
        return;
      }
      Remove(b);
    }
  }

  // ---------------------------------------------------------------------------
  // First in, first out.

  /** The queue after pushing xs at the front, one after the other. */
  ghost function Pushed(s: Order, xs: Order): (r: Order)
    ensures |r| == |s| + |xs|
    decreases |xs|
  {
    if xs == [] then s else Pushed([xs[0]] + s, xs[1..])
  }

  /** What popping from the back until the queue is empty returns, in order. */
  ghost function Drained(s: Order): (r: Order)
    ensures |r| == |s|
  {
    if s == [] then [] else [s[|s| - 1]] + Drained(s[..|s| - 1])
  }

  /** Pushing a process at the front delays it behind every process already queued. */
  lemma {:induction false} DrainedPush(s: Order, x: Proc.Proc)
    ensures Drained([x] + s) == Drained(s) + [x]
    decreases |s|
  {
    if s == [] {
      assert Drained([x]) == [x] + Drained([]);
    } else {
      var t := [x] + s;
      assert t[..|t| - 1] == [x] + s[..|s| - 1];
      DrainedPush(s[..|s| - 1], x);
    }
  }

  /**
   * Processes pushed with `push_front` and drained with `pop_back` come out
   * after those already queued, in the order they were pushed.
   */
  lemma {:induction false} Fifo(s: Order, xs: Order)
    ensures Drained(Pushed(s, xs)) == Drained(s) + xs
    decreases |xs|
  {
    if xs != [] {
      Fifo([xs[0]] + s, xs[1..]);
      DrainedPush(s, xs[0]);
      assert xs == [xs[0]] + xs[1..];
    }
  }

  // ---------------------------------------------------------------------------
  // Putting a process on a queue.

  /**
   * The tail of the scheduler's loop as written: a process that comes back to
   * the scheduler goes to the front of the run queue while Runnable;
   * otherwise its box goes out of scope and is dropped, which frees every
   * page the iterator yields from its table, whether or not `wait` left it
   * on a wait queue.
   */
  method Requeue(run: Queue, p: Proc.Proc, pool: PagePool.Pool)
    requires run.Valid() && p !in run.nodes
    requires pool.Valid() && Vm.Pages(p.pt.slots) <= pool.mem.Keys
    modifies run`front, run`back, run`nodes, p`next, p`prev, run.nodes`prev, pool
    ensures run.Valid() && pool.Valid() && pool.mem == old(pool.mem)
    ensures p.state == Proc.Runnable ==> run.nodes == [p] + old(run.nodes) && pool.free == old(pool.free)
    ensures p.state != Proc.Runnable ==> run.nodes == old(run.nodes) && run.front == old(run.front)
    ensures p.state != Proc.Runnable ==> p.next == old(p.next) && p.prev == old(p.prev)
    ensures p.state != Proc.Runnable ==> pool.free == old(pool.free) + Vm.ScanPages(p.pt.slots)
  {
    if p.state == Proc.Runnable {
      run.PushFront(p);
    } else {
      Proc.Drop(p, pool);
    }
  }

  /**
   * The tail of the scheduler's loop as intended: a process that is not
   * Runnable and waits on a queue belongs to that queue, so the scheduler
   * lets go of it without dropping it; only a process on no queue is
   * dropped.
   */
  method Reschedule(run: Queue, p: Proc.Proc, pool: PagePool.Pool)
    requires run.Valid() && p !in run.nodes
    requires pool.Valid() && Vm.Pages(p.pt.slots) <= pool.mem.Keys
    modifies run`front, run`back, run`nodes, p`next, p`prev, run.nodes`prev, pool
    ensures run.Valid() && pool.Valid() && pool.mem == old(pool.mem)
    ensures p.state == Proc.Runnable ==> run.nodes == [p] + old(run.nodes) && pool.free == old(pool.free)
    ensures p.state != Proc.Runnable ==> run.nodes == old(run.nodes) && run.front == old(run.front)
    ensures p.state != Proc.Runnable ==> p.next == old(p.next) && p.prev == old(p.prev)
    ensures p.state != Proc.Runnable && p.wq.Some? ==> pool.free == old(pool.free)
    ensures p.state != Proc.Runnable && p.wq.None? ==> pool.free == old(pool.free) + Vm.ScanPages(p.pt.slots)
  {
    if p.state == Proc.Runnable {
      run.PushFront(p);
    } else if p.wq.None? {
      Proc.Drop(p, pool);
    }
  }

  /**
   * As written, a process that blocks on a wait queue and comes back to the
   * scheduler has every page the iterator yields from its table freed while
   * the wait queue still holds it.
   */
  method BlockedPagesFreed(run: Queue, w: Queue, p: Proc.Proc, pool: PagePool.Pool)
    requires run.Valid() && w.Valid() && run != w && p !in run.nodes && p !in w.nodes
    requires forall n | n in run.nodes :: n !in w.nodes
    requires pool.Valid() && Vm.Pages(p.pt.slots) <= pool.mem.Keys - pool.free
    modifies run`front, run`back, run`nodes, w`front, w`back, w`nodes, run.nodes`prev, w.nodes`prev, p, pool
    ensures w.Valid() && p in w.nodes && p.state == Proc.Blocked
    ensures Vm.ScanPages(p.pt.slots) <= pool.free
    ensures Vm.ScanPages(p.pt.slots) !! old(pool.free)
  {
    Vm.ScanPagesWithin(p.pt.slots);
    Block(p, w);
    assert forall n | n in run.nodes :: n.next == old(n.next) && n.prev == old(n.prev);
    assert p.state == Proc.Blocked && forall n | n in run.nodes :: n !in w.nodes;
    label blocked:
    Requeue(run, p, pool);
    assert forall n | n in w.nodes :: n.next == old@blocked(n.next) && n.prev == old@blocked(n.prev);
  }

  /** As intended, the same process keeps its pages while it waits: nothing is freed. */
  method BlockedPagesKept(run: Queue, w: Queue, p: Proc.Proc, pool: PagePool.Pool)
    requires run.Valid() && w.Valid() && run != w && p !in run.nodes && p !in w.nodes
    requires forall n | n in run.nodes :: n !in w.nodes
    requires pool.Valid() && Vm.Pages(p.pt.slots) <= pool.mem.Keys - pool.free
    modifies run`front, run`back, run`nodes, w`front, w`back, w`nodes, run.nodes`prev, w.nodes`prev, p, pool
    ensures w.Valid() && p in w.nodes && p.state == Proc.Blocked
    ensures pool.free == old(pool.free) && Vm.ScanPages(p.pt.slots) !! pool.free
  {
    Vm.ScanPagesWithin(p.pt.slots);
    Block(p, w);
    assert forall n | n in run.nodes :: n.next == old(n.next) && n.prev == old(n.prev);
    assert p.state == Proc.Blocked && forall n | n in run.nodes :: n !in w.nodes;
    label blocked:
    Reschedule(run, p, pool);
    assert forall n | n in w.nodes :: n.next == old@blocked(n.next) && n.prev == old@blocked(n.prev);
  }

  /**
   * `wait(queue, state)`: the process takes the state, records the queue it
   * waits on and goes to the queue's front.
   */
  method Wait(p: Proc.Proc, q: Queue, s: Proc.ProcState)
    requires q.Valid() && p !in q.nodes
    modifies p`state, p`wq, p`next, p`prev, q`front, q`back, q`nodes, q.nodes`prev
    ensures q.Valid() && q.nodes == [p] + old(q.nodes)
    ensures p.state == s && p.wq == Some(q.id)
  {
    p.state := s;
    p.wq := Some(q.id);
    q.PushFront(p);
  }

  /** `block(queue)`: waiting, Blocked, on the queue. */
  method Block(p: Proc.Proc, q: Queue)
    requires q.Valid() && p !in q.nodes
    modifies p`state, p`wq, p`next, p`prev, q`front, q`back, q`nodes, q.nodes`prev
    ensures q.Valid() && q.nodes == [p] + old(q.nodes)
    ensures p.state == Proc.Blocked && p.wq == Some(q.id)
  {
    Wait(p, q, Proc.Blocked);
  }

  /** `exit(queue)`: waiting, Exited, on the queue. */
  method Exit(p: Proc.Proc, q: Queue)
    requires q.Valid() && p !in q.nodes
    modifies p`state, p`wq, p`next, p`prev, q`front, q`back, q`nodes, q.nodes`prev
    ensures q.Valid() && q.nodes == [p] + old(q.nodes)
    ensures p.state == Proc.Exited && p.wq == Some(q.id)
  {
    Wait(p, q, Proc.Exited);
  }
}
