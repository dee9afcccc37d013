/**
 * Processes (kernel/proc.rs): the pid counter, a process's bookkeeping
 * fields, its construction empty, from a parent and from an ELF binary, the
 * stack canary check, and its destruction, which frees every page the
 * page-table iterator yields: the valid 4 KiB leaf pages below MAX_VA.
 * Putting a process on a queue (`wait`, `block`, `exit`) needs the queue and
 * lives beside it, in module Schedule.
 */
module Proc {
  import opened Types
  import Sys
  import ProcLayout
  import Vm
  import PagePool
  import Elf

  /** `ProcState`. */
  datatype ProcState = Runnable | Blocked | Exited

  /** Wait queues are told apart by their identifier; `QueueType` itself is not part of this model. */
  type QueueId = nat

  /** The part of the trapframe this model follows: the user stack pointer and the return pc. */
  datatype Trapframe = Trapframe(sp: nat, epc: nat)

  /** `Trapframe::default()`: every register zero. */
  const DEFAULT_TRAPFRAME: Trapframe := Trapframe(0, 0)

  /** Pids are `u32`. */
  const PID_LIMIT: nat := U32_LIMIT

  /** `fetch_add(1)` on a `u32`: the next value, wrapping to 0 past the largest one. */
  function Successor(pid: nat): (r: nat)
    requires pid < PID_LIMIT
    ensures r < PID_LIMIT
    ensures pid + 1 < PID_LIMIT ==> r == pid + 1
    ensures pid + 1 == PID_LIMIT ==> r == 0
  {
    (pid + 1) % PID_LIMIT
  }

  /** The pid the k-th process constructed gets (from 0), the counter starting at 1. */
  function NthPid(k: nat): (r: nat)
    ensures r < PID_LIMIT
  {
    if k == 0 then 1 else Successor(NthPid(k - 1))
  }

  /**
   * Until the counter wraps, the k-th process gets pid k + 1, so successive
   * processes get distinct, increasing pids; the 2^32-th one gets pid 0.
   */
  lemma {:induction false} NthPidValue(k: nat)
    ensures k < PID_LIMIT - 1 ==> NthPid(k) == k + 1
    ensures k == PID_LIMIT - 1 ==> NthPid(k) == 0
  {
    if k > 0 {
      NthPidValue(k - 1);
    }
  }

  /** Pids handed out before the counter wraps are strictly increasing. */
  lemma PidsIncrease(i: nat, j: nat)
    requires i < j < PID_LIMIT - 1
    ensures 0 < NthPid(i) < NthPid(j)
  {
    NthPidValue(i);
    NthPidValue(j);
  }

  /** `NEXTPID`. */
  class PidCounter {
    var next: nat

    ghost predicate Valid()
      reads this
    {
      next < PID_LIMIT
    }

    /** `AtomicU32::new(1)`. */
    constructor ()
      ensures Valid() && next == NthPid(0)
    {
      next := 1;
    }

    /** `fetch_add(1, Relaxed)`: the current value, the counter moving on to its successor. */
    method FetchAdd() returns (pid: nat)
      requires Valid()
      modifies this
      ensures Valid() && pid == old(next) && next == Successor(old(next))
    {
      pid := next;
      next := Successor(next);
    }
  }

  class Proc {
    var pid: nat
    /** `Box<Pagetable>`: owned by the process alone. */
    const pt: Vm.Pagetable
    var nchild: nat
    var parent: Proc?
    var wq: Option<QueueId>
    /** Links of the queue the process is on, rewritten by `Queue`. */
    var next: Proc?
    var prev: Proc?
    var state: ProcState
    var trapframe: Trapframe
    var canary: nat

    /**
     * The record `new_empty` writes: a fresh process with the given pid and
     * page table; the trapframe is left as it was found.
     */
    constructor (pid: nat, pt: Vm.Pagetable, tf: Trapframe)
      ensures this.pid == pid && this.pt == pt && trapframe == tf
      ensures nchild == 0 && state == Runnable && parent == null && next == null && prev == null
      ensures wq == None && canary == ProcLayout.CANARY
    {
      this.pid := pid;
      this.pt := pt;
      nchild := 0;
      state := Runnable;
      parent := null;
      next := null;
      prev := null;
      wq := None;
      trapframe := tf;
      canary := ProcLayout.CANARY;
    }

    /** `check_stack`: panics exactly when the canary was overwritten. */
    method CheckStack() returns (panics: bool)
      ensures panics <==> canary != ProcLayout.CANARY
    {
      panics := canary != ProcLayout.CANARY;
    }

    /** `unblock`: the process is on no wait queue; its state and queue links stay. */
    method Unblock()
      modifies this`wq
      ensures wq == None
      ensures state == old(state) && next == old(next) && prev == old(prev)
    {
      wq := None;
    }
  }

  /** The fields `new_empty` sets, for a process with the given pid. */
  ghost predicate Initial(p: Proc, pid: nat)
    reads p, p.pt
  {
    && p.pid == pid && p.nchild == 0 && p.state == Runnable
    && p.parent == null && p.next == null && p.prev == null
    && p.wq == None && p.canary == ProcLayout.CANARY
    && p.pt.slots == map[]
  }

  /**
   * `new_empty`: fails when the page table or the process cannot be
   * allocated (either may run out of memory); otherwise a fresh process with
   * no user mappings and the next pid, which is drawn only once both
   * allocations succeeded.
   */
  method NewEmpty(pids: PidCounter) returns (p: Proc?)
    requires pids.Valid()
    modifies pids
    ensures pids.Valid()
    ensures p == null ==> pids.next == old(pids.next)
    ensures p != null ==> fresh(p) && fresh(p.pt) && Initial(p, old(pids.next)) && pids.next == Successor(old(pids.next))
  {
    var ptAllocated: bool := *;
    if !ptAllocated {
      return null;
    }
    var pt := new Vm.Pagetable();
    var procAllocated: bool := *;
    if !procAllocated {
      return null;
    }
    var pid := pids.FetchAdd();
    var tf: Trapframe := *;
    p := new Proc(pid, pt, tf);
  }

  /**
   * `drop`: every page the iterator yields from the process's page table is
   * given back to the pool.
   */
  method Drop(p: Proc, pool: PagePool.Pool)
    requires pool.Valid() && Vm.Pages(p.pt.slots) <= pool.mem.Keys
    modifies pool
    ensures pool.Valid() && pool.mem == old(pool.mem)
    ensures pool.free == old(pool.free) + Vm.ScanPages(p.pt.slots)
  {
    // The mappings the page-table iterator yields, in order.
    var ms := Vm.Scan(p.pt.slots, 0);
    for i := 0 to |ms|
      invariant pool.Valid() && pool.mem == old(pool.mem)
      invariant pool.free == old(pool.free) + Vm.PagesOf(ms[..i])
    {
      Vm.ScanPageMapped(p.pt.slots, 0, ms[i]);
      pool.Free(ms[i].Pa());
      TakeSnoc(ms, i);
    }
    assert ms[..|ms|] == ms;
    Vm.ScanPagesOf(p.pt.slots);
  }

  // ---------------------------------------------------------------------------
  // `new_from_parent`.

  /**
   * Copying one more mapping m onto page q, at a new address above those
   * copied so far, onto a page no slot maps yet.
   */
  lemma CopiedStep(seen: seq<Vm.VaMapping>, m: Vm.VaMapping, slots: Vm.Slots,
                   mem0: map<nat, seq<uint8>>, mem: map<nat, seq<uint8>>, q: nat)
    requires Vm.Copied(seen, slots, mem0, mem) && Vm.Distinct(slots) && Vm.Flat(slots)
    requires forall x | x in seen :: x.va < m.va
    requires m.va % Sys.PAGESIZE == 0 && m.va < ProcLayout.MAX_VA
    requires m.Pa() in mem0 && m.Pa() in mem && mem[m.Pa()] == mem0[m.Pa()] && q in mem
    requires forall k | k in slots :: slots[k].pte.pa != q
    ensures var slots' := slots[m.va := Vm.Leaf(Vm.Pte(q, m.Perm(), true), Vm.Normal)];
      Vm.Copied(seen + [m], slots', mem0, mem[q := mem[m.Pa()]]) && Vm.Distinct(slots') && Vm.Flat(slots')
  {
    var slots' := slots[m.va := Vm.Leaf(Vm.Pte(q, m.Perm(), true), Vm.Normal)];
    var mem' := mem[q := mem[m.Pa()]];
    assert m.va !in slots;
    assert slots'.Keys == Vm.Addresses(seen + [m]);
    forall x | x in seen + [m]
      ensures x.va in slots' && slots'[x.va].level == Vm.Normal && slots'[x.va].pte.valid && slots'[x.va].pte.perm == x.Perm()
      ensures slots'[x.va].pte.pa in mem' && x.Pa() in mem0 && mem'[slots'[x.va].pte.pa] == mem0[x.Pa()]
    {
      if x != m {
        assert x in seen && slots'[x.va] == slots[x.va];
      }
    }
  }

  /**
   * One iteration of the copy loop: a page is taken, filled with the parent
   * page's bytes and mapped at the same address with the same permissions.
   * Throughout, the free pages are those that were free at the start less the
   * child's pages; when `mappg` fails, the page it was given is lost as well
   * (`leak`), being neither free nor mapped.
   */
  method CopyMapping(pt: Vm.Pagetable, pool: PagePool.Pool, m: Vm.VaMapping,
                     ghost seen: seq<Vm.VaMapping>, ghost mem0: map<nat, seq<uint8>>, ghost free0: set<nat>)
    returns (ok: bool, ghost leak: set<nat>)
    requires pool.Valid() && Elf.PoolKept(mem0, free0, pool.mem, pool.free)
    requires m.va % Sys.PAGESIZE == 0 && m.va < ProcLayout.MAX_VA && m.Pa() in mem0 && m.Pa() !in free0
    requires forall x | x in seen :: x.va < m.va
    requires Vm.Copied(seen, pt.slots, mem0, pool.mem) && Vm.Distinct(pt.slots) && Vm.Flat(pt.slots)
    requires Vm.Pages(pt.slots) <= free0 && pool.free == free0 - Vm.Pages(pt.slots)
    modifies pt, pool
    ensures pool.Valid() && Elf.PoolKept(mem0, free0, pool.mem, pool.free)
    ensures Vm.Pages(pt.slots) <= free0
    ensures ok ==> leak == {} && pool.free == free0 - Vm.Pages(pt.slots)
    ensures ok ==> Vm.Copied(seen + [m], pt.slots, mem0, pool.mem) && Vm.Distinct(pt.slots) && Vm.Flat(pt.slots)
    ensures !ok ==> pt.slots == old(pt.slots) && leak <= old(pool.free) && |leak| <= 1 && pool.free == old(pool.free) - leak
  {
    leak := {};
    ghost var (s0, f0) := (pt.slots, pool.free);
    var pg := pool.Alloc();
    if pg.None? {
      return false, leak;
    }
    var q := pg.value;
    ghost var m1 := pool.mem;
    pool.Write(q, pool.mem[m.Pa()]);
    ok := Vm.MappgAsWritten(pt, pool, m.va, q, m.Perm());
    if !ok {
      leak := {q};
      return;
    }
    assert Vm.Base(m.va, Vm.Normal) == m.va;
    assert forall k | k in s0 :: s0[k].pte.pa in Vm.Pages(s0);
    CopiedStep(seen, m, s0, mem0, m1, q);
    Vm.PagesAdd(s0, m.va, Vm.Leaf(Vm.Pte(q, m.Perm(), true), Vm.Normal));
    Taken(free0, Vm.Pages(s0), q);
  }

  /** The free pages less those mapped and a lost set, with the mapped ones given back, are the free pages less the lost set. */
  lemma Restored(free0: set<nat>, pages: set<nat>, leak: set<nat>, free: set<nat>)
    requires pages <= free0 && leak <= free0 - pages && free == free0 - pages - leak
    ensures free + pages == free0 - leak
  {
  }

  /** The mappings the iterator yields before the i-th lie below it. */
  lemma ScannedBelow(slots: Vm.Slots, i: nat)
    requires i < |Vm.Scan(slots, 0)|
    ensures forall x | x in Vm.Scan(slots, 0)[..i] :: x.va < Vm.Scan(slots, 0)[i].va
  {
    var ms := Vm.Scan(slots, 0);
    Vm.ScanSorted(slots, 0);
    forall x | x in ms[..i]
      ensures x.va < ms[i].va
    {
      var k :| 0 <= k < i && ms[k] == x;
    }
  }

  /**
   * Pages taken since `free0` down to `f1`, of which a drop hands back `s`
   * and a failed map lost `leak`: what is missing from `free0` afterwards is
   * exactly the pages taken but not handed back.
   */
  lemma Returned(free0: set<nat>, f1: set<nat>, s: set<nat>, leak: set<nat>)
    requires f1 <= free0 && s <= free0 - f1 && leak <= f1
    ensures (f1 - leak) + s == free0 - ((free0 - f1 - s) + leak)
    ensures (free0 - f1 - s) + leak <= free0 && ((free0 - f1 - s) + leak) !! s
  {
  }

  /** Losing pages from what is left of the free pages after those mapped. */
  lemma Lost(free0: set<nat>, pages: set<nat>, before: set<nat>, leak: set<nat>, free: set<nat>)
    requires before == free0 - pages && leak <= before && free == before - leak
    ensures leak <= free0 - pages && free == free0 - pages - leak
  {
  }

  /** The free pages less those mapped, less q, are the free pages less those mapped and q. */
  lemma Taken(free0: set<nat>, pages: set<nat>, q: nat)
    requires pages <= free0 && q in free0 - pages
    ensures pages + {q} <= free0 && (free0 - pages) - {q} == free0 - (pages + {q})
  {
  }

  /**
   * `new_from_parent`: a fresh process whose page table copies every mapping
   * the iterator yields from the parent's, each onto a page of its own with
   * the parent page's bytes, the same address and the same permissions; it
   * records the parent and copies its trapframe. On any failure to allocate
   * or map a page the child is dropped, which hands back every page it maps
   * (all below MAX_VA, so the iterator yields them);
   * a page whose `mappg` failed is not among them and stays lost (`leak`).
   */
  method NewFromParent(pids: PidCounter, pool: PagePool.Pool, parent: Proc) returns (p: Proc?, ghost leak: set<nat>)
    requires pids.Valid() && pool.Valid()
    requires Vm.Pages(parent.pt.slots) <= pool.mem.Keys - pool.free
    modifies pids, pool
    ensures pids.Valid() && pool.Valid() && Elf.PoolKept(old(pool.mem), old(pool.free), pool.mem, pool.free)
    ensures p == null ==> leak <= old(pool.free) && |leak| <= 1 && pool.free == old(pool.free) - leak
    ensures p != null ==> leak == {}
    ensures p != null ==> fresh(p) && fresh(p.pt) && pids.next == Successor(old(pids.next))
    ensures p != null ==> p.pid == old(pids.next) && p.nchild == 0 && p.state == Runnable && p.wq == None
    ensures p != null ==> p.next == null && p.prev == null && p.canary == ProcLayout.CANARY
    ensures p != null ==> p.parent == parent && p.trapframe == parent.trapframe
    ensures p != null ==> Vm.Copied(Vm.Scan(parent.pt.slots, 0), p.pt.slots, old(pool.mem), pool.mem)
    ensures p != null ==> Vm.Distinct(p.pt.slots) && Vm.Flat(p.pt.slots)
    ensures p != null ==> Vm.Pages(p.pt.slots) <= old(pool.free) && pool.free == old(pool.free) - Vm.Pages(p.pt.slots)
  {
    leak := {};
    p := NewEmpty(pids);
    if p == null {
      return;
    }
    var ok;
    ok, leak := CopyMappings(parent.pt, p.pt, pool);
    if !ok {
      DropCopy(p, pool, old(pool.mem), old(pool.free), leak);
      return null, leak;
    }
    p.parent := parent;
    p.trapframe := parent.trapframe;
  }

  /**
   * The loop of `new_from_parent` over the parent's mappings, from the child's
   * empty table: on success the child copies them all; either way every page
   * the child maps was taken from the free pages, and no other page was but
   * the one a failed `mappg` lost.
   */
  method CopyMappings(from: Vm.Pagetable, to: Vm.Pagetable, pool: PagePool.Pool) returns (ok: bool, ghost leak: set<nat>)
    requires pool.Valid() && from != to && to.slots == map[]
    requires Vm.Pages(from.slots) <= pool.mem.Keys - pool.free
    modifies to, pool
    ensures pool.Valid() && Elf.PoolKept(old(pool.mem), old(pool.free), pool.mem, pool.free)
    ensures Vm.Flat(to.slots) && Vm.Pages(to.slots) <= old(pool.free)
    ensures leak <= old(pool.free) - Vm.Pages(to.slots) && |leak| <= 1 && pool.free == old(pool.free) - Vm.Pages(to.slots) - leak
    ensures ok ==> leak == {} && Vm.Copied(Vm.Scan(from.slots, 0), to.slots, old(pool.mem), pool.mem) && Vm.Distinct(to.slots)
  {
    leak := {};
    // The mappings the page-table iterator yields, in increasing address order.
    var ms := Vm.Scan(from.slots, 0);
    for i := 0 to |ms|
      invariant pool.Valid() && Elf.PoolKept(old(pool.mem), old(pool.free), pool.mem, pool.free)
      invariant Vm.Pages(to.slots) <= old(pool.free) && pool.free == old(pool.free) - Vm.Pages(to.slots)
      invariant Vm.Copied(ms[..i], to.slots, old(pool.mem), pool.mem) && Vm.Distinct(to.slots) && Vm.Flat(to.slots)
      invariant leak == {}
    {
      Vm.ScanEntry(from.slots, ms[i]);
      ScannedBelow(from.slots, i);
      ghost var before := pool.free;
      ok, leak := CopyMapping(to, pool, ms[i], ms[..i], old(pool.mem), old(pool.free));
      if !ok {
        Lost(old(pool.free), Vm.Pages(to.slots), before, leak, pool.free);
        return;
      }
      TakeSnoc(ms, i);
    }
    assert ms[..|ms|] == ms;
    assert pool.free - leak == pool.free;
    ok := true;
  }

  // ---------------------------------------------------------------------------
  // `new_from_elf`.

  /**
   * `new_from_elf`: a fresh process whose page table holds what the loader
   * builds from the binary's segments, the table `loaded` with the pool at
   * `mem1` and `free1`, plus one zeroed page `stack` mapped read-write for the
   * user at STACK_VA; its trapframe starts at the ELF entry point with the
   * stack pointer 16 bytes below the top of that page. When the loader
   * panics, so does the kernel; on every other failure the process is
   * dropped and None results.
   */
  method NewFromElf(pids: PidCounter, pool: PagePool.Pool, bin: seq<uint8>)
    returns (p: Proc?, panicked: bool, ghost loaded: Vm.Slots, ghost mem1: map<nat, seq<uint8>>, ghost free1: set<nat>, ghost stack: nat,
             ghost dropped: Vm.Slots, ghost lost: set<nat>)
    requires pids.Valid() && pool.Valid() && Elf.HeadersInside(bin)
    modifies pids, pool
    ensures pids.Valid() && pool.Valid() && Elf.PoolKept(old(pool.mem), old(pool.free), pool.mem, pool.free)
    ensures pids.next == old(pids.next) || pids.next == Successor(old(pids.next))
    ensures p == null && !panicked ==> Vm.Pages(dropped) <= old(pool.free) && lost <= old(pool.free)
    ensures p == null && !panicked ==> pool.free == old(pool.free) - lost && lost !! Vm.ScanPages(dropped)
    ensures panicked ==> p == null && Elf.Magic(bin) == Elf.MAGIC
    ensures panicked ==> exists j | 0 <= j < Elf.Phnum(bin) ::
      Elf.SegmentPanics(Elf.Corrected, bin, Elf.Table(bin)[j], Elf.Phoff(bin) + j * Elf.PHDR_SIZE)
    ensures Elf.Magic(bin) != Elf.MAGIC ==> p == null && !panicked && pool.free == old(pool.free)
    ensures p != null ==> fresh(p) && fresh(p.pt) && pids.next == Successor(old(pids.next))
    ensures p != null ==> p.pid == old(pids.next) && p.nchild == 0 && p.state == Runnable && p.wq == None
    ensures p != null ==> p.parent == null && p.next == null && p.prev == null && p.canary == ProcLayout.CANARY
    ensures p != null ==> p.trapframe == Trapframe(ProcLayout.STACK_VA + Sys.PAGESIZE - 16, Elf.Entry(bin))
    ensures p != null ==>
      Elf.SegmentsLoaded(Elf.Corrected, bin, Elf.Table(bin), Elf.Phoff(bin), Elf.Phnum(bin), loaded, mem1, free1, map[])
    ensures p != null ==> stack in free1 && p.pt.slots == loaded[ProcLayout.STACK_VA := Vm.Leaf(Vm.Pte(stack, Vm.URW, true), Vm.Normal)]
    ensures p != null ==> pool.free == free1 - {stack} && pool.mem == mem1[stack := PagePool.Zeros()]
  {
    panicked, loaded, mem1, free1, stack, dropped, lost := false, map[], pool.mem, pool.free, 0, map[], {};
    p := NewEmpty(pids);
    if p == null {
      return;
    }
    var r;
    r, lost := LoadSegments(p, pool, bin);
    loaded, mem1, free1, dropped := p.pt.slots, pool.mem, pool.free, p.pt.slots;
    if !r.Loaded? {
      p, panicked := null, r.Panicked?;
      return;
    }
    var ok;
    ghost var leak;
    ok, stack, leak := MapStack(p, pool, old(pool.mem), old(pool.free));
    if !ok {
      Vm.ScanPagesWithin(loaded);
      Returned(old(pool.free), free1, Vm.ScanPages(loaded), leak);
      lost := (old(pool.free) - free1 - Vm.ScanPages(loaded)) + leak;
      p := null;
      return;
    }
    p.trapframe := Trapframe(ProcLayout.STACK_VA + Sys.PAGESIZE - 16, r.entry);
  }

  /**
   * `load64` into the empty table of a new process; when it returns None the
   * process is dropped again, handing back every page the iterator yields
   * from its table. The pages it took that the iterator cannot see stay
   * taken (`lost`).
   */
  method LoadSegments(p: Proc, pool: PagePool.Pool, bin: seq<uint8>) returns (r: Elf.LoadResult, ghost lost: set<nat>)
    requires pool.Valid() && Elf.HeadersInside(bin) && p.pt.slots == map[]
    modifies p.pt, pool
    ensures pool.Valid() && Elf.PoolKept(old(pool.mem), old(pool.free), pool.mem, pool.free)
    ensures !r.Rejected? ==> lost == {}
    ensures r.Rejected? ==> Vm.Pages(p.pt.slots) <= old(pool.free) && lost <= old(pool.free)
    ensures r.Rejected? ==> pool.free == old(pool.free) - lost && lost !! Vm.ScanPages(p.pt.slots)
    ensures Elf.Magic(bin) != Elf.MAGIC ==> r == Elf.Rejected && pool.free == old(pool.free)
    ensures r.Loaded? ==> Elf.Magic(bin) == Elf.MAGIC && r.entry == Elf.Entry(bin)
    ensures r.Loaded? ==> Vm.Pages(p.pt.slots) <= old(pool.free) - pool.free
    ensures r.Loaded? ==>
      Elf.SegmentsLoaded(Elf.Corrected, bin, Elf.Table(bin), Elf.Phoff(bin), Elf.Phnum(bin), p.pt.slots, pool.mem, pool.free, map[])
    ensures r == Elf.Panicked ==> Elf.Magic(bin) == Elf.MAGIC && exists j | 0 <= j < Elf.Phnum(bin) ::
      Elf.SegmentPanics(Elf.Corrected, bin, Elf.Table(bin)[j], Elf.Phoff(bin) + j * Elf.PHDR_SIZE)
  {
    lost := {};
    r := Elf.Load64(p.pt, pool, bin, Elf.Corrected);
    if r.Rejected? {
      ghost var f1 := pool.free;
      Vm.ScanPagesWithin(p.pt.slots);
      DropLoaded(p, pool, old(pool.mem), old(pool.free));
      Returned(old(pool.free), f1, Vm.ScanPages(p.pt.slots), {});
      lost := old(pool.free) - f1 - Vm.ScanPages(p.pt.slots);
    }
  }

  /**
   * Allocating and mapping the user stack of `new_from_elf`: a zeroed page,
   * read-write for the user at STACK_VA. On failure the process is dropped;
   * when it was `mappg` that failed, the stack page is lost (`leak`).
   */
  method MapStack(p: Proc, pool: PagePool.Pool, ghost mem0: map<nat, seq<uint8>>, ghost free0: set<nat>)
    returns (ok: bool, ghost stack: nat, ghost leak: set<nat>)
    requires pool.Valid() && Elf.PoolKept(mem0, free0, pool.mem, pool.free) && free0 <= mem0.Keys
    requires Vm.Pages(p.pt.slots) <= free0 - pool.free
    modifies p.pt, pool
    ensures pool.Valid() && Elf.PoolKept(mem0, free0, pool.mem, pool.free)
    ensures ok ==> stack in old(pool.free) && pool.free == old(pool.free) - {stack} && pool.mem == old(pool.mem)[stack := PagePool.Zeros()]
    ensures ok ==> p.pt.slots == old(p.pt.slots)[ProcLayout.STACK_VA := Vm.Leaf(Vm.Pte(stack, Vm.URW, true), Vm.Normal)]
    ensures !ok ==> p.pt.slots == old(p.pt.slots) && leak <= old(pool.free) && |leak| <= 1
    ensures !ok ==> pool.free == (old(pool.free) - leak) + Vm.ScanPages(p.pt.slots)
  {
    stack, leak := 0, {};
    var ustack := pool.Zalloc();
    if ustack.None? {
      DropLoaded(p, pool, mem0, free0);
      return false, stack, leak;
    }
    var pg := ustack.value;
    stack := pg;
    assert pg in free0 && Elf.PoolKept(mem0, free0, pool.mem, pool.free);
    ok := Vm.MappgAsWritten(p.pt, pool, ProcLayout.STACK_VA, pg, Vm.URW);
    if !ok {
      leak := {pg};
      DropLoaded(p, pool, mem0, free0);
      return;
    }
    ProcLayout.StackLayout();
    Vm.BaseOf(ProcLayout.STACK_VA, ProcLayout.STACK_VA, Sys.PAGESIZE);
  }

  /**
   * Dropping a child whose copy failed: every slot of it is a 4 KiB leaf
   * below MAX_VA, so the drop hands back all the pages it maps and only the
   * lost page stays taken.
   */
  method DropCopy(p: Proc, pool: PagePool.Pool, ghost mem0: map<nat, seq<uint8>>, ghost free0: set<nat>, ghost leak: set<nat>)
    requires pool.Valid() && Elf.PoolKept(mem0, free0, pool.mem, pool.free) && free0 <= mem0.Keys
    requires Vm.Flat(p.pt.slots) && Vm.Pages(p.pt.slots) <= free0
    requires leak <= free0 - Vm.Pages(p.pt.slots) && pool.free == free0 - Vm.Pages(p.pt.slots) - leak
    modifies pool
    ensures pool.Valid() && Elf.PoolKept(mem0, free0, pool.mem, pool.free)
    ensures pool.free == free0 - leak
  {
    Vm.ScanPagesFlat(p.pt.slots);
    ghost var (f1, pages) := (pool.free, Vm.Pages(p.pt.slots));
    Drop(p, pool);
    Restored(free0, pages, leak, f1);
  }

  /**
   * Dropping a process whose pages were all taken from the free pages since
   * the pool was at `mem0` and `free0`: no page that was not free then is
   * freed, so the pool has still lost nothing since.
   */
  method DropLoaded(p: Proc, pool: PagePool.Pool, ghost mem0: map<nat, seq<uint8>>, ghost free0: set<nat>)
    requires pool.Valid() && Elf.PoolKept(mem0, free0, pool.mem, pool.free) && free0 <= mem0.Keys
    requires Vm.Pages(p.pt.slots) <= free0 - pool.free
    modifies pool
    ensures pool.Valid() && Elf.PoolKept(mem0, free0, pool.mem, pool.free)
    ensures pool.free == old(pool.free) + Vm.ScanPages(p.pt.slots)
  {
    Vm.ScanPagesWithin(p.pt.slots);
    Drop(p, pool);
  }
}
