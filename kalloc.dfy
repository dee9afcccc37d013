
/** The allocator object. */
module Kalloc {
  import opened Types
  import opened FreeLists
  import Sys

  /**
   * The allocator's state. `unit` (the header size in bytes) and `base` (the
   * address of the sentinel header, which lies below the arena) never
   * change; `start`, `end` and `freep` are the fields of the same names, and
   * `next` and `size` the fields of every header written so far. The rest is
   * bookkeeping for the proofs: `lo` is the arena's first unit, `ring` the
   * free list in address order from `base`, and `used` the headers of the
   * blocks handed out and not yet returned.
   */
  datatype Arena = Arena(unit: nat, base: nat, start: nat, end: nat, freep: nat,
                         next: map<nat, nat>, size: map<nat, nat>,
                         ghost lo: nat, ghost ring: seq<nat>, ghost used: set<nat>)

  /**
   * The allocator's invariant: before `init` there is no arena and nothing
   * is free or handed out; afterwards the arena [lo, end) lies above `base`,
   * `start` inside it; `freep` is null exactly while the free list has not
   * been set up and otherwise one of its headers; and the free list and the
   * blocks handed out tile the part of the arena below `start` without
   * overlapping.
   */
  ghost predicate Sound(a: Arena)
  {
    && (a.unit == PG_UNIT || a.unit == KR_UNIT) && a.base != NULL
    && (a.start == NULL ==> a.end == NULL && a.ring == [] && a.used == {})
    && (a.start != NULL ==> a.base < a.lo <= a.start <= a.end)
    && (a.freep == NULL <==> a.ring == [])
    && (a.freep != NULL ==> a.freep in a.ring)
    && (a.used != {} ==> a.ring != [])
    && FreeList(a.ring, a.next, a.size, a.base, a.lo, a.start)
    && Owned(a.used, a.ring, a.size, a.lo, a.start)
  }

  /** a' has a's header size, sentinel and arena. */
  ghost predicate Fixed(a: Arena, a': Arena)
  {
    a'.unit == a.unit && a'.base == a.base && a'.start == a.start && a'.end == a.end && a'.lo == a.lo
  }

  /** a' has a's header size, sentinel, arena end and first unit; only `start` may have moved. */
  ghost predicate Stays(a: Arena, a': Arena)
  {
    a'.unit == a.unit && a'.base == a.base && a'.end == a.end && a'.lo == a.lo
  }

  /** Every block handed out in a still has its size in a'. */
  ghost predicate Kept(a: Arena, a': Arena)
  {
    forall u | u in a.used :: u in a.size && u in a'.size && a'.size[u] == a.size[u]
  }

  /** a' is a with b, of n units, handed out as well: b was not handed out before. */
  ghost predicate Handed(a: Arena, n: nat, b: nat, a': Arena)
  {
    b !in a.used && a'.used == a.used + {b} && b in a'.size && a'.size[b] == n && Kept(a, a')
  }

  /** A block handed out after a step that kept the blocks in use is handed out relative to the state before that step. */
  lemma HandedAfter(a0: Arena, a1: Arena, n: nat, r: nat, a2: Arena)
    requires a1.used == a0.used && Kept(a0, a1) && (r != NULL ==> Handed(a1, n, r - 1, a2))
    ensures r != NULL ==> Handed(a0, n, r - 1, a2)
  {
  }

  /** Taking n units from the free block at position j keeps the invariant and hands out b. */
  lemma TakeKeeps(a: Arena, j: nat, n: nat, b: nat, a': Arena)
    requires Sound(a) && 0 < j < |a.ring| && 0 < n <= a.size[a.ring[j]]
    requires Taken(a.ring, a.next, a.size, j, n, b, a'.ring, a'.next, a'.size)
    requires a'.used == a.used + {b} && a'.freep == a.ring[j - 1] && Fixed(a, a')
    ensures Sound(a') && b !in a.used && b in a'.size && a'.size[b] == n
    ensures forall u | u in a.used :: u in a'.size && a'.size[u] == a.size[u]
  {
    Carve(a.ring, a.next, a.size, a.base, a.lo, a.start, a.used, j, n, b, a'.ring, a'.next, a'.size, a'.used);
  }

  /**
   * a' is a after `dealloc` returned the block at bp, which lay after the
   * free header at position k = Slot(a.ring, bp): bp is no longer handed out
   * and every other block keeps its size; the free list, the sizes and the
   * links are those Joined and Merged describe; and the search restarts at
   * the free header at k, which now spans at least bp's units or links to
   * bp, which does.
   */
  ghost predicate Freed(a: Arena, bp: nat, a': Arena)
  {
    && Fixed(a, a') && bp in a.used && a'.used == a.used - {bp}
    && (forall u | u in a'.used :: u in a'.size && u in a.size && a'.size[u] == a.size[u])
    && bp in a.size && a.ring != [] && a.ring[0] < bp
    && (forall i | 0 <= i < |a.ring| :: a.ring[i] in a.next && a.ring[i] in a.size)
    && var k := Slot(a.ring, bp);
    && a'.freep == a.ring[k]
    && Merged(a.ring, a.next, a.size, k, bp, a'.next, a'.size)
    && Joined(a.ring, a.size, k, bp, a.size[bp], a'.ring, a'.size)
    && a'.freep in a'.ring && a'.freep in a'.size && a'.freep in a'.next
    && (a.size[bp] <= a'.size[a'.freep] || (a'.next[a'.freep] == bp && bp in a'.size && a.size[bp] <= a'.size[bp]))
  }

  /** Returning the block at bp to the free list after position k keeps the invariant. */
  lemma JoinKeeps(a: Arena, bp: nat, k: nat, a': Arena)
    requires Sound(a) && bp in a.used && k == Slot(a.ring, bp)
    requires a'.ring == JoinRing(a.ring, a.size, k, bp, a.size[bp]) && Merged(a.ring, a.next, a.size, k, bp, a'.next, a'.size)
    requires a'.used == a.used - {bp} && a'.freep == a.ring[k] && Fixed(a, a')
    ensures Sound(a') && Freed(a, bp, a')
  {
    Rejoin(a.ring, a.next, a.size, a.base, a.lo, a.start, a.used, bp, k, a'.ring, a'.next, a'.size);
  }

  /**
   * The header updates of `dealloc` once the free header p = ring[k] below
   * bp is found: bp absorbs the free block after p when it touches it, and
   * p absorbs bp when it touches it; Merged states the outcome.
   */
  method Merge(ghost ring: seq<nat>, next: map<nat, nat>, size: map<nat, nat>, ghost k: nat, p: nat, bp: nat) returns (next': map<nat, nat>, size': map<nat, nat>)
    requires k < |ring| && p == ring[k] && bp in size && forall i | 0 <= i < |ring| :: ring[i] in next && ring[i] in size
    requires p != bp && next[p] in next && next[p] in size
    requires TouchesAbove(ring, k, bp, size[bp]) <==> bp + size[bp] == next[p]
    requires TouchesAbove(ring, k, bp, size[bp]) ==> next[p] == ring[k + 1]
    requires TouchesBelow(ring, size, k, bp) <==> p + size[p] == bp
    ensures Merged(ring, next, size, k, bp, next', size')
  {
    next', size' := next, size;
    if bp + size'[bp] == next'[p] {
      size' := size'[bp := size'[bp] + size'[next'[p]]];
      next' := next'[bp := next'[next'[p]]];
    } else {
      next' := next'[bp := next'[p]];
    }
    if p + size'[p] == bp {
      size' := size'[p := size'[p] + size'[bp]];
      next' := next'[p := next'[bp]];
    } else {
      next' := next'[p := bp];
    }
  }

  /** How many steps along the circular free list of len headers lead from position f to position j. */
  function Steps(len: nat, f: nat, j: nat): nat
    requires f < len && j < len
  {
    if f < j then j - f else j + len - f
  }

  /**
   * Position j of a's free list holds the first free block of at least n
   * units met going round from the header after freep: every block passed
   * over before it is smaller.
   */
  ghost predicate FirstFit(a: Arena, n: nat, j: nat)
    requires a.freep in a.ring && forall i | 0 <= i < |a.ring| :: a.ring[i] in a.size
  {
    && 0 < j < |a.ring| && n <= a.size[a.ring[j]]
    && var f := IndexOf(a.ring, a.freep);
       forall t | 1 <= t < Steps(|a.ring|, f, j) :: a.size[At(a.ring, f, t)] < n
  }

  /**
   * The search loop of `alloc`, once around the free list: from the header
   * after freep, the first free block of at least n units and the header
   * before it, every block passed over being smaller; none when no free
   * block is that large, the search having come back to freep.
   */
  method Search(ghost ring: seq<nat>, next: map<nat, nat>, size: map<nat, nat>, ghost base: nat, ghost lo: nat, ghost top: nat, freep: nat, n: nat)
    returns (found: bool, prevp: nat, p: nat, ghost j: nat)
    requires FreeList(ring, next, size, base, lo, top) && freep in ring && 0 < n
    ensures found ==> 0 < j < |ring| && p == ring[j] && prevp == ring[j - 1] && n <= size[p]
    ensures found ==> forall t | 1 <= t < Steps(|ring|, IndexOf(ring, freep), j) :: size[At(ring, IndexOf(ring, freep), t)] < n
    ensures !found ==> NoFit(ring, size, n)
  {
    ghost var f := IndexOf(ring, freep);
    ghost var d: nat := 1;
    prevp := freep;
    NextAt(ring, next, size, base, lo, top, f, 0);
    p := next[prevp];
    while true
      invariant 0 < d <= |ring| && p == At(ring, f, d) && prevp == At(ring, f, d - 1)
      invariant forall t | 1 <= t < d :: size[At(ring, f, t)] < n
      decreases |ring| - d
    {
      if size[p] >= n {
        j := if f + d < |ring| then f + d else f + d - |ring|;
        return true, prevp, p, j;
      }
      if p == freep {
        Wrapped(ring, next, size, base, lo, top, f, d);
        Exhausted(ring, size, f, d, n);
        return false, prevp, p, 0;
      }
      NextAt(ring, next, size, base, lo, top, f, d);
      Passed(ring, size, f, d, n);
      prevp := p;
      p := next[p];
      d := d + 1;
    }
  }

  class Allocator {
    var a: Arena

    ghost predicate Valid()
      reads this
    {
      Sound(a)
    }

    /** `new_uninit()`: no arena, no free list, and `base` a null-linked header of size 0. */
    constructor (unit: nat, base: nat)
      requires (unit == PG_UNIT || unit == KR_UNIT) && base != NULL
      ensures Valid() && a.unit == unit && a.base == base
      ensures a.start == NULL && a.end == NULL && a.freep == NULL && a.ring == [] && a.used == {}
      ensures a.next == map[base := NULL] && a.size == map[base := 0]
    {
      a := Arena(unit, base, NULL, NULL, NULL, map[base := NULL], map[base := 0], 0, [], {});
    }

    /**
     * `init(start, size)`: the arena becomes the `bytes` bytes from `arena`
     * on, a whole number of pages; the free list is left as it is.
     */
    method Init(arena: nat, bytes: nat)
      requires Valid() && a.start == NULL
      requires bytes != 0 && bytes % Sys.PAGESIZE == 0 && arena != NULL && a.base < arena
      modifies this
      ensures Valid() && a == old(a).(start := arena, end := arena + bytes / a.unit, lo := arena)
    {
      a := a.(start := arena, end := arena + bytes / a.unit, lo := arena);
    }

    /** `sbrk(incr)`: the next incr units of the arena, or null, with nothing claimed, when fewer are left. */
    method Sbrk(incr: nat) returns (p: nat)
      requires Valid()
      modifies this
      ensures Valid()
      ensures old(a.start) + incr > a.end ==> p == NULL && a == old(a)
      ensures old(a.start) + incr <= a.end ==> p == old(a.start) && a == old(a).(start := old(a.start) + incr)
    {
      var start := a.start + incr;
      if start > a.end {
        return NULL;
      }
      p := a.start;
      Grow(a.ring, a.next, a.size, a.base, a.lo, p, a.used, start);
      a := a.(start := start);
    }

    /** The search loop of `dealloc`: the free header just below bp. */
    method Locate(bp: nat) returns (p: nat, ghost k: nat)
      requires Valid() && bp in a.used
      ensures k == Slot(a.ring, bp) && p == a.ring[k]
      ensures p in a.next && ((bp > p && bp < a.next[p]) || (p >= a.next[p] && (bp > p || bp < a.next[p])))
    {
      var ring, next, size := a.ring, a.next, a.size;
      UsedNotFree(ring, size, a.used, a.base, a.lo, a.start, bp);
      k := Slot(ring, bp);
      p := a.freep;
      ghost var i: nat := IndexOf(ring, p);
      Probe(ring, next, size, a.base, a.lo, a.start, bp, i);
      while !(bp > p && bp < next[p])
        invariant i < |ring| && p == ring[i] && p in next
        decreases if i <= k then k - i else k + |ring| - i
      {
        Probe(ring, next, size, a.base, a.lo, a.start, bp, i);
        if p >= next[p] && (bp > p || bp < next[p]) {
          break;
        }
        p := next[p];
        i := if i + 1 < |ring| then i + 1 else 0;
      }
      Probe(ring, next, size, a.base, a.lo, a.start, bp, i);
    }

    /** The merging half of `dealloc`: the block at bp returns to the free list after the header at p. */
    method Join(bp: nat, p: nat, ghost k: nat)
      requires Valid() && bp in a.used && k == Slot(a.ring, bp) && p == a.ring[k]
      modifies this
      ensures Valid() && Freed(old(a), bp, a)
    {
      ghost var a0 := a;
      Around(a.ring, a.next, a.size, a.base, a.lo, a.start, a.used, bp);
      var next, size := Merge(a.ring, a.next, a.size, k, p, bp);
      a := a.(next := next, size := size, freep := p, ring := JoinRing(a0.ring, a0.size, k, bp, a0.size[bp]), used := a.used - {bp});
      JoinKeeps(a0, bp, k, a);
    }

    /**
     * `dealloc(ptr)`: nothing for null; otherwise the block whose header
     * precedes ptr goes back on the free list, in address order and merged
     * with any free block it touches, and the search restarts from the
     * header before it.
     */
    method Dealloc(ptr: nat)
      requires Valid() && (ptr != NULL ==> ptr - 1 in a.used)
      modifies this
      ensures Valid()
      ensures ptr == NULL ==> a == old(a)
      ensures ptr != NULL ==> Freed(old(a), ptr - 1, a)
    {
      if ptr == NULL {
        return;
      }
      var bp := ptr - 1;
      UsedNotFree(a.ring, a.size, a.used, a.base, a.lo, a.start, bp);
      var p, k := Locate(bp);
      Join(bp, p, k);
    }

    /**
     * `morecore(nu)`: at least NALLOC units from `sbrk`, handed to `dealloc`
     * as a block, after which the search restarts at a free block at least
     * that large or at the header before it; null, with nothing changed,
     * when the arena is exhausted.
     */
    method Morecore(nu: nat) returns (r: nat)
      requires Valid() && a.start != NULL && a.ring != []
      modifies this
      ensures Valid() && Stays(old(a), a) && a.used == old(a.used) && Kept(old(a), a)
      ensures r == NULL ==> old(a.start) + Max(nu, NALLOC) > a.end && a == old(a)
      ensures r != NULL ==> a.start == old(a.start) + Max(nu, NALLOC) && r == a.freep && r in a.ring
      ensures r != NULL ==> Max(nu, NALLOC) <= a.size[r] || (a.next[r] in a.size && Max(nu, NALLOC) <= a.size[a.next[r]])
    {
      var n := nu;
      if n < NALLOC {
        n := NALLOC;
      }
      var up := Sbrk(n);
      if up == NULL {
        return NULL;
      }
      ghost var a0 := a;
      a := a.(size := a.size[up := n], used := a.used + {up});
      Claim(a0.ring, a0.next, a0.size, a0.base, a0.lo, up, a0.used, n, a.size, a.used, a.start);
      Dealloc(up + 1);
      r := a.freep;
    }

    /**
     * The end of a successful search in `alloc`: the free block p at
     * position j, after prevp, holds at least n units. When it holds exactly
     * n it leaves the free list; otherwise its tail of n units is cut off
     * and p shrinks. The next search starts at prevp.
     */
    method Take(prevp: nat, p: nat, n: nat, ghost j: nat) returns (r: nat)
      requires Valid() && 0 < j < |a.ring| && p == a.ring[j] && prevp == a.ring[j - 1] && 0 < n <= a.size[p]
      modifies this
      ensures Valid() && a.freep == prevp && Fixed(old(a), a)
      ensures r != NULL && Handed(old(a), n, r - 1, a)
      ensures Taken(old(a.ring), old(a.next), old(a.size), j, n, r - 1, a.ring, a.next, a.size)
    {
      ghost var a0 := a;
      var q, next, size := p, a.next, a.size;
      ghost var ring := a.ring;
      if size[p] == n {
        next := next[prevp := next[p]];
        ring := ring[..j] + ring[j + 1..];
      } else {
        size := size[p := size[p] - n];
        q := p + size[p];
        size := size[q := n];
      }
      a := a.(next := next, size := size, freep := prevp, ring := ring, used := a.used + {q});
      TakeKeeps(a0, j, n, q, a);
      r := q + 1;
    }

    /**
     * The start of `alloc`: before the first allocation the free list is
     * set up as `base` alone, a block of size 0 linked to itself, and the
     * search starts there.
     */
    method Prime()
      requires Valid() && a.start != NULL
      modifies this
      ensures Valid() && Fixed(old(a), a) && a.used == old(a.used) && Kept(old(a), a) && a.ring != [] && a.freep != NULL
      ensures old(a.ring) == [] ==> NoFit(a.ring, a.size, 1)
      ensures old(a.ring) != [] ==> a == old(a)
    {
      if a.freep == NULL {
        var prevp := a.base;
        a := a.(freep := prevp, next := a.next[a.base := prevp], size := a.size[a.base := 0], ring := [a.base]);
        Sentinel(a.next, a.size, a.base, a.lo, a.start);
      }
    }

    /**
     * The rest of `alloc` once a search found no free block of n units: the
     * arena grows by at least n units through `morecore` and the search,
     * repeated, takes n of them; null, with nothing changed, when the arena
     * cannot grow.
     */
    method Extend(n: nat) returns (r: nat)
      requires Valid() && a.start != NULL && a.ring != [] && 0 < n
      modifies this
      ensures Valid() && Stays(old(a), a) && Kept(old(a), a)
      ensures r == NULL ==> a == old(a) && old(a.start) + Max(n, NALLOC) > a.end
      ensures r != NULL ==> Handed(old(a), n, r - 1, a) && a.start == old(a.start) + Max(n, NALLOC)
    {
      ghost var a0 := a;
      var p := Morecore(n);
      if p == NULL {
        return NULL;
      }
      ghost var a1 := a;
      r := Resume(p, n, Max(n, NALLOC));
      HandedAfter(a0, a1, n, r, a);
    }

    /**
     * The search of `alloc` once `morecore` has returned p, the header it
     * restarts from, which holds at least m >= n units or links to one that
     * does: it cannot come round empty again, and takes n units.
     */
    method Resume(p: nat, n: nat, ghost m: nat) returns (r: nat)
      requires Valid() && p in a.ring && p in a.size && 0 < n <= m
      requires m <= a.size[p] || (p in a.next && a.next[p] in a.size && m <= a.size[a.next[p]])
      modifies this
      ensures Valid() && Fixed(old(a), a) && r != NULL && Handed(old(a), n, r - 1, a)
    {
      var found, prevp, q, j := Search(a.ring, a.next, a.size, a.base, a.lo, a.start, p, n);
      if !found {
        Fits(a.ring, a.next, a.size, a.base, a.lo, a.start, p, n, m);
        assert false;
      }
      r := Take(prevp, q, n, j);
    }

    /**
     * The search of `alloc` from the header after `freep`: the first free
     * block of at least n units is taken, and when a full round finds none
     * the arena grows and the search goes on; null, with nothing changed,
     * when it cannot grow.
     */
    method Find(n: nat) returns (r: nat, ghost j: nat)
      requires Valid() && a.start != NULL && a.ring != [] && 0 < n
      modifies this
      ensures Valid() && Stays(old(a), a) && Kept(old(a), a)
      ensures r == NULL ==> a == old(a) && old(a.start) + Max(n, NALLOC) > a.end && NoFit(a.ring, a.size, n)
      ensures r != NULL ==> Handed(old(a), n, r - 1, a)
      ensures !NoFit(old(a.ring), old(a.size), n) ==>
        r != NULL && a.start == old(a.start) && FirstFit(old(a), n, j) &&
        Taken(old(a.ring), old(a.next), old(a.size), j, n, r - 1, a.ring, a.next, a.size)
      ensures NoFit(old(a.ring), old(a.size), n) && r != NULL ==> a.start == old(a.start) + Max(n, NALLOC)
    {
      var found, prevp, p;
      found, prevp, p, j := Search(a.ring, a.next, a.size, a.base, a.lo, a.start, a.freep, n);
      if found {
        r := Take(prevp, p, n, j);
      } else {
        r := Extend(n);
      }
    }

    /**
     * `alloc(sz)`: the first free block, searching from the one after
     * `freep`, that holds Units(sz, unit) headers, taken whole or from its
     * tail, after growing the arena when no free block fits; null when the
     * arena cannot grow either. The result points just past the header.
     */
    method Alloc(sz: nat) returns (r: nat, ghost j: nat)
      requires Valid() && a.start != NULL && sz > 0
      modifies this
      ensures Valid() && Stays(old(a), a) && Kept(old(a), a)
      ensures r == NULL ==> a.used == old(a.used) && a.start == old(a.start) && old(a.start) + Units(sz, a.unit) > a.end
      ensures r == NULL ==> NoFit(old(a.ring), old(a.size), Units(sz, a.unit))
      ensures r != NULL ==> Handed(old(a), Units(sz, a.unit), r - 1, a)
      ensures !NoFit(old(a.ring), old(a.size), Units(sz, a.unit)) ==>
        r != NULL && a.start == old(a.start) && FirstFit(old(a), Units(sz, a.unit), j) &&
        Taken(old(a.ring), old(a.next), old(a.size), j, Units(sz, a.unit), r - 1, a.ring, a.next, a.size)
      ensures NoFit(old(a.ring), old(a.size), Units(sz, a.unit)) && r != NULL ==> a.start == old(a.start) + Max(Units(sz, a.unit), NALLOC)
    {
      ghost var a0 := a;
      var nunits := Units(sz, a.unit);
      Prime();
      ghost var a1 := a;
      r, j := Find(nunits);
      HandedAfter(a0, a1, nunits, r, a);
    }
  }
}
