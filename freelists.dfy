/**
 * The K&R first-fit allocator of kernel/kalloc/pg.rs and kernel/kalloc/kr.rs.
 * The two files differ only in the size of a block header, 4096 bytes in the
 * page allocator and 16 in the general one, so both are one allocator here
 * whose header size is its `unit` field.
 *
 * Memory is counted in headers: an address is the index of a header-sized
 * unit, and a block of `size` units starts with its header. Each header's two
 * fields are entries of the maps `next` and `size`, keyed by its address.
 * The free list is circular, runs through the zero-size sentinel header
 * `base`, which is part of the allocator itself, and is kept in address
 * order; the ghost sequence `ring` lists it from `base` upwards.
 */
module FreeLists {
  import opened Types
  import Sys

  const NULL: nat := 0
  /** `NALLOC`: the fewest headers `morecore` asks `sbrk` for. */
  const NALLOC: nat := 1
  /** `size_of::<Header>()` in kernel/kalloc/pg.rs, whose header is `align(4096)`. */
  const PG_UNIT: nat := 4096
  /** `size_of::<Header>()` in kernel/kalloc/kr.rs: two words, `align(16)`. */
  const KR_UNIT: nat := 16

  /**
   * The headers `alloc` reserves for sz bytes: the fewest whole headers that
   * hold sz bytes, plus the block's own header. With 4096-byte headers every
   * block therefore spans at least two pages.
   */
  function Units(sz: nat, unit: nat): (n: nat)
    requires sz > 0 && (unit == PG_UNIT || unit == KR_UNIT)
    ensures n >= 2 && sz <= (n - 1) * unit && (n - 2) * unit < sz
  {
    (sz + unit - 1) / unit + 1
  }

  function Max(a: nat, b: nat): (m: nat)
    ensures m >= a && m >= b && (m == a || m == b)
  {
    if a < b then b else a
  }

  // ---------------------------------------------------------------------------
  // The shape of the free list and of the blocks handed out.

  /** Addresses in strictly increasing order. */
  ghost predicate Ascending(s: seq<nat>)
  {
    forall i, j | 0 <= i < j < |s| :: s[i] < s[j]
  }

  /** Every free header has both fields, and all but the sentinel lie in the arena. */
  ghost predicate Headers(ring: seq<nat>, next: map<nat, nat>, size: map<nat, nat>, lo: nat)
  {
    forall i | 0 <= i < |ring| :: ring[i] in next && ring[i] in size && (0 < i ==> lo <= ring[i])
  }

  /**
   * The list starts at the sentinel `base`, of size 0, below the arena, and
   * its last header links back to `base` and ends inside the arena.
   */
  ghost predicate Ends(ring: seq<nat>, next: map<nat, nat>, size: map<nat, nat>, base: nat, lo: nat, top: nat)
  {
    && (ring != [] ==> ring[0] == base && base in size && size[base] == 0)
    && (ring != [] ==> ring[|ring| - 1] in next && next[ring[|ring| - 1]] == base)
    && (1 < |ring| ==> base < lo && ring[|ring| - 1] in size && ring[|ring| - 1] + size[ring[|ring| - 1]] <= top)
  }

  /** Each free header links to the one after it. */
  ghost predicate Linked(ring: seq<nat>, next: map<nat, nat>)
  {
    forall i {:trigger next[ring[i]]} | 0 <= i < |ring| - 1 :: ring[i] in next && next[ring[i]] == ring[i + 1]
  }

  /** Every free block but the sentinel's is non-empty and ends strictly before the next free header. */
  ghost predicate Spaced(ring: seq<nat>, size: map<nat, nat>)
  {
    forall i {:trigger size[ring[i]]} | 0 < i < |ring| :: ring[i] in size && 0 < size[ring[i]] && (i < |ring| - 1 ==> ring[i] + size[ring[i]] < ring[i + 1])
  }

  /**
   * The free list spelled out by `ring`: in address order from `base`, each
   * header linked to the next and the last back to `base`, every block but
   * the sentinel's inside the arena [lo, top), and no free block reaching the
   * one after it: neighbours are always merged.
   */
  ghost predicate FreeList(ring: seq<nat>, next: map<nat, nat>, size: map<nat, nat>, base: nat, lo: nat, top: nat)
  {
    Headers(ring, next, size, lo) && Ends(ring, next, size, base, lo, top) && Linked(ring, next) && Spaced(ring, size)
  }

  /** The blocks at a and b, of sa and sb units, do not overlap. */
  ghost predicate Apart(a: nat, sa: nat, b: nat, sb: nat)
  {
    a + sa <= b || b + sb <= a
  }

  /** The block of su units at u overlaps no free block other than the sentinel's. */
  ghost predicate Clear(u: nat, su: nat, ring: seq<nat>, size: map<nat, nat>)
  {
    forall i {:trigger size[ring[i]]} | 1 <= i < |ring| :: ring[i] in size && Apart(u, su, ring[i], size[ring[i]])
  }

  /**
   * The blocks handed out and not yet returned lie inside the arena and
   * overlap neither each other nor any free block.
   */
  ghost predicate Owned(used: set<nat>, ring: seq<nat>, size: map<nat, nat>, lo: nat, top: nat)
  {
    && (forall u | u in used :: u in size && lo <= u)
    && forall u {:trigger size[u], u in used} | u in used ::
      && u in size && 0 < size[u] && u + size[u] <= top
      && (forall v | v in used && v != u :: v in size && Apart(u, size[u], v, size[v]))
      && Clear(u, size[u], ring, size)
  }

  /** No free block is large enough for n units. */
  ghost predicate NoFit(ring: seq<nat>, size: map<nat, nat>, n: nat)
    requires forall i | 0 <= i < |ring| :: ring[i] in size
  {
    forall i {:trigger size[ring[i]]} | 0 <= i < |ring| :: size[ring[i]] < n
  }

  /** The free header d steps along the circular list from the one at position f. */
  ghost function At(ring: seq<nat>, f: nat, d: nat): nat
    requires f < |ring| && d <= |ring|
  {
    ring[if f + d < |ring| then f + d else f + d - |ring|]
  }

  /** Position of the last free header below x. */
  ghost function Slot(ring: seq<nat>, x: nat): (k: nat)
    requires ring != [] && ring[0] < x
    ensures k < |ring| && ring[k] < x && forall j | k < j < |ring| :: x <= ring[j]
    decreases |ring|
  {
    if ring[|ring| - 1] < x then |ring| - 1 else Slot(ring[..|ring| - 1], x)
  }

  /** The block of sb units at bp ends where the free block after position k starts. */
  ghost predicate TouchesAbove(ring: seq<nat>, k: nat, bp: nat, sb: nat)
  {
    k + 1 < |ring| && bp + sb == ring[k + 1]
  }

  /** The free block at position k, not the sentinel, ends where the block at bp starts. */
  ghost predicate TouchesBelow(ring: seq<nat>, size: map<nat, nat>, k: nat, bp: nat)
    requires k < |ring| && ring[k] in size
  {
    0 < k && ring[k] + size[ring[k]] == bp
  }


  /**
   * The block of size[bp] units at bp, not a free header, lies in the gap
   * after the free block at position k: clear of that block and of the
   * next free one, or of the end of the arena when there is none.
   */
  ghost predicate Between(ring: seq<nat>, size: map<nat, nat>, lo: nat, top: nat, bp: nat, k: nat)
    requires k < |ring| && forall i | 0 <= i < |ring| :: ring[i] in size
  {
    && bp in size && lo <= bp && 0 < size[bp] && ring[k] < bp
    && (forall i | 0 <= i < |ring| :: ring[i] != bp)
    && (0 < k ==> ring[k] + size[ring[k]] <= bp)
    && (k + 1 < |ring| ==> bp + size[bp] <= ring[k + 1])
    && (k + 1 == |ring| ==> bp + size[bp] <= top)
  }

  /**
   * The free list after the block of sb units at bp, which lies between the
   * free headers at positions k and k + 1, is returned to it: the block
   * absorbs the free block after it when it touches it, and is absorbed by
   * the one at k when that one touches it; otherwise it is linked in.
   */
  ghost function JoinRing(ring: seq<nat>, size: map<nat, nat>, k: nat, bp: nat, sb: nat): seq<nat>
    requires k < |ring| && ring[k] in size
  {
    var above := TouchesAbove(ring, k, bp, sb);
    var below := TouchesBelow(ring, size, k, bp);
    if below && above then ring[..k + 1] + ring[k + 2..]
    else if below then ring
    else if above then ring[k + 1 := bp]
    else ring[..k + 1] + [bp] + ring[k + 1..]
  }

  /**
   * The header fields after `dealloc` returns the block at bp, which lies
   * after the free header p at position k: a block it touches above is
   * absorbed into it, and it is absorbed into p when p touches it; p links
   * to whichever block now follows it.
   */
  ghost predicate Merged(ring: seq<nat>, next: map<nat, nat>, size: map<nat, nat>, k: nat, bp: nat, next': map<nat, nat>, size': map<nat, nat>)
    requires k < |ring| && bp in size && forall i | 0 <= i < |ring| :: ring[i] in next && ring[i] in size
  {
    var p := ring[k];
    var sb := size[bp];
    if TouchesAbove(ring, k, bp, sb) then
      var q := ring[k + 1];
      if TouchesBelow(ring, size, k, bp) then
        next' == next[bp := next[q]][p := next[q]] && size' == size[bp := sb + size[q]][p := size[p] + (sb + size[q])]
      else
        next' == next[bp := next[q]][p := bp] && size' == size[bp := sb + size[q]]
    else if TouchesBelow(ring, size, k, bp) then
      next' == next[bp := next[p]][p := next[p]] && size' == size[p := size[p] + sb]
    else
      next' == next[bp := next[p]][p := bp] && size' == size
  }

  /**
   * What returning the block of sb units at bp after position k does to the
   * free list and the block sizes: the list becomes JoinRing's, the merged
   * block's size is the sum of the sizes merged, and every other free block
   * keeps its size.
   */
  ghost predicate Joined(ring: seq<nat>, size: map<nat, nat>, k: nat, bp: nat, sb: nat, ring': seq<nat>, size': map<nat, nat>)
    requires k < |ring| && forall i | 0 <= i < |ring| :: ring[i] in size
  {
    var above := TouchesAbove(ring, k, bp, sb);
    var below := TouchesBelow(ring, size, k, bp);
    var grown := sb + if above then size[ring[k + 1]] else 0;
    && ring' == JoinRing(ring, size, k, bp, sb)
    && (forall m | m in ring' :: m in size')
    && (below ==> size'[ring[k]] == size[ring[k]] + grown)
    && (!below ==> size'[bp] == grown)
    && (forall i {:trigger size[ring[i]]} | 0 <= i < |ring| && i != k && i != k + 1 :: size'[ring[i]] == size[ring[i]])
    && (k + 1 < |ring| && !above ==> size'[ring[k + 1]] == size[ring[k + 1]])
    && (0 < k && !below ==> size'[ring[k]] == size[ring[k]])
  }

  /**
   * The free list and header fields after n units are taken from the free
   * block at position j and handed out at b: a block of exactly n units is
   * unlinked whole, its predecessor linking past it; a larger one keeps its
   * head, shrinks by n and gives up its last n units.
   */
  ghost predicate Taken(ring: seq<nat>, next: map<nat, nat>, size: map<nat, nat>, j: nat, n: nat, b: nat,
                        ring': seq<nat>, next': map<nat, nat>, size': map<nat, nat>)
    requires 0 < j < |ring| && forall i | 0 <= i < |ring| :: ring[i] in next && ring[i] in size
    requires n <= size[ring[j]]
  {
    var p := ring[j];
    if size[p] == n then
      b == p && ring' == ring[..j] + ring[j + 1..] && next' == next[ring[j - 1] := next[p]] && size' == size
    else
      b == p + (size[p] - n) && ring' == ring && next' == next && size' == size[p := size[p] - n][b := n]
  }

  // ---------------------------------------------------------------------------
  // Facts about the free list.

  /** Climbing the free list one header at a time only goes up. */
  lemma {:induction false} Climb(ring: seq<nat>, next: map<nat, nat>, size: map<nat, nat>, base: nat, lo: nat, top: nat, i: nat, j: nat)
    requires FreeList(ring, next, size, base, lo, top) && i < j < |ring|
    ensures ring[i] < ring[j]
    decreases j - i
  {
    assert 0 < i ==> ring[i] + size[ring[i]] < ring[i + 1];
    if i + 1 < j {
      Climb(ring, next, size, base, lo, top, i + 1, j);
    }
  }

  /** The free list is in strictly increasing address order. */
  lemma FreeListAscends(ring: seq<nat>, next: map<nat, nat>, size: map<nat, nat>, base: nat, lo: nat, top: nat)
    requires FreeList(ring, next, size, base, lo, top)
    ensures Ascending(ring)
  {
    forall i, j | 0 <= i < j < |ring|
      ensures ring[i] < ring[j]
    {
      Climb(ring, next, size, base, lo, top, i, j);
    }
  }

  /** The free headers before position j lie below it, and those after it above it. */
  lemma Pivot(ring: seq<nat>, next: map<nat, nat>, size: map<nat, nat>, base: nat, lo: nat, top: nat, j: nat)
    requires FreeList(ring, next, size, base, lo, top) && j < |ring|
    ensures forall i | 0 <= i < j :: ring[i] < ring[j]
    ensures forall i | j < i < |ring| :: ring[j] < ring[i]
  {
    forall i | 0 <= i < j
      ensures ring[i] < ring[j]
    {
      Climb(ring, next, size, base, lo, top, i, j);
    }
    forall i | j < i < |ring|
      ensures ring[j] < ring[i]
    {
      Climb(ring, next, size, base, lo, top, j, i);
    }
  }

  /** The free blocks before position j end below its header, and those after it start above its block's end. */
  lemma Gaps(ring: seq<nat>, next: map<nat, nat>, size: map<nat, nat>, base: nat, lo: nat, top: nat, j: nat)
    requires FreeList(ring, next, size, base, lo, top) && 0 < j < |ring|
    ensures forall i {:trigger size[ring[i]]} | 0 < i < j :: ring[i] + size[ring[i]] < ring[j]
    ensures forall i | j < i < |ring| :: ring[j] + size[ring[j]] < ring[i]
  {
    Pivot(ring, next, size, base, lo, top, j);
    forall i | 0 < i < j
      ensures ring[i] + size[ring[i]] < ring[j]
    {
      assert ring[i] + size[ring[i]] < ring[i + 1];
      if i + 1 < j {
        Climb(ring, next, size, base, lo, top, i + 1, j);
      }
    }
    forall i | j < i < |ring|
      ensures ring[j] + size[ring[j]] < ring[i]
    {
      assert ring[j] + size[ring[j]] < ring[j + 1];
      if j + 1 < i {
        Climb(ring, next, size, base, lo, top, j + 1, i);
      }
    }
  }

  /** Every free block ends inside the arena. */
  lemma FreeBlocksEnd(ring: seq<nat>, next: map<nat, nat>, size: map<nat, nat>, base: nat, lo: nat, top: nat)
    requires FreeList(ring, next, size, base, lo, top)
    ensures forall i {:trigger size[ring[i]]} | 0 < i < |ring| :: ring[i] + size[ring[i]] <= top
  {
    var l := |ring| - 1;
    if 0 < l {
      Gaps(ring, next, size, base, lo, top, l);
    }
  }

  /** Following `next` from the header d steps along leads d + 1 steps along. */
  lemma NextAt(ring: seq<nat>, next: map<nat, nat>, size: map<nat, nat>, base: nat, lo: nat, top: nat, f: nat, d: nat)
    requires FreeList(ring, next, size, base, lo, top) && f < |ring| && d < |ring|
    ensures At(ring, f, d) in next && next[At(ring, f, d)] == At(ring, f, d + 1)
  {
    var i := if f + d < |ring| then f + d else f + d - |ring|;
    if i + 1 < |ring| {
      assert next[ring[i]] == ring[i + 1];
    }
  }

  /** Walking the free list from the header at position f comes back to it only after a full round. */
  lemma Wrapped(ring: seq<nat>, next: map<nat, nat>, size: map<nat, nat>, base: nat, lo: nat, top: nat, f: nat, d: nat)
    requires FreeList(ring, next, size, base, lo, top) && f < |ring| && 0 < d <= |ring| && At(ring, f, d) == ring[f]
    ensures d == |ring|
  {
    Pivot(ring, next, size, base, lo, top, f);
  }

  /** A free header holding m >= n units, or linked to one that does, is a fit for n. */
  lemma Fits(ring: seq<nat>, next: map<nat, nat>, size: map<nat, nat>, base: nat, lo: nat, top: nat, p: nat, n: nat, m: nat)
    requires FreeList(ring, next, size, base, lo, top) && p in ring && p in size && n <= m
    requires m <= size[p] || (p in next && next[p] in size && m <= size[next[p]])
    ensures !NoFit(ring, size, n)
  {
    var i := IndexOf(ring, p);
    NextAt(ring, next, size, base, lo, top, i, 0);
    var k := if i + 1 < |ring| then i + 1 else 0;
    assert size[ring[i]] >= n || size[ring[k]] >= n;
  }

  /** When no header a full round from position f is large enough, no free block is. */
  lemma Exhausted(ring: seq<nat>, size: map<nat, nat>, f: nat, d: nat, n: nat)
    requires f < |ring| && d == |ring| && forall i | 0 <= i < |ring| :: ring[i] in size
    requires forall t | 1 <= t < d :: size[At(ring, f, t)] < n
    requires size[At(ring, f, d)] < n
    ensures NoFit(ring, size, n)
  {
    forall i | 0 <= i < |ring|
      ensures size[ring[i]] < n
    {
      var t := if f < i then i - f else i - f + |ring|;
      assert At(ring, f, t) == ring[i];
    }
  }

  /** The search passes over one more block that is too small. */
  lemma Passed(ring: seq<nat>, size: map<nat, nat>, f: nat, d: nat, n: nat)
    requires f < |ring| && d < |ring| && forall i | 0 <= i < |ring| :: ring[i] in size
    requires forall t | 1 <= t < d :: size[At(ring, f, t)] < n
    requires size[At(ring, f, d)] < n
    ensures forall t | 1 <= t < d + 1 :: size[At(ring, f, t)] < n
  {
  }


  /**
   * The test of `dealloc`'s search loop at the free header at position i,
   * with its successor along the circular list: it holds exactly at the
   * last free header below bp.
   */
  lemma Probe(ring: seq<nat>, next: map<nat, nat>, size: map<nat, nat>, base: nat, lo: nat, top: nat, bp: nat, i: nat)
    requires FreeList(ring, next, size, base, lo, top) && ring != [] && ring[0] < bp && i < |ring|
    requires forall j | 0 <= j < |ring| :: ring[j] != bp
    ensures ring[i] in next && next[ring[i]] in next && next[ring[i]] == (if i + 1 < |ring| then ring[i + 1] else ring[0])
    ensures var p := ring[i];
      (bp > p && bp < next[p]) || (p >= next[p] && (bp > p || bp < next[p])) <==> i == Slot(ring, bp)
  {
    var k := Slot(ring, bp);
    Pivot(ring, next, size, base, lo, top, i);
    Pivot(ring, next, size, base, lo, top, k);
  }

  /** A block handed out is not a free header. */
  lemma UsedNotFree(ring: seq<nat>, size: map<nat, nat>, used: set<nat>, base: nat, lo: nat, top: nat, u: nat)
    requires Owned(used, ring, size, lo, top) && u in used && (ring != [] ==> ring[0] == base) && base < lo
    ensures u !in ring && forall i | 0 <= i < |ring| :: ring[i] != u
  {
    forall i | 0 <= i < |ring|
      ensures ring[i] != u
    {
      if 0 < i {
        var su := size[u];
        assert Clear(u, su, ring, size);
        assert ring[i] in size && Apart(u, su, ring[i], size[ring[i]]);
      }
    }
  }

  /**
   * Where a block handed out lies: in the gap after the free header at
   * Slot(ring, bp), which it touches above or below exactly when the tests
   * `dealloc` makes on that header say so.
   */
  lemma Around(ring: seq<nat>, next: map<nat, nat>, size: map<nat, nat>, base: nat, lo: nat, top: nat, used: set<nat>, bp: nat)
    requires FreeList(ring, next, size, base, lo, top) && Owned(used, ring, size, lo, top)
    requires bp in used && ring != [] && base < lo
    ensures bp !in ring && ring[0] < bp
    ensures var k := Slot(ring, bp);
      && Between(ring, size, lo, top, bp, k) && base <= ring[k]
      && ring[k] in next && next[ring[k]] in next && next[ring[k]] in size
      && (k + 1 < |ring| ==> next[ring[k]] == ring[k + 1])
      && (TouchesAbove(ring, k, bp, size[bp]) <==> bp + size[bp] == next[ring[k]])
      && (TouchesBelow(ring, size, k, bp) <==> ring[k] + size[ring[k]] == bp)
  {
    UsedNotFree(ring, size, used, base, lo, top, bp);
    var k := Slot(ring, bp);
    if k + 1 < |ring| {
      assert next[ring[k]] == ring[k + 1];
      assert Apart(bp, size[bp], ring[k + 1], size[ring[k + 1]]);
    }
    if 0 < k {
      assert Apart(bp, size[bp], ring[k], size[ring[k]]);
    }
  }

  // ---------------------------------------------------------------------------
  // The free list under the edits the allocator makes to it. Each lemma is
  // handed the edited list and header fields, fixed by its requires.

  /** Linking x in after position k keeps every header's fields. */
  lemma HeadersLink(ring: seq<nat>, next: map<nat, nat>, size: map<nat, nat>, lo: nat, k: nat, x: nat, ring': seq<nat>, next': map<nat, nat>)
    requires Headers(ring, next, size, lo) && k < |ring| && x in size && lo <= x
    requires ring' == ring[..k + 1] + [x] + ring[k + 1..] && next' == next[x := next[ring[k]]][ring[k] := x]
    ensures Headers(ring', next', size, lo)
  {
    forall i | 0 <= i < |ring'|
      ensures ring'[i] == (if i <= k then ring[i] else if i == k + 1 then x else ring[i - 1])
    {
    }
  }

  /** Linking x, no free header, in after position k keeps the list's two ends. */
  lemma EndsLink(ring: seq<nat>, next: map<nat, nat>, size: map<nat, nat>, base: nat, lo: nat, top: nat, k: nat, x: nat,
                 ring': seq<nat>, next': map<nat, nat>)
    requires Ends(ring, next, size, base, lo, top) && k < |ring| && base < lo
    requires forall i | 0 <= i < |ring| :: ring[i] in next && ring[i] != x && (i != k ==> ring[i] != ring[k])
    requires x in size && (k + 1 == |ring| ==> x + size[x] <= top)
    requires ring' == ring[..k + 1] + [x] + ring[k + 1..] && next' == next[x := next[ring[k]]][ring[k] := x]
    ensures Ends(ring', next', size, base, lo, top)
  {
    assert ring'[0] == ring[0];
    if k + 1 < |ring| {
      assert ring'[|ring'| - 1] == ring[|ring| - 1];
    } else {
      assert ring'[|ring'| - 1] == x;
    }
  }

  /** Linking x, no free header, in after position k keeps every link. */
  lemma LinkedLink(ring: seq<nat>, next: map<nat, nat>, k: nat, x: nat, ring': seq<nat>, next': map<nat, nat>)
    requires Linked(ring, next) && k < |ring|
    requires forall i | 0 <= i < |ring| :: ring[i] in next && ring[i] != x && (i != k ==> ring[i] != ring[k])
    requires ring' == ring[..k + 1] + [x] + ring[k + 1..] && next' == next[x := next[ring[k]]][ring[k] := x]
    ensures Linked(ring', next')
  {
    forall i {:trigger next'[ring'[i]]} | 0 <= i < |ring'| - 1
      ensures ring'[i] in next' && next'[ring'[i]] == ring'[i + 1]
    {
      if i < k {
        assert ring'[i] == ring[i] && ring'[i + 1] == ring[i + 1] && next[ring[i]] == ring[i + 1];
      } else if i == k {
        assert ring'[i] == ring[k] && ring'[i + 1] == x;
      } else if i == k + 1 {
        assert ring'[i] == x && ring'[i + 1] == ring[k + 1] && next[ring[k]] == ring[k + 1];
      } else {
        assert ring'[i] == ring[i - 1] && ring'[i + 1] == ring[i] && next[ring[i - 1]] == ring[i];
      }
    }
  }

  /** The positions of the list with x inserted after position k. */
  lemma Inserted(ring: seq<nat>, k: nat, x: nat, ring': seq<nat>)
    requires k < |ring| && ring' == ring[..k + 1] + [x] + ring[k + 1..]
    ensures |ring'| == |ring| + 1 && ring'[k + 1] == x
    ensures forall i | 0 <= i <= k :: ring'[i] == ring[i]
    ensures forall i | k + 1 < i < |ring'| :: ring'[i] == ring[i - 1]
  {
  }

  /** Linking in x, whose block fits strictly between its neighbours', keeps every gap. */
  lemma SpacedLink(ring: seq<nat>, size: map<nat, nat>, k: nat, x: nat, ring': seq<nat>)
    requires Spaced(ring, size) && k < |ring| && x in size && 0 < size[x]
    requires 0 < k ==> ring[k] in size && ring[k] + size[ring[k]] < x
    requires k + 1 < |ring| ==> x + size[x] < ring[k + 1]
    requires ring' == ring[..k + 1] + [x] + ring[k + 1..]
    ensures Spaced(ring', size)
  {
    Inserted(ring, k, x, ring');
    forall i {:trigger size[ring'[i]]} | 0 < i < |ring'|
      ensures ring'[i] in size && 0 < size[ring'[i]] && (i < |ring'| - 1 ==> ring'[i] + size[ring'[i]] < ring'[i + 1])
    {
      if i < k {
        assert ring'[i] == ring[i] && ring'[i + 1] == ring[i + 1];
        assert 0 < size[ring[i]];
      } else if i == k {
        assert ring'[i] == ring[k] && ring'[i + 1] == x;
        assert 0 < size[ring[k]];
      } else if i == k + 1 {
        assert i < |ring'| - 1 ==> ring'[i + 1] == ring[k + 1];
      } else {
        assert ring'[i] == ring[i - 1] && (i < |ring'| - 1 ==> ring'[i + 1] == ring[i]);
        assert 0 < size[ring[i - 1]];
      }
    }
  }

  /** The header x, whose block fits strictly between the free blocks at k and k + 1, is linked in after k. */
  lemma LinkFree(ring: seq<nat>, next: map<nat, nat>, size: map<nat, nat>, base: nat, lo: nat, top: nat, k: nat, x: nat,
                 ring': seq<nat>, next': map<nat, nat>)
    requires FreeList(ring, next, size, base, lo, top) && k < |ring| && base < lo
    requires x in size && lo <= x && 0 < size[x] && forall i | 0 <= i < |ring| :: ring[i] != x
    requires 0 < k ==> ring[k] + size[ring[k]] < x
    requires k + 1 < |ring| ==> x + size[x] < ring[k + 1]
    requires k + 1 == |ring| ==> x + size[x] <= top
    requires ring' == ring[..k + 1] + [x] + ring[k + 1..] && next' == next[x := next[ring[k]]][ring[k] := x]
    ensures FreeList(ring', next', size, base, lo, top)
  {
    Pivot(ring, next, size, base, lo, top, k);
    HeadersLink(ring, next, size, lo, k, x, ring', next');
    EndsLink(ring, next, size, base, lo, top, k, x, ring', next');
    LinkedLink(ring, next, k, x, ring', next');
    SpacedLink(ring, size, k, x, ring');
  }

  /** Unlinking the header after position k keeps every other header's fields. */
  lemma HeadersUnlink(ring: seq<nat>, next: map<nat, nat>, size: map<nat, nat>, lo: nat, k: nat, ring': seq<nat>, next': map<nat, nat>)
    requires Headers(ring, next, size, lo) && k + 1 < |ring|
    requires ring' == ring[..k + 1] + ring[k + 2..] && next' == next[ring[k] := next[ring[k + 1]]]
    ensures Headers(ring', next', size, lo)
  {
    forall i | 0 <= i < |ring'|
      ensures ring'[i] == (if i <= k then ring[i] else ring[i + 1])
    {
    }
  }

  /** Unlinking the header after position k keeps the list's two ends. */
  lemma EndsUnlink(ring: seq<nat>, next: map<nat, nat>, size: map<nat, nat>, base: nat, lo: nat, top: nat, k: nat,
                   ring': seq<nat>, next': map<nat, nat>)
    requires Ends(ring, next, size, base, lo, top) && Spaced(ring, size) && k + 1 < |ring|
    requires forall i | 0 <= i < |ring| :: ring[i] in next && (i != k ==> ring[i] != ring[k])
    requires ring' == ring[..k + 1] + ring[k + 2..] && next' == next[ring[k] := next[ring[k + 1]]]
    ensures Ends(ring', next', size, base, lo, top)
  {
    assert ring'[0] == ring[0];
    if k + 2 < |ring| {
      assert ring'[|ring'| - 1] == ring[|ring| - 1];
    } else {
      assert ring'[|ring'| - 1] == ring[k];
      assert 0 < k ==> ring[k] + size[ring[k]] < ring[k + 1] && 0 < size[ring[k + 1]];
    }
  }

  /** Unlinking the header after position k links the header at k to its successor. */
  lemma LinkedUnlink(ring: seq<nat>, next: map<nat, nat>, k: nat, ring': seq<nat>, next': map<nat, nat>)
    requires Linked(ring, next) && k + 1 < |ring|
    requires forall i | 0 <= i < |ring| :: ring[i] in next && (i != k ==> ring[i] != ring[k])
    requires ring' == ring[..k + 1] + ring[k + 2..] && next' == next[ring[k] := next[ring[k + 1]]]
    ensures Linked(ring', next')
  {
    forall i {:trigger next'[ring'[i]]} | 0 <= i < |ring'| - 1
      ensures ring'[i] in next' && next'[ring'[i]] == ring'[i + 1]
    {
      if i < k {
        assert ring'[i] == ring[i] && ring'[i + 1] == ring[i + 1] && next[ring[i]] == ring[i + 1];
      } else if i == k {
        assert ring'[i] == ring[k] && ring'[i + 1] == ring[k + 2] && next[ring[k + 1]] == ring[k + 2];
      } else {
        assert ring'[i] == ring[i + 1] && ring'[i + 1] == ring[i + 2] && next[ring[i + 1]] == ring[i + 2];
      }
    }
  }

  /** Unlinking a free header only widens the gap after the one before it. */
  lemma SpacedUnlink(ring: seq<nat>, size: map<nat, nat>, k: nat, ring': seq<nat>)
    requires Spaced(ring, size) && k + 1 < |ring| && forall i | 0 <= i < |ring| :: ring[i] in size
    requires ring' == ring[..k + 1] + ring[k + 2..]
    ensures Spaced(ring', size)
  {
    forall i {:trigger size[ring'[i]]} | 0 < i < |ring'|
      ensures ring'[i] in size && 0 < size[ring'[i]] && (i < |ring'| - 1 ==> ring'[i] + size[ring'[i]] < ring'[i + 1])
    {
      if i < k {
        assert ring'[i] == ring[i] && ring'[i + 1] == ring[i + 1];
        assert 0 < size[ring[i]];
      } else if i == k {
        assert ring'[i] == ring[k] && (i < |ring'| - 1 ==> ring'[i + 1] == ring[k + 2]);
        assert 0 < size[ring[k]] && 0 < size[ring[k + 1]];
      } else {
        assert ring'[i] == ring[i + 1] && (i < |ring'| - 1 ==> ring'[i + 1] == ring[i + 2]);
        assert 0 < size[ring[i + 1]];
      }
    }
  }

  /** The free header after position k, not the sentinel, is unlinked. */
  lemma UnlinkFree(ring: seq<nat>, next: map<nat, nat>, size: map<nat, nat>, base: nat, lo: nat, top: nat, k: nat,
                   ring': seq<nat>, next': map<nat, nat>)
    requires FreeList(ring, next, size, base, lo, top) && k + 1 < |ring|
    requires ring' == ring[..k + 1] + ring[k + 2..] && next' == next[ring[k] := next[ring[k + 1]]]
    ensures FreeList(ring', next', size, base, lo, top)
  {
    Pivot(ring, next, size, base, lo, top, k);
    HeadersUnlink(ring, next, size, lo, k, ring', next');
    EndsUnlink(ring, next, size, base, lo, top, k, ring', next');
    LinkedUnlink(ring, next, k, ring', next');
    SpacedUnlink(ring, size, k, ring');
  }

  /** The free block at position j, not the sentinel, is given s units, still short of the next free block. */
  lemma ResizeFree(ring: seq<nat>, next: map<nat, nat>, size: map<nat, nat>, base: nat, lo: nat, top: nat, j: nat, x: nat, s: nat,
                   size': map<nat, nat>)
    requires FreeList(ring, next, size, base, lo, top) && 0 < j < |ring| && x == ring[j] && 0 < s && size' == size[x := s]
    requires j + 1 < |ring| ==> x + s < ring[j + 1]
    requires j + 1 == |ring| ==> x + s <= top
    ensures FreeList(ring, next, size', base, lo, top)
  {
    Pivot(ring, next, size, base, lo, top, j);
    forall i {:trigger size'[ring[i]]} | 0 < i < |ring|
      ensures ring[i] in size' && 0 < size'[ring[i]] && (i < |ring| - 1 ==> ring[i] + size'[ring[i]] < ring[i + 1])
    {
      if i != j {
        assert ring[i] != ring[j] && 0 < size[ring[i]];
        assert i + 1 == j ==> ring[i] + size[ring[i]] < ring[j];
      }
    }
    assert ring[0] != ring[j];
    assert j + 1 < |ring| ==> ring[|ring| - 1] != ring[j];
  }

  /** The free list depends only on the entries of its own headers, and the arena may grow. */
  lemma FrameFree(ring: seq<nat>, next: map<nat, nat>, size: map<nat, nat>, next': map<nat, nat>, size': map<nat, nat>, base: nat, lo: nat, top: nat, top': nat)
    requires FreeList(ring, next, size, base, lo, top) && top <= top'
    requires forall i | 0 <= i < |ring| :: ring[i] in next' && ring[i] in size'
    requires forall i {:trigger next'[ring[i]]} | 0 <= i < |ring| :: next'[ring[i]] == next[ring[i]]
    requires forall i {:trigger size'[ring[i]]} | 0 <= i < |ring| :: size'[ring[i]] == size[ring[i]]
    ensures FreeList(ring, next', size', base, lo, top')
  {
    forall i {:trigger next'[ring[i]]} | 0 <= i < |ring| - 1
      ensures ring[i] in next' && next'[ring[i]] == ring[i + 1]
    {
      assert next[ring[i]] == ring[i + 1];
    }
    forall i {:trigger size'[ring[i]]} | 0 < i < |ring|
      ensures ring[i] in size' && 0 < size'[ring[i]] && (i < |ring| - 1 ==> ring[i] + size'[ring[i]] < ring[i + 1])
    {
      assert 0 < size[ring[i]];
    }
  }

  /** Moving the header after position k down to x keeps every header's fields. */
  lemma HeadersMove(ring: seq<nat>, next: map<nat, nat>, size: map<nat, nat>, lo: nat, k: nat, x: nat, s: nat,
                    ring': seq<nat>, next': map<nat, nat>, size': map<nat, nat>)
    requires Headers(ring, next, size, lo) && k + 1 < |ring| && lo <= x
    requires ring' == ring[k + 1 := x] && next' == next[x := next[ring[k + 1]]][ring[k] := x] && size' == size[x := s]
    ensures Headers(ring', next', size', lo)
  {
  }

  /** Moving the header after position k down to x, its block still ending where it did, keeps the list's two ends. */
  lemma EndsMove(ring: seq<nat>, next: map<nat, nat>, size: map<nat, nat>, base: nat, lo: nat, top: nat, k: nat, x: nat, s: nat,
                 ring': seq<nat>, next': map<nat, nat>, size': map<nat, nat>)
    requires Ends(ring, next, size, base, lo, top) && k + 1 < |ring| && ring[k + 1] in next && ring[k + 1] in size
    requires x + s == ring[k + 1] + size[ring[k + 1]]
    requires forall i | 0 <= i < |ring| :: (i != k + 1 ==> ring[i] != x) && (i != k ==> ring[i] != ring[k])
    requires ring' == ring[k + 1 := x] && next' == next[x := next[ring[k + 1]]][ring[k] := x] && size' == size[x := s]
    ensures Ends(ring', next', size', base, lo, top)
  {
  }

  /** Moving the header after position k down to x, a value no other header has, keeps every link. */
  lemma LinkedMove(ring: seq<nat>, next: map<nat, nat>, k: nat, x: nat, ring': seq<nat>, next': map<nat, nat>)
    requires Linked(ring, next) && k + 1 < |ring|
    requires forall i | 0 <= i < |ring| :: ring[i] in next && (i != k + 1 ==> ring[i] != x) && (i != k ==> ring[i] != ring[k])
    requires ring' == ring[k + 1 := x] && next' == next[x := next[ring[k + 1]]][ring[k] := x]
    ensures Linked(ring', next')
  {
    forall i {:trigger next'[ring'[i]]} | 0 <= i < |ring'| - 1
      ensures ring'[i] in next' && next'[ring'[i]] == ring'[i + 1]
    {
      if i == k + 1 {
        assert next[ring[k + 1]] == ring[k + 2];
      } else if i != k {
        assert next[ring[i]] == ring[i + 1];
      }
    }
  }

  /** Moving the header after position k down to x, clear of the block at k, keeps every gap. */
  lemma SpacedMove(ring: seq<nat>, size: map<nat, nat>, k: nat, x: nat, s: nat, ring': seq<nat>, size': map<nat, nat>)
    requires Spaced(ring, size) && k + 1 < |ring| && x < ring[k + 1]
    requires forall i | 0 <= i < |ring| :: ring[i] in size && (i != k + 1 ==> ring[i] != x)
    requires x + s == ring[k + 1] + size[ring[k + 1]]
    requires 0 < k ==> ring[k] + size[ring[k]] < x
    requires ring' == ring[k + 1 := x] && size' == size[x := s]
    ensures Spaced(ring', size')
  {
    forall i {:trigger size'[ring'[i]]} | 0 < i < |ring'|
      ensures ring'[i] in size' && 0 < size'[ring'[i]] && (i < |ring'| - 1 ==> ring'[i] + size'[ring'[i]] < ring'[i + 1])
    {
      if i == k + 1 {
        assert i < |ring| - 1 ==> ring[k + 1] + size[ring[k + 1]] < ring[k + 2];
      } else if i == k {
        assert 0 < size[ring[k]];
      } else {
        assert 0 < size[ring[i]] && (i < |ring| - 1 ==> ring[i] + size[ring[i]] < ring[i + 1]);
      }
    }
  }

  /**
   * The header after position k moves down to x, clear of the block at k,
   * with a block of s units that ends where the moved one's ended.
   */
  lemma MoveFree(ring: seq<nat>, next: map<nat, nat>, size: map<nat, nat>, base: nat, lo: nat, top: nat, k: nat, x: nat, s: nat,
                 ring': seq<nat>, next': map<nat, nat>, size': map<nat, nat>)
    requires FreeList(ring, next, size, base, lo, top) && k + 1 < |ring| && lo <= x < ring[k + 1] && base < lo
    requires x + s == ring[k + 1] + size[ring[k + 1]]
    requires 0 < k ==> ring[k] + size[ring[k]] < x
    requires ring' == ring[k + 1 := x] && next' == next[x := next[ring[k + 1]]][ring[k] := x] && size' == size[x := s]
    ensures FreeList(ring', next', size', base, lo, top)
  {
    Pivot(ring, next, size, base, lo, top, k);
    Pivot(ring, next, size, base, lo, top, k + 1);
    assert ring[k] < x;
    HeadersMove(ring, next, size, lo, k, x, s, ring', next', size');
    EndsMove(ring, next, size, base, lo, top, k, x, s, ring', next', size');
    LinkedMove(ring, next, k, x, ring', next');
    SpacedMove(ring, size, k, x, s, ring', size');
  }

  /** The free header after position k is unlinked, after the block at bp, below it, takes over its fields. */
  lemma MergeUnlink(ring: seq<nat>, next: map<nat, nat>, size: map<nat, nat>, base: nat, lo: nat, top: nat, k: nat, bp: nat,
                    ring': seq<nat>, next': map<nat, nat>, size': map<nat, nat>)
    requires FreeList(ring, next, size, base, lo, top) && k + 1 < |ring| && bp in size
    requires forall i | 0 <= i < |ring| :: ring[i] != bp
    requires ring' == ring[..k + 1] + ring[k + 2..]
    requires next' == next[bp := next[ring[k + 1]]][ring[k] := next[ring[k + 1]]]
    requires size' == size[bp := size[bp] + size[ring[k + 1]]]
    ensures FreeList(ring', next', size', base, lo, top)
  {
    var q := ring[k + 1];
    var next1 := next[bp := next[q]];
    FrameFree(ring, next, size, next1, size', base, lo, top, top);
    UnlinkFree(ring, next1, size', base, lo, top, k, ring', next');
  }

  /**
   * The free blocks at positions k and k + 1 and the block at bp between
   * them, touching both, become one free block at position k.
   */
  lemma MergeFree(ring: seq<nat>, next: map<nat, nat>, size: map<nat, nat>, base: nat, lo: nat, top: nat, k: nat, bp: nat,
                  ring': seq<nat>, next': map<nat, nat>, size': map<nat, nat>)
    requires FreeList(ring, next, size, base, lo, top) && 0 < k && k + 1 < |ring| && bp in size
    requires forall i | 0 <= i < |ring| :: ring[i] != bp
    requires ring[k] + size[ring[k]] == bp && bp + size[bp] == ring[k + 1]
    requires ring' == ring[..k + 1] + ring[k + 2..]
    requires next' == next[bp := next[ring[k + 1]]][ring[k] := next[ring[k + 1]]]
    requires size' == size[bp := size[bp] + size[ring[k + 1]]][ring[k] := size[ring[k]] + (size[bp] + size[ring[k + 1]])]
    ensures FreeList(ring', next', size', base, lo, top)
  {
    var q := ring[k + 1];
    var size1 := size[bp := size[bp] + size[q]];
    Pivot(ring, next, size, base, lo, top, k + 1);
    MergeUnlink(ring, next, size, base, lo, top, k, bp, ring', next', size1);
    MergeGrow(ring, size, base, lo, top, k, bp, ring', next', size1, size');
  }

  /** The second half of MergeFree: the header at position k grows over the unlinked block. */
  lemma MergeGrow(ring: seq<nat>, size: map<nat, nat>, base: nat, lo: nat, top: nat, k: nat, bp: nat,
                  ring': seq<nat>, next': map<nat, nat>, size1: map<nat, nat>, size': map<nat, nat>)
    requires FreeList(ring', next', size1, base, lo, top) && 0 < k && k + 1 < |ring| && ring' == ring[..k + 1] + ring[k + 2..]
    requires ring[k] in size && ring[k + 1] in size && bp in size && 0 < size[ring[k + 1]]
    requires ring[k] + size[ring[k]] == bp && bp + size[bp] == ring[k + 1]
    requires k + 2 < |ring| ==> ring[k + 1] + size[ring[k + 1]] < ring[k + 2]
    requires k + 2 == |ring| ==> ring[k + 1] + size[ring[k + 1]] <= top
    requires size' == size1[ring[k] := size[ring[k]] + (size[bp] + size[ring[k + 1]])]
    ensures FreeList(ring', next', size', base, lo, top)
  {
    var p, q := ring[k], ring[k + 1];
    assert ring'[k] == p;
    assert k + 2 < |ring| ==> ring'[k + 1] == ring[k + 2];
    ResizeFree(ring', next', size1, base, lo, top, k, p, size[p] + (size[bp] + size[q]), size');
  }

  // ---------------------------------------------------------------------------
  // The blocks handed out under the same edits.

  /** A block stays clear of the free list when a header it is clear of is linked in after position k. */
  lemma ClearLink(u: nat, su: nat, ring: seq<nat>, size: map<nat, nat>, k: nat, x: nat, ring': seq<nat>)
    requires Clear(u, su, ring, size) && k < |ring| && x in size && Apart(u, su, x, size[x])
    requires ring' == ring[..k + 1] + [x] + ring[k + 1..]
    ensures Clear(u, su, ring', size)
  {
    forall i | 1 <= i < |ring'|
      ensures ring'[i] in size && Apart(u, su, ring'[i], size[ring'[i]])
    {
      if i <= k {
        assert ring'[i] == ring[i] && ring[i] in size && Apart(u, su, ring[i], size[ring[i]]);
      } else if k + 1 < i {
        assert ring'[i] == ring[i - 1] && ring[i - 1] in size && Apart(u, su, ring[i - 1], size[ring[i - 1]]);
      } else {
        assert ring'[i] == x;
      }
    }
  }

  /** A block stays clear of the free list when the header after position k is unlinked. */
  lemma ClearUnlink(u: nat, su: nat, ring: seq<nat>, size: map<nat, nat>, k: nat, ring': seq<nat>)
    requires Clear(u, su, ring, size) && k + 1 < |ring| && ring' == ring[..k + 1] + ring[k + 2..]
    ensures Clear(u, su, ring', size)
  {
    forall i | 1 <= i < |ring'|
      ensures ring'[i] in size && Apart(u, su, ring'[i], size[ring'[i]])
    {
      if i <= k {
        assert ring'[i] == ring[i] && ring[i] in size && Apart(u, su, ring[i], size[ring[i]]);
      } else {
        assert ring'[i] == ring[i + 1] && ring[i + 1] in size && Apart(u, su, ring[i + 1], size[ring[i + 1]]);
      }
    }
  }

  /** A block clear of the free list stays so when only entries of other headers change. */
  lemma ClearFrame(u: nat, su: nat, ring: seq<nat>, size: map<nat, nat>, size': map<nat, nat>)
    requires Clear(u, su, ring, size)
    requires forall i | 1 <= i < |ring| :: ring[i] in size && ring[i] in size'
    requires forall i {:trigger size'[ring[i]]} | 1 <= i < |ring| :: size'[ring[i]] == size[ring[i]]
    ensures Clear(u, su, ring, size')
  {
  }

  /** A block stays clear of the free list when a free block it is clear of at its new size is resized. */
  lemma ClearResize(u: nat, su: nat, ring: seq<nat>, size: map<nat, nat>, j: nat, s: nat, size': map<nat, nat>)
    requires Clear(u, su, ring, size) && 0 < j < |ring| && Apart(u, su, ring[j], s) && size' == size[ring[j] := s]
    requires forall i | 0 <= i < |ring| :: ring[i] in size && (i != j ==> ring[i] != ring[j])
    ensures Clear(u, su, ring, size')
  {
    forall i {:trigger size'[ring[i]]} | 1 <= i < |ring|
      ensures ring[i] in size' && Apart(u, su, ring[i], size'[ring[i]])
    {
      if i != j {
        assert Apart(u, su, ring[i], size[ring[i]]);
      }
    }
  }

  /** A block stays clear of the free list when the header after position k moves down to x, its block ending where it did. */
  lemma ClearMove(u: nat, su: nat, ring: seq<nat>, size: map<nat, nat>, k: nat, x: nat, s: nat, ring': seq<nat>, size': map<nat, nat>)
    requires Clear(u, su, ring, size) && k + 1 < |ring|
    requires forall i | 0 <= i < |ring| :: ring[i] in size && (i != k + 1 ==> ring[i] != x)
    requires x <= ring[k + 1] && x + s == ring[k + 1] + size[ring[k + 1]] && 0 < su && Apart(u, su, x, ring[k + 1] - x)
    requires ring' == ring[k + 1 := x] && size' == size[x := s]
    ensures Clear(u, su, ring', size')
  {
    forall i {:trigger size'[ring'[i]]} | 1 <= i < |ring'|
      ensures ring'[i] in size' && Apart(u, su, ring'[i], size'[ring'[i]])
    {
      if i == k + 1 {
        assert Apart(u, su, ring[k + 1], size[ring[k + 1]]);
      } else {
        assert Apart(u, su, ring[i], size[ring[i]]);
      }
    }
  }

  /** The blocks handed out stay owned when each keeps its size and stays clear of the free list. */
  lemma OwnedAfter(used: set<nat>, ring: seq<nat>, size: map<nat, nat>, lo: nat, top: nat, used': set<nat>, ring': seq<nat>, size': map<nat, nat>, top': nat)
    requires Owned(used, ring, size, lo, top) && used' <= used && top <= top'
    requires forall u | u in used' :: u in size' && size'[u] == size[u] && Clear(u, size[u], ring', size')
    ensures Owned(used', ring', size', lo, top')
  {
  }

  /** One more block handed out, inside the arena and clear of the other blocks and of the free list. */
  lemma OwnedAdd(used: set<nat>, ring: seq<nat>, size: map<nat, nat>, lo: nat, top: nat, x: nat, used': set<nat>)
    requires Owned(used, ring, size, lo, top) && used' == used + {x}
    requires x in size && lo <= x && 0 < size[x] && x + size[x] <= top
    requires (forall v | v in used :: Apart(x, size[x], v, size[v])) && Clear(x, size[x], ring, size)
    ensures x !in used && Owned(used', ring, size, lo, top)
  {
  }

  /** Ownership after the block at bp is linked in, unmerged, after position k. */
  lemma OwnedApart(used: set<nat>, ring: seq<nat>, size: map<nat, nat>, lo: nat, top: nat, bp: nat, k: nat, ring': seq<nat>)
    requires Owned(used, ring, size, lo, top) && bp in used && k < |ring|
    requires ring' == ring[..k + 1] + [bp] + ring[k + 1..]
    ensures Owned(used - {bp}, ring', size, lo, top)
  {
    forall u | u in used - {bp}
      ensures u in size && size[u] == size[u] && Clear(u, size[u], ring', size)
    {
      ClearLink(u, size[u], ring, size, k, bp, ring');
    }
    OwnedAfter(used, ring, size, lo, top, used - {bp}, ring', size, top);
  }

  /** Ownership after the block at bp absorbs the free block after position k, which it touches. */
  lemma OwnedAbove(used: set<nat>, ring: seq<nat>, size: map<nat, nat>, lo: nat, top: nat, bp: nat, k: nat, ring': seq<nat>, size': map<nat, nat>)
    requires Owned(used, ring, size, lo, top) && forall i | 0 <= i < |ring| :: ring[i] in size && ring[i] != bp
    requires bp in used && k + 1 < |ring| && bp + size[bp] == ring[k + 1]
    requires ring' == ring[k + 1 := bp] && size' == size[bp := size[bp] + size[ring[k + 1]]]
    ensures Owned(used - {bp}, ring', size', lo, top)
    ensures forall u | u in used - {bp} :: u in size' && size'[u] == size[u]
  {
    forall u | u in used - {bp}
      ensures u in size' && size'[u] == size[u] && Clear(u, size[u], ring', size')
    {
      assert Apart(u, size[u], bp, size[bp]);
      ClearMove(u, size[u], ring, size, k, bp, size[bp] + size[ring[k + 1]], ring', size');
    }
    OwnedAfter(used, ring, size, lo, top, used - {bp}, ring', size', top);
  }

  /** Ownership after the free block at position k absorbs the block at bp, which it touches. */
  lemma OwnedBelow(used: set<nat>, ring: seq<nat>, size: map<nat, nat>, lo: nat, top: nat, bp: nat, k: nat, size': map<nat, nat>)
    requires Owned(used, ring, size, lo, top) && 0 < k < |ring|
    requires forall i | 0 <= i < |ring| :: ring[i] in size && (i != k ==> ring[i] != ring[k])
    requires bp in used && ring[k] + size[ring[k]] == bp && size' == size[ring[k] := size[ring[k]] + size[bp]]
    ensures Owned(used - {bp}, ring, size', lo, top)
    ensures forall u | u in used - {bp} :: u in size' && size'[u] == size[u]
  {
    forall u | u in used - {bp}
      ensures u in size' && size'[u] == size[u] && Clear(u, size[u], ring, size')
    {
      assert Apart(u, size[u], bp, size[bp]) && Apart(u, size[u], ring[k], size[ring[k]]);
      ClearResize(u, size[u], ring, size, k, size[ring[k]] + size[bp], size');
    }
    OwnedAfter(used, ring, size, lo, top, used - {bp}, ring, size', top);
  }

  /** Ownership after the free blocks at positions k and k + 1 and the block at bp between them become one. */
  lemma OwnedBoth(used: set<nat>, ring: seq<nat>, size: map<nat, nat>, lo: nat, top: nat, bp: nat, k: nat, ring': seq<nat>, size': map<nat, nat>)
    requires Owned(used, ring, size, lo, top) && 0 < k && k + 1 < |ring|
    requires forall i | 0 <= i < |ring| :: ring[i] in size && ring[i] != bp && (i != k ==> ring[i] != ring[k])
    requires bp in used && ring[k] + size[ring[k]] == bp && bp + size[bp] == ring[k + 1]
    requires ring' == ring[..k + 1] + ring[k + 2..]
    requires size' == size[bp := size[bp] + size[ring[k + 1]]][ring[k] := size[ring[k]] + (size[bp] + size[ring[k + 1]])]
    ensures Owned(used - {bp}, ring', size', lo, top)
    ensures forall u | u in used - {bp} :: u in size' && size'[u] == size[u]
  {
    var p, q := ring[k], ring[k + 1];
    var size1 := size[bp := size[bp] + size[q]];
    forall u | u in used - {bp}
      ensures u in size' && size'[u] == size[u] && Clear(u, size[u], ring', size')
    {
      assert Apart(u, size[u], bp, size[bp]) && Apart(u, size[u], p, size[p]) && Apart(u, size[u], q, size[q]);
      ClearFrame(u, size[u], ring, size, size1);
      ClearResize(u, size[u], ring, size1, k, size[p] + (size[bp] + size[q]), size');
      ClearUnlink(u, size[u], ring, size', k, ring');
    }
    OwnedAfter(used, ring, size, lo, top, used - {bp}, ring', size', top);
  }

  // ---------------------------------------------------------------------------
  // `dealloc`: the block returns to the free list.

  /** The free list after the block at bp, in the gap after position k, is returned to it. */
  lemma RelinkFree(ring: seq<nat>, next: map<nat, nat>, size: map<nat, nat>, base: nat, lo: nat, top: nat, bp: nat, k: nat,
                   ring': seq<nat>, next': map<nat, nat>, size': map<nat, nat>)
    requires FreeList(ring, next, size, base, lo, top) && base < lo && k < |ring| && Between(ring, size, lo, top, bp, k)
    requires ring' == JoinRing(ring, size, k, bp, size[bp]) && Merged(ring, next, size, k, bp, next', size')
    ensures FreeList(ring', next', size', base, lo, top)
  {
    if TouchesAbove(ring, k, bp, size[bp]) {
      if TouchesBelow(ring, size, k, bp) {
        RelinkBoth(ring, next, size, base, lo, top, bp, k, ring', next', size');
      } else {
        RelinkAbove(ring, next, size, base, lo, top, bp, k, ring', next', size');
      }
    } else if TouchesBelow(ring, size, k, bp) {
      RelinkBelow(ring, next, size, base, lo, top, bp, k, ring', next', size');
    } else {
      RelinkApart(ring, next, size, base, lo, top, bp, k, ring', next', size');
    }
  }

  /** RelinkFree when the block touches the free blocks on both sides. */
  lemma RelinkBoth(ring: seq<nat>, next: map<nat, nat>, size: map<nat, nat>, base: nat, lo: nat, top: nat, bp: nat, k: nat,
                   ring': seq<nat>, next': map<nat, nat>, size': map<nat, nat>)
    requires FreeList(ring, next, size, base, lo, top) && base < lo && k < |ring| && Between(ring, size, lo, top, bp, k)
    requires ring' == JoinRing(ring, size, k, bp, size[bp]) && Merged(ring, next, size, k, bp, next', size')
    requires TouchesAbove(ring, k, bp, size[bp]) && TouchesBelow(ring, size, k, bp)
    ensures FreeList(ring', next', size', base, lo, top)
  {
    MergeFree(ring, next, size, base, lo, top, k, bp, ring', next', size');
  }

  /** RelinkFree when the block touches only the free block above it. */
  lemma RelinkAbove(ring: seq<nat>, next: map<nat, nat>, size: map<nat, nat>, base: nat, lo: nat, top: nat, bp: nat, k: nat,
                   ring': seq<nat>, next': map<nat, nat>, size': map<nat, nat>)
    requires FreeList(ring, next, size, base, lo, top) && base < lo && k < |ring| && Between(ring, size, lo, top, bp, k)
    requires ring' == JoinRing(ring, size, k, bp, size[bp]) && Merged(ring, next, size, k, bp, next', size')
    requires TouchesAbove(ring, k, bp, size[bp]) && !TouchesBelow(ring, size, k, bp)
    ensures FreeList(ring', next', size', base, lo, top)
  {
    MoveFree(ring, next, size, base, lo, top, k, bp, size[bp] + size[ring[k + 1]], ring', next', size');
  }

  /** RelinkFree when the block touches only the free block below it. */
  lemma RelinkBelow(ring: seq<nat>, next: map<nat, nat>, size: map<nat, nat>, base: nat, lo: nat, top: nat, bp: nat, k: nat,
                   ring': seq<nat>, next': map<nat, nat>, size': map<nat, nat>)
    requires FreeList(ring, next, size, base, lo, top) && base < lo && k < |ring| && Between(ring, size, lo, top, bp, k)
    requires ring' == JoinRing(ring, size, k, bp, size[bp]) && Merged(ring, next, size, k, bp, next', size')
    requires !TouchesAbove(ring, k, bp, size[bp]) && TouchesBelow(ring, size, k, bp)
    ensures FreeList(ring', next', size', base, lo, top)
  {
    BelowFree(ring, next, size, base, lo, top, k, bp, next', size');
  }

  /** The free block at position k grows over the block at bp, which ends before the next free block. */
  lemma BelowFree(ring: seq<nat>, next: map<nat, nat>, size: map<nat, nat>, base: nat, lo: nat, top: nat, k: nat, bp: nat,
                  next': map<nat, nat>, size': map<nat, nat>)
    requires FreeList(ring, next, size, base, lo, top) && 0 < k < |ring| && bp in size && 0 < size[bp]
    requires forall i | 0 <= i < |ring| :: ring[i] != bp
    requires ring[k] + size[ring[k]] == bp
    requires k + 1 < |ring| ==> bp + size[bp] < ring[k + 1]
    requires k + 1 == |ring| ==> bp + size[bp] <= top
    requires next' == next[bp := next[ring[k]]][ring[k] := next[ring[k]]] && size' == size[ring[k] := size[ring[k]] + size[bp]]
    ensures FreeList(ring, next', size', base, lo, top)
  {
    var p := ring[k];
    ResizeFree(ring, next, size, base, lo, top, k, p, size[p] + size[bp], size');
    Untouched(ring, next, bp, next[p], p, next');
    FrameFree(ring, next, size', next', size', base, lo, top, top);
  }

  /** RelinkFree when the block touches neither free block. */
  lemma RelinkApart(ring: seq<nat>, next: map<nat, nat>, size: map<nat, nat>, base: nat, lo: nat, top: nat, bp: nat, k: nat,
                   ring': seq<nat>, next': map<nat, nat>, size': map<nat, nat>)
    requires FreeList(ring, next, size, base, lo, top) && base < lo && k < |ring| && Between(ring, size, lo, top, bp, k)
    requires ring' == JoinRing(ring, size, k, bp, size[bp]) && Merged(ring, next, size, k, bp, next', size')
    requires !TouchesAbove(ring, k, bp, size[bp]) && !TouchesBelow(ring, size, k, bp)
    ensures FreeList(ring', next', size', base, lo, top)
  {
    LinkFree(ring, next, size, base, lo, top, k, bp, ring', next');
  }

  /** Writing a header outside the ring, and a ring header's own value back, changes no ring header's field. */
  lemma Untouched(ring: seq<nat>, m: map<nat, nat>, x: nat, v: nat, p: nat, m': map<nat, nat>)
    requires forall i | 0 <= i < |ring| :: ring[i] != x && ring[i] in m
    requires p in m && m' == m[x := v][p := m[p]]
    ensures forall i | 0 <= i < |ring| :: ring[i] in m'
    ensures forall i {:trigger m'[ring[i]]} | 0 <= i < |ring| :: m'[ring[i]] == m[ring[i]]
  {
  }

  /** The blocks still handed out after the block at bp, in the gap after position k, is returned. */
  lemma RelinkOwned(used: set<nat>, ring: seq<nat>, next: map<nat, nat>, size: map<nat, nat>, lo: nat, top: nat, bp: nat, k: nat,
                    ring': seq<nat>, next': map<nat, nat>, size': map<nat, nat>)
    requires Owned(used, ring, size, lo, top) && bp in used && k < |ring|
    requires forall i | 0 <= i < |ring| :: ring[i] in next && ring[i] in size && ring[i] != bp && (i != k ==> ring[i] != ring[k])
    requires ring' == JoinRing(ring, size, k, bp, size[bp]) && Merged(ring, next, size, k, bp, next', size')
    ensures Owned(used - {bp}, ring', size', lo, top)
    ensures forall u | u in used - {bp} :: u in size' && size'[u] == size[u]
  {
    if TouchesAbove(ring, k, bp, size[bp]) {
      if TouchesBelow(ring, size, k, bp) {
        OwnedBoth(used, ring, size, lo, top, bp, k, ring', size');
      } else {
        OwnedAbove(used, ring, size, lo, top, bp, k, ring', size');
      }
    } else if TouchesBelow(ring, size, k, bp) {
      OwnedBelow(used, ring, size, lo, top, bp, k, size');
    } else {
      OwnedApart(used, ring, size, lo, top, bp, k, ring');
    }
  }

  /**
   * The merged block's size is the sum of the sizes merged, every other free
   * block keeps its size, and the free header at position k, which the
   * search restarts from, holds the returned block or links to it.
   */
  lemma JoinedCases(ring: seq<nat>, next: map<nat, nat>, size: map<nat, nat>, k: nat, bp: nat,
                    ring': seq<nat>, next': map<nat, nat>, size': map<nat, nat>)
    requires k < |ring| && bp in size
    requires forall i | 0 <= i < |ring| :: ring[i] in next && ring[i] in size && ring[i] != bp && (i != k ==> ring[i] != ring[k])
    requires ring' == JoinRing(ring, size, k, bp, size[bp]) && Merged(ring, next, size, k, bp, next', size')
    ensures Joined(ring, size, k, bp, size[bp], ring', size')
    ensures ring[k] in ring' && ring[k] in size' && ring[k] in next'
    ensures size[bp] <= size'[ring[k]] || (next'[ring[k]] == bp && bp in size' && size[bp] <= size'[bp])
  {
    var above := TouchesAbove(ring, k, bp, size[bp]);
    var below := TouchesBelow(ring, size, k, bp);
    if above && below {
      assert ring'[k] == ring[k];
      assert forall m | m in ring' :: m in ring;
    } else if above {
      assert ring'[k] == ring[k];
    } else if !below {
      assert ring'[k] == ring[k];
      assert forall m | m in ring' :: m in ring || m == bp;
    }
  }

  /**
   * `dealloc`'s merge of the block at bp into the free list, after the free
   * header at Slot(ring, bp): the free list stays well formed, every other
   * block handed out stays owned at its size, and the sizes are those Joined
   * describes.
   */
  lemma Rejoin(ring: seq<nat>, next: map<nat, nat>, size: map<nat, nat>, base: nat, lo: nat, top: nat, used: set<nat>, bp: nat, k: nat,
               ring': seq<nat>, next': map<nat, nat>, size': map<nat, nat>)
    requires FreeList(ring, next, size, base, lo, top) && Owned(used, ring, size, lo, top)
    requires bp in used && ring != [] && base < lo && k == Slot(ring, bp)
    requires ring' == JoinRing(ring, size, k, bp, size[bp]) && Merged(ring, next, size, k, bp, next', size')
    ensures FreeList(ring', next', size', base, lo, top) && Owned(used - {bp}, ring', size', lo, top)
    ensures forall u | u in used - {bp} :: u in size' && size'[u] == size[u]
    ensures Joined(ring, size, k, bp, size[bp], ring', size')
    ensures ring[k] in ring' && ring[k] in size' && ring[k] in next'
    ensures size[bp] <= size'[ring[k]] || (next'[ring[k]] == bp && bp in size' && size[bp] <= size'[bp])
  {
    Around(ring, next, size, base, lo, top, used, bp);
    Pivot(ring, next, size, base, lo, top, k);
    RelinkFree(ring, next, size, base, lo, top, bp, k, ring', next', size');
    RelinkOwned(used, ring, next, size, lo, top, bp, k, ring', next', size');
    JoinedCases(ring, next, size, k, bp, ring', next', size');
  }

  // ---------------------------------------------------------------------------
  // `alloc`: a block is handed out.

  /** A fresh block of n units at the old end of the arena is handed out. */
  lemma Claim(ring: seq<nat>, next: map<nat, nat>, size: map<nat, nat>, base: nat, lo: nat, top: nat, used: set<nat>, n: nat,
              size': map<nat, nat>, used': set<nat>, top': nat)
    requires FreeList(ring, next, size, base, lo, top) && Owned(used, ring, size, lo, top)
    requires base < lo <= top && 0 < n && size' == size[top := n] && used' == used + {top} && top' == top + n
    ensures top !in used && top !in ring
    ensures forall u | u in used :: u in size' && size'[u] == size[u]
    ensures FreeList(ring, next, size', base, lo, top') && Owned(used', ring, size', lo, top')
  {
    FreeBlocksEnd(ring, next, size, base, lo, top);
    assert forall i | 0 <= i < |ring| :: ring[i] < top;
    FrameFree(ring, next, size, next, size', base, lo, top, top');
    forall u | u in used
      ensures u in size' && size'[u] == size[u] && Clear(u, size[u], ring, size')
    {
      ClearFrame(u, size[u], ring, size, size');
    }
    OwnedAfter(used, ring, size, lo, top, used, ring, size', top');
    OwnedAdd(used, ring, size', lo, top', top, used');
  }

  /** The arena grows: the free list and the blocks handed out stay as they are. */
  lemma Grow(ring: seq<nat>, next: map<nat, nat>, size: map<nat, nat>, base: nat, lo: nat, top: nat, used: set<nat>, top': nat)
    requires FreeList(ring, next, size, base, lo, top) && Owned(used, ring, size, lo, top) && top <= top'
    ensures FreeList(ring, next, size, base, lo, top') && Owned(used, ring, size, lo, top')
  {
    FrameFree(ring, next, size, next, size, base, lo, top, top');
    OwnedAfter(used, ring, size, lo, top, used, ring, size, top');
  }

  /** The free block at position j, handed out whole, clears every free block and every block handed out. */
  lemma UnlinkOwned(used: set<nat>, ring: seq<nat>, size: map<nat, nat>, lo: nat, top: nat, j: nat, ring': seq<nat>, used': set<nat>)
    requires Owned(used, ring, size, lo, top) && 0 < j < |ring| && forall i | 0 <= i < |ring| :: ring[i] in size
    requires forall i {:trigger size[ring[i]]} | 0 < i < j :: ring[i] + size[ring[i]] < ring[j]
    requires forall i | j < i < |ring| :: ring[j] + size[ring[j]] < ring[i]
    requires lo <= ring[j] && 0 < size[ring[j]] && ring[j] + size[ring[j]] <= top
    requires ring' == ring[..j] + ring[j + 1..] && used' == used + {ring[j]}
    ensures ring[j] !in used && Owned(used', ring', size, lo, top)
  {
    var x := ring[j];
    forall u | u in used
      ensures u in size && size[u] == size[u] && Clear(u, size[u], ring', size)
    {
      ClearUnlink(u, size[u], ring, size, j - 1, ring');
    }
    OwnedAfter(used, ring, size, lo, top, used, ring', size, top);
    forall i {:trigger size[ring'[i]]} | 1 <= i < |ring'|
      ensures ring'[i] in size && Apart(x, size[x], ring'[i], size[ring'[i]])
    {
      if i < j {
        assert ring'[i] == ring[i] && ring[i] + size[ring[i]] < x;
      } else {
        assert ring'[i] == ring[i + 1] && x + size[x] < ring[i + 1];
      }
    }
    forall v | v in used
      ensures Apart(x, size[x], v, size[v])
    {
      assert Apart(v, size[v], ring[j], size[ring[j]]);
    }
    OwnedAdd(used, ring', size, lo, top, x, used');
  }

  /** A larger free block at position j keeps its head, shrinks by n and the rest of the list is unchanged. */
  lemma SplitFree(ring: seq<nat>, next: map<nat, nat>, size: map<nat, nat>, base: nat, lo: nat, top: nat, j: nat, n: nat, size': map<nat, nat>)
    requires FreeList(ring, next, size, base, lo, top) && 0 < j < |ring| && 0 < n < size[ring[j]]
    requires size' == size[ring[j] := size[ring[j]] - n][ring[j] + (size[ring[j]] - n) := n]
    ensures forall i | 0 <= i < |ring| :: ring[i] != ring[j] + (size[ring[j]] - n)
    ensures FreeList(ring, next, size', base, lo, top)
  {
    var p := ring[j];
    var size1: map<nat, nat> := size[p := size[p] - n];
    var q := p + (size[p] - n);
    ResizeFree(ring, next, size, base, lo, top, j, p, size[p] - n, size1);
    Gaps(ring, next, size, base, lo, top, j);
    forall i | 0 <= i < |ring|
      ensures ring[i] != q
    {
      if 0 < i < j {
        assert ring[i] + size[ring[i]] < p;
      }
    }
    FrameFree(ring, next, size1, next, size', base, lo, top, top);
  }

  /** The last n units of the free block at position j, handed out, clear every free block and every block handed out. */
  lemma SplitOwned(used: set<nat>, ring: seq<nat>, size: map<nat, nat>, lo: nat, top: nat, j: nat, n: nat, size': map<nat, nat>, used': set<nat>)
    requires Owned(used, ring, size, lo, top) && 0 < j < |ring|
    requires forall i | 0 <= i < |ring| :: ring[i] in size && (i != j ==> ring[i] != ring[j])
    requires forall i {:trigger size[ring[i]]} | 0 < i < j :: ring[i] + size[ring[i]] < ring[j]
    requires forall i | j < i < |ring| :: ring[j] + size[ring[j]] < ring[i]
    requires lo <= ring[j] && 0 < n < size[ring[j]] && ring[j] + size[ring[j]] <= top
    requires forall i | 0 <= i < |ring| :: ring[i] != ring[j] + (size[ring[j]] - n)
    requires size' == size[ring[j] := size[ring[j]] - n][ring[j] + (size[ring[j]] - n) := n]
    requires used' == used + {ring[j] + (size[ring[j]] - n)}
    ensures ring[j] + (size[ring[j]] - n) !in used
    ensures Owned(used', ring, size', lo, top) && forall u | u in used :: u in size' && size'[u] == size[u]
  {
    var p := ring[j];
    var size1: map<nat, nat> := size[p := size[p] - n];
    var q := p + (size[p] - n);
    forall u | u in used
      ensures u in size' && size'[u] == size[u] && Clear(u, size[u], ring, size')
    {
      assert Apart(u, size[u], p, size[p]);
      ClearResize(u, size[u], ring, size, j, size[p] - n, size1);
      ClearFrame(u, size[u], ring, size1, size');
    }
    OwnedAfter(used, ring, size, lo, top, used, ring, size', top);
    forall i {:trigger size'[ring[i]]} | 1 <= i < |ring|
      ensures ring[i] in size' && Apart(q, n, ring[i], size'[ring[i]])
    {
      if i < j {
        assert ring[i] + size[ring[i]] < p;
      }
    }
    forall v | v in used
      ensures Apart(q, n, v, size'[v])
    {
      assert Apart(v, size[v], p, size[p]);
    }
    OwnedAdd(used, ring, size', lo, top, q, used');
  }

  /**
   * `alloc`'s taking of n units from the free block at position j, as Taken
   * describes: the block handed out, at b, was not handed out before and has
   * n units; the free list stays well formed and every block handed out
   * before stays owned at its size.
   */
  lemma Carve(ring: seq<nat>, next: map<nat, nat>, size: map<nat, nat>, base: nat, lo: nat, top: nat, used: set<nat>, j: nat, n: nat, b: nat,
              ring': seq<nat>, next': map<nat, nat>, size': map<nat, nat>, used': set<nat>)
    requires FreeList(ring, next, size, base, lo, top) && Owned(used, ring, size, lo, top) && 0 < j < |ring| && 0 < n <= size[ring[j]]
    requires Taken(ring, next, size, j, n, b, ring', next', size') && used' == used + {b}
    ensures b !in used && b in size' && size'[b] == n && ring[j - 1] in ring'
    ensures FreeList(ring', next', size', base, lo, top) && Owned(used', ring', size', lo, top)
    ensures forall u | u in used :: u in size' && size'[u] == size[u]
  {
    FreeBlocksEnd(ring, next, size, base, lo, top);
    Gaps(ring, next, size, base, lo, top, j);
    if size[ring[j]] == n {
      UnlinkFree(ring, next, size, base, lo, top, j - 1, ring', next');
      UnlinkOwned(used, ring, size, lo, top, j, ring', used');
      assert ring'[j - 1] == ring[j - 1];
    } else {
      Pivot(ring, next, size, base, lo, top, j);
      SplitFree(ring, next, size, base, lo, top, j, n, size');
      SplitOwned(used, ring, size, lo, top, j, n, size', used');
      assert ring'[j - 1] == ring[j - 1];
    }
  }

  /** The free list of the sentinel alone, linked to itself. */
  lemma Sentinel(next: map<nat, nat>, size: map<nat, nat>, base: nat, lo: nat, top: nat)
    requires base in next && next[base] == base && base in size && size[base] == 0
    ensures FreeList([base], next, size, base, lo, top) && Owned({}, [base], size, lo, top)
  {
  }
}
