/**
 * Virtual memory (kernel/vm.rs): permission bits, the conversions between
 * kernel and physical addresses, `mappg`, and the iterator over the user
 * mappings of a page table.
 *
 * The Sv39 page table itself is abstract here: its contents are the leaf slots
 * it holds, each keyed by the first address it covers, and `map` may fail (when
 * an intermediate table frame cannot be allocated) without changing them.
 */
module Vm {
  import opened Types
  import Sys
  import ProcLayout
  import BitIndex
  import PagePool

  // ---------------------------------------------------------------------------
  // `perm`: permission bits of a mapping.

  const PERM_BITS: nat := 8
  const READ: nat := 1
  const WRITE: nat := 2
  const EXEC: nat := 4
  const USER: nat := 8
  const COW: nat := 16
  const RWX: nat := 7
  const URWX: nat := 15
  const URW: nat := 11

  /**
   * The five basic permissions are the bits 0 to 4 of a u8, `1 << 0` to
   * `1 << 4`.
   */
  lemma PermBits()
    ensures READ == BitIndex.Pow2(0) && WRITE == BitIndex.Pow2(1) && EXEC == BitIndex.Pow2(2)
    ensures USER == BitIndex.Pow2(3) && COW == BitIndex.Pow2(4)
    ensures forall k | 0 <= k < 5 :: BitIndex.Shl(1, k, PERM_BITS) == BitIndex.Pow2(k)
  {
    BitIndex.Pow2Values();
    forall k | 0 <= k < 5
      ensures BitIndex.Shl(1, k, PERM_BITS) == BitIndex.Pow2(k)
    {
      BitIndex.ShlMeaning(1, k, PERM_BITS);
      BitIndex.Pow2Mono(k, 4);
    }
  }

  /** RWX, URWX and URW are the unions the source writes. */
  lemma PermUnions()
    ensures RWX == BitIndex.Or(BitIndex.Or(READ, WRITE, PERM_BITS), EXEC, PERM_BITS)
    ensures URWX == BitIndex.Or(USER, RWX, PERM_BITS)
    ensures URW == BitIndex.Or(BitIndex.Or(USER, READ, PERM_BITS), WRITE, PERM_BITS)
  {
    assert BitIndex.Or(READ, WRITE, PERM_BITS) == 3;
    assert BitIndex.Or(USER, READ, PERM_BITS) == 9;
  }

  /** URWX grants bits 0 to 3 and URW bits 0, 1 and 3; neither has COW, bit 4. */
  lemma PermGrants()
    ensures forall i | 0 <= i < 5 :: BitIndex.TestBit(URWX, i) == (i != 4)
    ensures forall i | 0 <= i < 5 :: BitIndex.TestBit(URW, i) == (i != 2 && i != 4)
  {
    forall i | 0 <= i < 5
      ensures BitIndex.TestBit(URWX, i) == (i != 4) && BitIndex.TestBit(URW, i) == (i != 2 && i != 4)
    {
      if i == 0 {
      } else if i == 1 {
      } else if i == 2 {
      } else if i == 3 {
      } else {
        assert i == 4;
      }
    }
  }

  // ---------------------------------------------------------------------------
  // Address conversions. `hka` is a high canonical address, `pa` a physical one,
  // `ka` a kernel address: an hka in the kernel build, a pa in the monitor build.

  /** `ishka(va)`. */
  predicate Ishka(va: uint64)
  {
    va >= Sys.HIGHMEM_BASE
  }

  /** `hka2pa(ka)`: the physical address whose high alias is ka; defined only for a high address. */
  function Hka2pa(ka: uint64): (pa: uint64)
    requires Ishka(ka)
    ensures pa + Sys.HIGHMEM_BASE == ka
  {
    ka - Sys.HIGHMEM_BASE
  }

  /** `pa2hka(pa)`: the high alias of pa, a high address that `hka2pa` maps back to pa; the sum must stay within 64 bits. */
  function Pa2hka(pa: uint64): (ka: uint64)
    requires pa + Sys.HIGHMEM_BASE < U64_LIMIT
    ensures Ishka(ka) && Hka2pa(ka) == pa
  {
    pa + Sys.HIGHMEM_BASE
  }

  /** The two builds of the kernel, which differ in how kernel addresses relate to physical ones. */
  datatype Build = Kernel | Monitor

  /** `ka2pa(ka)`: `hka2pa` in the kernel build, the identity in the monitor build. */
  function Ka2pa(b: Build, ka: uint64): (pa: uint64)
    requires b == Kernel ==> Ishka(ka)
    ensures b == Kernel ==> pa == Hka2pa(ka)
    ensures b == Monitor ==> pa == ka
  {
    if b == Kernel then ka - Sys.HIGHMEM_BASE else ka
  }

  /** `pa2ka(pa)`: `pa2hka` in the kernel build, the identity in the monitor build; `ka2pa` undoes it. */
  function Pa2ka(b: Build, pa: uint64): (ka: uint64)
    requires b == Kernel ==> pa + Sys.HIGHMEM_BASE < U64_LIMIT
    ensures b == Kernel ==> ka == Pa2hka(pa)
    ensures b == Monitor ==> ka == pa
    ensures (b == Kernel ==> Ishka(ka)) && Ka2pa(b, ka) == pa
  {
    if b == Kernel then pa + Sys.HIGHMEM_BASE else pa
  }

  /**
   * Physical and high addresses convert back and forth without loss; every
   * converted pa is a high address; the kernel build converts exactly like
   * `hka2pa`/`pa2hka`, and the monitor build not at all.
   */
  lemma AddressRoundTrips(b: Build, pa: uint64, ka: uint64)
    requires pa + Sys.HIGHMEM_BASE < U64_LIMIT
    requires Ishka(ka)
    ensures Ishka(Pa2hka(pa)) && Hka2pa(Pa2hka(pa)) == pa
    ensures Hka2pa(ka) + Sys.HIGHMEM_BASE < U64_LIMIT && Pa2hka(Hka2pa(ka)) == ka
    ensures Ka2pa(b, Pa2ka(b, pa)) == pa && Pa2ka(b, Ka2pa(b, ka)) == ka
    ensures b == Kernel ==> Ka2pa(b, ka) == Hka2pa(ka) && Pa2ka(b, pa) == Pa2hka(pa)
    ensures b == Monitor ==> Ka2pa(b, ka) == ka && Pa2ka(b, pa) == pa
  {
  }

  // ---------------------------------------------------------------------------
  // The page table.

  /** Sv39 leaf levels. */
  datatype Level = Normal | Mega | Giga

  /** `lvl.size()`: 4 KiB, 2 MiB or 1 GiB. */
  function Size(l: Level): (s: nat)
    ensures s > 0 && s % Sys.PAGESIZE == 0
  {
    match l
    case Normal => Sys.PAGESIZE
    case Mega => 512 * Sys.PAGESIZE
    case Giga => 512 * 512 * Sys.PAGESIZE
  }

  /** Levels ordered from the smallest leaf up. */
  function Rank(l: Level): nat
  {
    match l
    case Normal => 0
    case Mega => 1
    case Giga => 2
  }

  /** The first address of the level-l region holding va. */
  function Base(va: nat, l: Level): nat
  {
    va - va % Size(l)
  }

  /** A page-table entry: the physical address it maps, its permission bits and its valid bit. */
  datatype Pte = Pte(pa: nat, perm: nat, valid: bool)

  /** A leaf slot and its level. */
  datatype Leaf = Leaf(pte: Pte, level: Level)

  /** Leaf slots of a page table, keyed by the first address each covers. */
  type Slots = map<nat, Leaf>

  /**
   * `walk(va, Normal)` without allocation: from the top level down, a superpage
   * leaf covering va ends the walk early; otherwise the Normal slot of va is
   * found (valid or not) when its table exists.
   */
  function Walk(slots: Slots, va: nat): (r: Option<Leaf>)
    ensures r.Some? ==> Base(va, r.value.level) in slots && slots[Base(va, r.value.level)] == r.value
  {
    var g := Base(va, Giga);
    var m := Base(va, Mega);
    var n := Base(va, Normal);
    if g in slots && slots[g].level == Giga then Some(slots[g])
    else if m in slots && slots[m].level == Mega then Some(slots[m])
    else if n in slots && slots[n].level == Normal then Some(slots[n])
    else None
  }

  class Pagetable {
    var slots: Slots

    /** A page table with no user mappings. */
    constructor ()
      ensures slots == map[]
    {
      slots := map[];
    }

    /**
     * `map(va, pa, level, perm)`: on success the level-l slot of va holds a valid
     * entry for pa with perm; on failure nothing changes.
     */
    method Map(va: nat, pa: nat, l: Level, perm: nat) returns (ok: bool)
      modifies this
      ensures ok ==> slots == old(slots)[Base(va, l) := Leaf(Pte(pa, perm, true), l)]
      ensures !ok ==> slots == old(slots)
    {
      ok := *;
      if ok {
        slots := slots[Base(va, l) := Leaf(Pte(pa, perm, true), l)];
      }
    }
  }

  /**
   * After a successful Normal-level `map` of va, a walk of va finds what was
   * mapped, unless a superpage already covers va.
   */
  lemma MapThenWalk(slots: Slots, va: nat, pa: nat, perm: nat)
    requires Walk(slots, va).None? || Walk(slots, va).value.level == Normal
    ensures Walk(slots[Base(va, Normal) := Leaf(Pte(pa, perm, true), Normal)], va) == Some(Leaf(Pte(pa, perm, true), Normal))
  {
    var s' := slots[Base(va, Normal) := Leaf(Pte(pa, perm, true), Normal)];
    var g, m, n := Base(va, Giga), Base(va, Mega), Base(va, Normal);
    assert !(g in slots && slots[g].level == Giga);
    assert !(m in slots && slots[m].level == Mega);
    assert g in s' && s'[g].level == Giga ==> g == n;
    assert m in s' && s'[m].level == Mega ==> m == n;
  }

  /** The physical pages the valid Normal leaves of a page table map. */
  function Pages(slots: Slots): (r: set<nat>)
    ensures forall k | k in slots && slots[k].level == Normal && slots[k].pte.valid :: slots[k].pte.pa in r
  {
    set k | k in slots && slots[k].level == Normal && slots[k].pte.valid :: slots[k].pte.pa
  }

  /** Filling one slot adds at most the page it maps. */
  lemma PagesUpdate(slots: Slots, k: nat, leaf: Leaf)
    ensures Pages(slots[k := leaf]) <= Pages(slots) + {leaf.pte.pa}
  {
    var s' := slots[k := leaf];
    forall pa | pa in Pages(s')
      ensures pa in Pages(slots) || pa == leaf.pte.pa
    {
      var j :| j in s' && s'[j].level == Normal && s'[j].pte.valid && s'[j].pte.pa == pa;
      if j != k {
        assert j in slots && slots[j] == s'[j];
      }
    }
  }

  /** Filling a new slot with a valid Normal leaf adds exactly the page it maps. */
  lemma PagesAdd(slots: Slots, k: nat, leaf: Leaf)
    requires k !in slots && leaf.level == Normal && leaf.pte.valid
    ensures Pages(slots[k := leaf]) == Pages(slots) + {leaf.pte.pa}
  {
    PagesUpdate(slots, k, leaf);
    var s' := slots[k := leaf];
    assert k in s' && s'[k] == leaf;
    forall j | j in slots && slots[j].level == Normal && slots[j].pte.valid
      ensures slots[j].pte.pa in Pages(s')
    {
      assert j in s' && s'[j] == slots[j];
    }
  }

  /**
   * Between two states of a page table and of the free pages: every page the
   * table maps afterwards it mapped before, or it was taken from the free
   * pages in between.
   */
  ghost predicate Took(s0: Slots, f0: set<nat>, s: Slots, f: set<nat>)
  {
    Pages(s) <= Pages(s0) + (f0 - f)
  }

  /** Two spans of taking pages, one after the other, make one. */
  lemma TookTrans(s0: Slots, f0: set<nat>, s1: Slots, f1: set<nat>, s2: Slots, f2: set<nat>)
    requires Took(s0, f0, s1, f1) && Took(s1, f1, s2, f2) && f2 <= f1 <= f0
    ensures Took(s0, f0, s2, f2)
  {
  }

  /**
   * `mappg(va, pg, perm)` as written: when `map` fails, `drop_in_place` runs the
   * page's destructor, which for a byte array does nothing, and the page's
   * memory is never given back. The page is then neither free nor mapped.
   */
  method MappgAsWritten(pt: Pagetable, pool: PagePool.Pool, va: nat, pg: nat, perm: nat) returns (ok: bool)
    requires pool.Valid() && pg in pool.mem && pg !in pool.free
    modifies pt
    ensures ok ==> pt.slots == old(pt.slots)[Base(va, Normal) := Leaf(Pte(pg, perm, true), Normal)]
    ensures ok ==> pg in Pages(pt.slots) && Pages(pt.slots) <= Pages(old(pt.slots)) + {pg}
    ensures !ok ==> pt.slots == old(pt.slots) && pg !in pool.free
  {
    ok := pt.Map(va, pg, Normal, perm);
    if ok {
      assert pt.slots[Base(va, Normal)].pte.pa == pg;
      PagesUpdate(old(pt.slots), Base(va, Normal), Leaf(Pte(pg, perm, true), Normal));
    }
  }

  /**
   * `mappg(va, pg, perm)` with the page freed when `map` fails: the page table
   * takes the page on success, and the pool gets it back on failure.
   */
  method Mappg(pt: Pagetable, pool: PagePool.Pool, va: nat, pg: nat, perm: nat) returns (ok: bool)
    requires pool.Valid() && pg in pool.mem
    modifies pt, pool
    ensures pool.Valid() && pool.mem == old(pool.mem)
    ensures ok ==> pt.slots == old(pt.slots)[Base(va, Normal) := Leaf(Pte(pg, perm, true), Normal)]
    ensures ok ==> pg in Pages(pt.slots) && pool.free == old(pool.free)
    ensures ok ==> Pages(pt.slots) <= Pages(old(pt.slots)) + {pg}
    ensures !ok ==> pt.slots == old(pt.slots) && pool.free == old(pool.free) + {pg}
  {
    ok := pt.Map(va, pg, Normal, perm);
    if !ok {
      pool.Free(pg);
    } else {
      assert pt.slots[Base(va, Normal)].pte.pa == pg;
      PagesUpdate(old(pt.slots), Base(va, Normal), Leaf(Pte(pg, perm, true), Normal));
    }
  }

  // ---------------------------------------------------------------------------
  // `PtIter`: the valid Normal mappings below MAX_VA, in address order.

  /** `VaMapping`: a virtual address and the entry that maps it. */
  datatype VaMapping = VaMapping(va: nat, pte: Pte)
  {
    function Pa(): nat { pte.pa }
    function Perm(): nat { pte.perm }
  }

  /** What `advance` records for va: the entry when it is a valid Normal leaf, else null. */
  function Hit(slots: Slots, va: nat): (r: Option<Pte>)
    ensures r.Some? <==> Walk(slots, va).Some? && Walk(slots, va).value.level == Normal && Walk(slots, va).value.pte.valid
  {
    match Walk(slots, va)
    case Some(Leaf(pte, Normal)) => if pte.valid then Some(pte) else None
    case _ => None
  }

  /** How far `advance` moves from va: the size of the leaf found, or a page. */
  function Stride(slots: Slots, va: nat): (s: nat)
    ensures s > 0 && s % Sys.PAGESIZE == 0
  {
    match Walk(slots, va)
    case Some(leaf) => Size(leaf.level)
    case None => Sys.PAGESIZE
  }

  /** Every mapping the iterator yields from position va on. */
  function Scan(slots: Slots, va: nat): seq<VaMapping>
    decreases ProcLayout.MAX_VA - va
  {
    if va >= ProcLayout.MAX_VA then []
    else
      var here := if Hit(slots, va).Some? then [VaMapping(va, Hit(slots, va).value)] else [];
      here + Scan(slots, va + Stride(slots, va))
  }

  class PtIter {
    const pt: Pagetable
    var va: nat
    /** The entry `advance` last found, or null. */
    var pte: Option<Pte>

    /** `PtIter::new(pt)`. */
    constructor (pt: Pagetable)
      ensures this.pt == pt && va == 0 && pte == None
    {
      this.pt := pt;
      va := 0;
      pte := None;
    }

    /** `advance`: looks up va and steps past the leaf found; false once va reaches MAX_VA. */
    method Advance() returns (more: bool)
      modifies this
      ensures more <==> old(va) < ProcLayout.MAX_VA
      ensures !more ==> va == old(va) && pte == old(pte)
      ensures more ==> va == old(va) + Stride(pt.slots, old(va)) && pte == Hit(pt.slots, old(va))
    {
      if va >= ProcLayout.MAX_VA {
        return false;
      }
      match Walk(pt.slots, va) {
      case Some(Leaf(e, l)) =>
        if l != Normal || !e.valid {
          pte := None;
        } else {
          pte := Some(e);
        }
        va := va + Size(l);
      case None =>
        pte := None;
        va := va + Sys.PAGESIZE;
      }
      more := true;
    }

    /**
     * `next`: the first mapping the iterator has yet to yield, and the rest
     * still to come afterwards; None exactly when nothing is left.
     */
    method Next() returns (m: Option<VaMapping>)
      modifies this
      ensures old(Scan(pt.slots, va)) == (if m.Some? then [m.value] else []) + Scan(pt.slots, va)
      ensures m.None? ==> Scan(pt.slots, va) == []
      ensures m.Some? ==> old(va) <= m.value.va < va
    {
      var at := va;
      var more := Advance();
      if !more {
        return None;
      }
      while pte.None?
        invariant old(va) <= at < ProcLayout.MAX_VA
        invariant va == at + Stride(pt.slots, at) && pte == Hit(pt.slots, at)
        invariant old(Scan(pt.slots, va)) == Scan(pt.slots, at)
        decreases ProcLayout.MAX_VA - at
      {
        at := va;
        more := Advance();
        if !more {
          return None;
        }
      }
      m := Some(VaMapping(at, pte.value));
    }
  }

  // ---------------------------------------------------------------------------
  // What the iterator yields.

  /** Every yielded mapping lies in [va, MAX_VA) and is the valid Normal leaf a walk of its address finds. */
  lemma {:induction false} ScanSound(slots: Slots, va: nat)
    ensures forall m | m in Scan(slots, va) ::
      va <= m.va < ProcLayout.MAX_VA && m.pte.valid && Walk(slots, m.va) == Some(Leaf(m.pte, Normal))
    decreases ProcLayout.MAX_VA - va
  {
    if va < ProcLayout.MAX_VA {
      ScanSound(slots, va + Stride(slots, va));
    }
  }

  /** The iterator yields mappings in strictly increasing address order, so none twice. */
  lemma {:induction false} ScanSorted(slots: Slots, va: nat)
    ensures forall i, j | 0 <= i < j < |Scan(slots, va)| :: Scan(slots, va)[i].va < Scan(slots, va)[j].va
    decreases ProcLayout.MAX_VA - va
  {
    if va < ProcLayout.MAX_VA {
      var next := va + Stride(slots, va);
      ScanSorted(slots, next);
      ScanSound(slots, next);
    }
  }

  /** A walk of va finds a leaf of level l or above. */
  predicate BigAt(slots: Slots, va: nat, l: Level)
  {
    Walk(slots, va).Some? && Rank(Walk(slots, va).value.level) >= Rank(l)
  }

  /**
   * What holds at every position the iterator reaches from 0: when va lies
   * inside a 2 MiB or 1 GiB region rather than at its start, no superpage of
   * that size or larger covers the region (the iterator would have stepped
   * over it whole).
   */
  ghost predicate Entered(slots: Slots, va: nat)
  {
    va % Sys.PAGESIZE == 0
    && (va % Size(Mega) != 0 ==> !BigAt(slots, Base(va, Mega), Mega))
    && (va % Size(Giga) != 0 ==> !BigAt(slots, Base(va, Giga), Giga))
  }

  /** The region of va has the same start as that of any address in it. */
  lemma BaseOf(x: nat, b: nat, s: nat)
    requires s > 0 && b % s == 0 && b <= x < b + s
    ensures x - x % s == b
  {
    BitIndex.DivModUnique(x, s, b / s, x - b);
  }

  /** The largest multiple of s not above x is at least any other such multiple. */
  lemma LargestMultiple(x: nat, g: nat, s: nat)
    requires s > 0 && g % s == 0 && g <= x
    ensures g <= x - x % s
  {
    var a, b := g / s, x / s;
    BitIndex.DivModUnique(g, s, a, 0);
    assert x == b * s + x % s;
    if a > b {
      BitIndex.MulMonoLe(b + 1, a, s);
      assert false;
    }
    BitIndex.MulMonoLe(a, b, s);
  }

  /** Region starts nest: the 1 GiB region of the 2 MiB region of va is that of va. */
  lemma BaseNest(va: nat, l: Level, h: Level)
    requires Rank(l) <= Rank(h)
    ensures Base(Base(va, l), h) == Base(va, h)
    ensures Base(Base(va, l), l) == Base(va, l)
  {
    SizeDivides(l, h);
    StartNest(va, Size(l), Size(h), Base(va, l), Base(va, h));
  }

  /** BaseNest for any region sizes sl and sh, sl dividing sh: b and g start va's regions of those sizes. */
  lemma StartNest(va: nat, sl: nat, sh: nat, b: nat, g: nat)
    requires sl > 0 && sh > 0 && sh % sl == 0
    requires b == va - va % sl && g == va - va % sh
    ensures b - b % sh == g && b - b % sl == b
  {
    assert g % sh == 0 && g <= va < g + sh by { MultipleStart(va, sh); }
    assert b % sl == 0 && b <= va by { MultipleStart(va, sl); }
    assert g % sl == 0 by { MultipleOf(g, sh, sl); }
    assert g <= b by { LargestMultiple(va, g, sl); }
    BaseOf(b, g, sh);
    BaseOf(b, b, sl);
  }

  /** The start of a region is a multiple of its size, at most s - 1 below va. */
  lemma MultipleStart(x: nat, s: nat)
    requires s > 0
    ensures (x - x % s) % s == 0 && x - x % s <= x < x - x % s + s
  {
    BitIndex.DivModUnique(x - x % s, s, x / s, 0);
  }

  /** A multiple of a multiple of s is a multiple of s. */
  lemma MultipleOf(x: nat, big: nat, s: nat)
    requires s > 0 && big > 0 && big % s == 0 && x % big == 0
    ensures x % s == 0
  {
    var a, b := x / big, big / s;
    assert x == a * big;
    assert big == b * s;
    assert x == (a * b) * s;
    BitIndex.DivModUnique(x, s, a * b, 0);
  }

  /** Larger levels have sizes that are multiples of the smaller ones. */
  lemma SizeDivides(l: Level, h: Level)
    requires Rank(l) <= Rank(h)
    ensures Size(h) % Size(l) == 0
  {
  }

  /**
   * Stepping by s from a multiple of s either stays in the region of size S
   * (a multiple of s) or lands exactly on the next region's start.
   */
  lemma SameRegion(a: nat, s: nat, big: nat)
    requires s > 0 && big % s == 0 && big > 0 && a % s == 0 && (a + s) % big != 0
    ensures (a + s) - (a + s) % big == a - a % big
  {
    var q, r := a / big, a % big;
    RemainderAligned(a, s, big);
    StepFits(r, s, big);
    if r + s == big {
      assert a + s == (q + 1) * big;
      BitIndex.DivModUnique(a + s, big, q + 1, 0);
      assert false;
    }
    BitIndex.DivModUnique(a + s, big, q, r + s);
  }

  /** A multiple of s keeps being one after reduction modulo a multiple of s. */
  lemma RemainderAligned(a: nat, s: nat, big: nat)
    requires s > 0 && big > 0 && big % s == 0 && a % s == 0
    ensures (a % big) % s == 0
  {
    var q, r := a / big, a % big;
    MultipleOf(big, big, s);
    var k := big / s;
    assert a == q * big + r;
    assert big == k * s;
    assert a == (a / s) * s;
    assert r == (a / s - q * k) * s;
    BitIndex.DivModUnique(r, s, a / s - q * k, 0);
  }

  /** A multiple of s below a multiple of s is at least s below it. */
  lemma StepFits(r: nat, s: nat, big: nat)
    requires s > 0 && big % s == 0 && r % s == 0 && r < big
    ensures r + s <= big
  {
    var k, j := big / s, r / s;
    assert r == j * s;
    assert big == k * s;
    assert j < k by {
      if j >= k {
        BitIndex.MulMonoLe(k, j, s);
      }
    }
    BitIndex.MulMonoLe(j + 1, k, s);
  }

  /** A leaf a walk finds from a reachable position starts exactly there. */
  lemma WalkAligned(slots: Slots, va: nat)
    requires Entered(slots, va) && Walk(slots, va).Some?
    ensures va % Size(Walk(slots, va).value.level) == 0
  {
    var l := Walk(slots, va).value.level;
    if l == Giga && va % Size(Giga) != 0 {
      BaseNest(va, Giga, Giga);
      assert false;
    } else if l == Mega && va % Size(Mega) != 0 {
      BaseNest(va, Mega, Giga);
      BaseNest(va, Mega, Mega);
      assert false;
    }
  }

  /** One `advance` keeps the iterator at a reachable position. */
  lemma StepEntered(slots: Slots, va: nat)
    requires Entered(slots, va)
    ensures Entered(slots, va + Stride(slots, va))
  {
    var s := Stride(slots, va);
    var next := va + s;
    assert next % Sys.PAGESIZE == 0 by {
      MultipleOf(s, s, Sys.PAGESIZE);
      BitIndex.DivModUnique(va, Sys.PAGESIZE, va / Sys.PAGESIZE, 0);
      BitIndex.DivModUnique(s, Sys.PAGESIZE, s / Sys.PAGESIZE, 0);
      BitIndex.DivModUnique(next, Sys.PAGESIZE, va / Sys.PAGESIZE + s / Sys.PAGESIZE, 0);
    }
    StepEnteredAt(slots, va, Mega);
    StepEnteredAt(slots, va, Giga);
  }

  lemma StepEnteredAt(slots: Slots, va: nat, l: Level)
    requires Entered(slots, va) && l != Normal
    ensures var next := va + Stride(slots, va);
      next % Size(l) != 0 ==> !BigAt(slots, Base(next, l), l)
  {
    var s := Stride(slots, va);
    var w := Walk(slots, va);
    var found := if w.Some? then w.value.level else Normal;
    assert s == Size(found);
    if w.Some? {
      WalkAligned(slots, va);
    }
    if Rank(found) >= Rank(l) {
      SizeDivides(l, found);
      StepMultiple(va, s, Size(l));
    } else {
      // The walk of va looked for a level-l leaf at Base(va, l) and found none.
      SizeDivides(found, l);
      StepWithin(va, s, Size(l), Base(va, l), Base(va + s, l));
      if va % Size(l) == 0 {
        assert Base(va, l) == va;
      }
    }
  }

  /** A step of s from a multiple of s lands on a multiple of every divisor of s. */
  lemma StepMultiple(va: nat, s: nat, big: nat)
    requires big > 0 && s > 0 && s % big == 0 && va % s == 0
    ensures (va + s) % big == 0
  {
    assert (va + s) % s == 0 by {
      BitIndex.DivModUnique(va + s, s, va / s + 1, 0);
    }
    MultipleOf(va + s, s, big);
  }

  /** A step of s, a divisor of big, from a multiple of s stays in the region of size big unless it reaches its end. */
  lemma StepWithin(va: nat, s: nat, big: nat, b: nat, b': nat)
    requires s > 0 && big > 0 && big % s == 0 && va % s == 0
    requires b == va - va % big && b' == (va + s) - (va + s) % big
    ensures (va + s) % big != 0 ==> b' == b
  {
    if (va + s) % big != 0 {
      SameRegion(va, s, big);
    }
  }

  /** The next page boundary after a page boundary va is va + PAGESIZE. */
  lemma NextBoundary(va: nat, x: nat)
    requires va % Sys.PAGESIZE == 0 && x % Sys.PAGESIZE == 0 && va < x
    ensures va + Sys.PAGESIZE <= x
  {
    BitIndex.DivModUnique(x, Sys.PAGESIZE, x / Sys.PAGESIZE, 0);
    BitIndex.DivModUnique(va, Sys.PAGESIZE, va / Sys.PAGESIZE, 0);
  }

  /**
   * The iterator misses nothing: from a reachable position va, every page
   * address in [va, MAX_VA) whose walk finds a valid Normal leaf is yielded
   * with that leaf's entry.
   */
  lemma {:induction false} ScanComplete(slots: Slots, va: nat, x: nat, e: Pte)
    requires Entered(slots, va)
    requires va <= x < ProcLayout.MAX_VA && x % Sys.PAGESIZE == 0
    requires e.valid && Walk(slots, x) == Some(Leaf(e, Normal))
    ensures VaMapping(x, e) in Scan(slots, va)
    decreases ProcLayout.MAX_VA - va
  {
    if x == va {
      return;
    }
    var s := Stride(slots, va);
    StepEntered(slots, va);
    var w := Walk(slots, va);
    if w.Some? && w.value.level != Normal {
      var l := w.value.level;
      WalkAligned(slots, va);
      if x < va + s {
        SameSuperpage(slots, va, x);
        assert false;
      }
    } else {
      assert s == Sys.PAGESIZE;
      NextBoundary(va, x);
    }
    ScanComplete(slots, va + s, x, e);
  }

  /** A walk of an address inside the superpage found at va finds that superpage too. */
  lemma SameSuperpage(slots: Slots, va: nat, x: nat)
    requires Walk(slots, va).Some? && Walk(slots, va).value.level != Normal
    requires va % Size(Walk(slots, va).value.level) == 0
    requires va <= x < va + Size(Walk(slots, va).value.level)
    ensures Walk(slots, x) == Walk(slots, va)
  {
    var l := Walk(slots, va).value.level;
    BaseOf(x, va, Size(l));
    BaseOf(va, va, Size(l));
    BaseNest(x, l, Giga);
    BaseNest(va, l, Giga);
  }

  /** From a page boundary the iterator yields only page-aligned addresses. */
  lemma {:induction false} ScanAligned(slots: Slots, va: nat)
    requires va % Sys.PAGESIZE == 0
    ensures forall m | m in Scan(slots, va) :: m.va % Sys.PAGESIZE == 0
    decreases ProcLayout.MAX_VA - va
  {
    if va < ProcLayout.MAX_VA {
      var s := Stride(slots, va);
      assert (va + s) % Sys.PAGESIZE == 0 by {
        BitIndex.DivModUnique(va + s, Sys.PAGESIZE, va / Sys.PAGESIZE + s / Sys.PAGESIZE, 0);
      }
      ScanAligned(slots, va + s);
    }
  }

  /** The physical pages of the mappings the iterator yields from va 0. */
  function ScanPages(slots: Slots): (r: set<nat>)
    ensures forall m | m in Scan(slots, 0) :: m.pte.pa in r
  {
    set m | m in Scan(slots, 0) :: m.pte.pa
  }

  /** The physical pages of a run of mappings, gathered one mapping at a time. */
  function PagesOf(ms: seq<VaMapping>): set<nat>
  {
    if ms == [] then {} else PagesOf(ms[..|ms| - 1]) + {ms[|ms| - 1].pte.pa}
  }

  /** Gathered one at a time, the pages of the whole walk are those it yields. */
  lemma ScanPagesOf(slots: Slots)
    ensures PagesOf(Scan(slots, 0)) == ScanPages(slots)
  {
    PagesOfMembers(Scan(slots, 0));
  }

  /** A page is gathered exactly when some mapping of the run maps it. */
  lemma {:induction false} PagesOfMembers(ms: seq<VaMapping>)
    ensures PagesOf(ms) == set m | m in ms :: m.pte.pa
  {
    if ms != [] {
      var init := ms[..|ms| - 1];
      PagesOfMembers(init);
      assert ms == init + [ms[|ms| - 1]];
    }
  }

  /** A page the iterator yields is one the table maps. */
  lemma ScanPageMapped(slots: Slots, va: nat, m: VaMapping)
    requires m in Scan(slots, va)
    ensures m.pte.pa in Pages(slots)
  {
    ScanSound(slots, va);
    assert slots[Base(m.va, Normal)] == Leaf(m.pte, Normal);
  }

  /** A mapping the walk from 0 yields: a page-aligned address below MAX_VA, on a page the table maps. */
  lemma ScanEntry(slots: Slots, m: VaMapping)
    requires m in Scan(slots, 0)
    ensures m.va % Sys.PAGESIZE == 0 && m.va < ProcLayout.MAX_VA && m.pte.pa in Pages(slots)
  {
    ScanSound(slots, 0);
    ScanAligned(slots, 0);
    ScanPageMapped(slots, 0, m);
  }

  /** The iterator yields only pages the table maps. */
  lemma ScanPagesWithin(slots: Slots)
    ensures ScanPages(slots) <= Pages(slots)
  {
    forall m | m in Scan(slots, 0)
      ensures m.pte.pa in Pages(slots)
    {
      ScanPageMapped(slots, 0, m);
    }
  }

  /**
   * A table holding only 4 KiB leaves at page-aligned addresses below MAX_VA:
   * the iterator yields every page it maps.
   */
  lemma ScanPagesFlat(slots: Slots)
    requires forall k | k in slots :: k % Sys.PAGESIZE == 0 && k < ProcLayout.MAX_VA && slots[k].level == Normal
    ensures ScanPages(slots) == Pages(slots)
  {
    ScanPagesWithin(slots);
    forall pa | pa in Pages(slots)
      ensures pa in ScanPages(slots)
    {
      var k :| k in slots && slots[k].level == Normal && slots[k].pte.valid && slots[k].pte.pa == pa;
      assert Base(k, Normal) == k;
      assert Walk(slots, k) == Some(slots[k]);
      ScanExact(slots, k, slots[k].pte);
      assert VaMapping(k, slots[k].pte) in Scan(slots, 0);
    }
  }

  /**
   * The whole walk from 0 yields exactly the valid Normal leaves below MAX_VA,
   * each once and in order of address.
   */
  lemma ScanExact(slots: Slots, x: nat, e: Pte)
    requires x < ProcLayout.MAX_VA && x % Sys.PAGESIZE == 0
    ensures VaMapping(x, e) in Scan(slots, 0) <==> e.valid && Walk(slots, x) == Some(Leaf(e, Normal))
  {
    ScanSound(slots, 0);
    if e.valid && Walk(slots, x) == Some(Leaf(e, Normal)) {
      ScanComplete(slots, 0, x, e);
    }
  }

  // ---------------------------------------------------------------------------
  // Shapes of a table built by copying another.

  /**
   * The child's slots copy the mappings ms: one slot per yielded address,
   * holding a valid Normal leaf with the same permission bits, on a page whose
   * bytes are those the parent's page had in mem0.
   */
  ghost predicate Copied(ms: seq<VaMapping>, slots: Slots, mem0: map<nat, seq<uint8>>, mem: map<nat, seq<uint8>>)
  {
    && slots.Keys == Addresses(ms)
    && forall m | m in ms ::
         && m.va in slots
         && slots[m.va].level == Normal && slots[m.va].pte.valid && slots[m.va].pte.perm == m.Perm()
         && slots[m.va].pte.pa in mem && m.Pa() in mem0 && mem[slots[m.va].pte.pa] == mem0[m.Pa()]
  }

  /** The addresses of some mappings. */
  ghost function Addresses(ms: seq<VaMapping>): set<nat>
  {
    set m | m in ms :: m.va
  }

  /** Every slot is a valid 4 KiB leaf at a page-aligned address below MAX_VA. */
  ghost predicate Flat(slots: Slots)
  {
    forall k | k in slots ::
      k % Sys.PAGESIZE == 0 && k < ProcLayout.MAX_VA && slots[k].level == Normal && slots[k].pte.valid
  }

  /** No two slots map the same page. */
  ghost predicate Distinct(slots: Slots)
  {
    forall j, k | j in slots && k in slots && j != k :: slots[j].pte.pa != slots[k].pte.pa
  }
}
