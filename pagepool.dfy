/**
 * The physical page pool behind `kallocpage`, `zallocpage` and `kfree`. Their
 * implementation is not part of this model: a page is named by its physical
 * address, allocation hands out some free page or fails when none is left, and
 * freeing returns a page to the pool.
 */
module PagePool {
  import opened Types
  import Sys

  /** A page of zero bytes. */
  function Zeros(): (z: seq<uint8>)
    ensures |z| == Sys.PAGESIZE && forall i | 0 <= i < |z| :: z[i] == 0
  {
    seq(Sys.PAGESIZE, _ => 0)
  }

  class Pool {
    /** The pages that are free to allocate. */
    var free: set<nat>
    /** The bytes of every page of physical memory, free or not. */
    var mem: map<nat, seq<uint8>>

    ghost predicate Valid()
      reads this
    {
      free <= mem.Keys && forall p | p in mem :: |mem[p]| == Sys.PAGESIZE
    }

    constructor (pages: set<nat>)
      ensures Valid() && free == pages && mem.Keys == pages
    {
      free := pages;
      mem := map p | p in pages :: Zeros();
    }

    /** `kallocpage()`: some free page, whose bytes are whatever it held; fails when none is free. */
    method Alloc() returns (pg: Option<nat>)
      requires Valid()
      modifies this
      ensures Valid() && mem == old(mem)
      ensures pg.None? <==> old(free) == {}
      ensures pg.None? ==> free == old(free)
      ensures pg.Some? ==> pg.value in old(free) && free == old(free) - {pg.value}
    {
      if free == {} {
        return None;
      }
      var p :| p in free;
      free := free - {p};
      pg := Some(p);
    }

    /** `zallocpage()`: like `Alloc`, with the page cleared to zeros. */
    method Zalloc() returns (pg: Option<nat>)
      requires Valid()
      modifies this
      ensures Valid()
      ensures pg.None? <==> old(free) == {}
      ensures pg.None? ==> free == old(free) && mem == old(mem)
      ensures pg.Some? ==> pg.value in old(free) && free == old(free) - {pg.value}
      ensures pg.Some? ==> mem == old(mem)[pg.value := Zeros()]
    {
      pg := Alloc();
      if pg.Some? {
        mem := mem[pg.value := Zeros()];
      }
    }

    /** `kfree(pg)`: the page becomes free again. */
    method Free(pg: nat)
      requires Valid() && pg in mem
      modifies this
      ensures Valid() && mem == old(mem) && free == old(free) + {pg}
    {
      free := free + {pg};
    }

    /** Overwrites a whole page, as `copy_from_slice` on a page does. */
    method Write(pg: nat, data: seq<uint8>)
      requires Valid() && pg in mem && |data| == Sys.PAGESIZE
      modifies this
      ensures Valid() && free == old(free) && mem == old(mem)[pg := data]
    {
      mem := mem[pg := data];
    }
  }
}
