/**
 * The ELF-64 segment loader (kernel/elf.rs): `load64` checks the magic, then
 * maps every loadable segment page by page with full user permissions, copying
 * the file bytes in and zeroing the rest, and returns the entry point and the
 * end of the highest segment.
 *
 * Arithmetic follows Rust with overflow checks: an addition that overflows or a
 * subtraction that goes below zero panics, as does a slice index out of range.
 * Two computations of the page loop are modelled as written and next to what
 * they evidently intend, selected by `Variant`; the as-written loop maps its
 * pages with `mappg` as written (Vm.MappgAsWritten), the corrected one with
 * the `mappg` that frees a page it cannot map (Vm.Mappg).
 */
module Elf {
  import opened Types
  import Sys
  import Mem
  import Uart
  import Vm
  import PagePool

  const MAGIC: nat := 0x464C457F
  const PROG_LOAD: nat := 1
  /** Size of `FileHeader64`. */
  const EHDR_SIZE: nat := 64
  /** Size of `ProgHeader64`, the stride of the program-header table. */
  const PHDR_SIZE: nat := 56
  const PAGESIZE: nat := Sys.PAGESIZE

  /** The loop as written, or with its first-page copy, its segment offset and `mappg` as intended. */
  datatype Variant = AsWritten | Corrected

  /** The fields of `ProgHeader64` the loader reads. */
  datatype ProgHeader = ProgHeader(kind: nat, offset: nat, vaddr: nat, filesz: nat, memsz: nat)

  /** What `load64` ends in: `Some((entry, brk))`, `None`, or a panic. */
  datatype LoadResult = Loaded(entry: nat, brk: nat) | Rejected | Panicked

  /** How one step of the loader ends: it carries on, returns None, or panics. */
  datatype Status = Done | Failed | Panic

  // ---------------------------------------------------------------------------
  // Reading the headers: the structures are read in place, little-endian.

  /** The k-byte little-endian field at byte `at`. */
  function Field(d: seq<uint8>, at: nat, k: nat): nat
    requires at + k <= |d|
  {
    Uart.LeValue(d[at..at + k])
  }

  function Magic(d: seq<uint8>): nat requires |d| >= EHDR_SIZE { Field(d, 0, 4) }
  function Entry(d: seq<uint8>): nat requires |d| >= EHDR_SIZE { Field(d, 24, 8) }
  function Phoff(d: seq<uint8>): nat requires |d| >= EHDR_SIZE { Field(d, 32, 8) }
  function Phnum(d: seq<uint8>): nat requires |d| >= EHDR_SIZE { Field(d, 56, 2) }

  /**
   * What reading the headers in place needs: a whole file header, a length
   * that fits a usize, and, once the magic matches, the program-header table
   * inside the data.
   */
  predicate HeadersInside(d: seq<uint8>)
  {
    EHDR_SIZE <= |d| < U64_LIMIT
    && (Magic(d) == MAGIC ==> Phoff(d) + Phnum(d) * PHDR_SIZE <= |d|)
  }

  /** `off`: where program header i starts. */
  function Off(d: seq<uint8>, i: nat): nat
    requires |d| >= EHDR_SIZE
  {
    Phoff(d) + i * PHDR_SIZE
  }

  /** Program header i. */
  function Seg(d: seq<uint8>, i: nat): ProgHeader
    requires HeadersInside(d) && Magic(d) == MAGIC && i < Phnum(d)
  {
    var off := Off(d, i);
    ProgHeader(Field(d, off, 4), Field(d, off + 8, 8), Field(d, off + 16, 8), Field(d, off + 32, 8), Field(d, off + 40, 8))
  }

  // ---------------------------------------------------------------------------
  // `min` and `max`.

  function Min(a: nat, b: nat): (r: nat)
    ensures r <= a && r <= b && (r == a || r == b)
  {
    if a < b then a else b
  }

  function Max(a: nat, b: nat): (r: nat)
    ensures r >= a && r >= b && (r == a || r == b)
  {
    if a > b then a else b
  }

  // ---------------------------------------------------------------------------
  // One segment.

  /** Only PT_LOAD segments that occupy memory are loaded. */
  predicate Loadable(ph: ProgHeader)
  {
    ph.kind == PROG_LOAD && ph.memsz != 0
  }

  /** `va_start`: the segment's address rounded down to its page. */
  function PageStart(ph: ProgHeader): nat
  {
    ph.vaddr - ph.vaddr % PAGESIZE
  }

  /** `sz`: the bytes mapped from `va_start` on, at least one page. */
  function Span(ph: ProgHeader): nat
  {
    Max(ph.memsz + ph.vaddr % PAGESIZE, PAGESIZE)
  }

  /** q is one of the pages the page loop maps for the segment. */
  predicate InSegment(ph: ProgHeader, q: nat)
  {
    q % PAGESIZE == 0 && PageStart(ph) <= q < PageStart(ph) + Span(ph)
  }

  /** `pad` when the loop reaches q: the offset of vaddr in the first page, 0 afterwards. */
  function PadAt(ph: ProgHeader, q: nat): nat
  {
    if q == PageStart(ph) then ph.vaddr % PAGESIZE else 0
  }

  /** The checks before the page loop. */
  datatype Check = Skip | Reject | Overflow | Go

  /**
   * Lines 58-72: a segment that is not loadable is skipped, one with
   * `memsz < filesz` rejected. Under overflow checks `vaddr + memsz` panics
   * before the comparison that was meant to catch it can run; the corrected
   * loop rejects the segment instead. The end of the page range must also fit.
   */
  function CheckSegment(v: Variant, ph: ProgHeader): (c: Check)
    ensures c == Go ==> Loadable(ph) && ph.filesz <= ph.memsz && PageStart(ph) + Span(ph) < U64_LIMIT
  {
    if !Loadable(ph) then Skip
    else if ph.memsz < ph.filesz then Reject
    else if ph.vaddr + ph.memsz >= U64_LIMIT then (if v == AsWritten then Overflow else Reject)
    else if PageStart(ph) + Span(ph) >= U64_LIMIT then Overflow
    else Go
  }

  /** Zero bytes. */
  function Zeros(n: nat): (z: seq<uint8>)
    ensures |z| == n && forall i | 0 <= i < n :: z[i] == 0
  {
    seq(n, _ => 0)
  }

  /**
   * Where the loop panics building the page at q with `pad` zero bytes first.
   * As written, `soff = va - vaddr` underflows on a first page with pad > 0,
   * and the length copied is bounded by `filesz - off`, `off` being the offset
   * of the program header rather than of the page in the segment; both
   * variants panic when the bytes to copy run past the end of the data.
   * The corrected loop takes `soff = va + pad - vaddr` and `filesz - soff`.
   */
  predicate PagePanics(v: Variant, d: seq<uint8>, ph: ProgHeader, off: nat, q: nat, pad: nat)
    requires pad < PAGESIZE
  {
    var at := if v == AsWritten then q else q + pad;
    if at < ph.vaddr then true
    else
      var soff := at - ph.vaddr;
      if ph.filesz <= soff then false
      else if v == AsWritten && ph.filesz < off then true
      else ph.offset + soff + Min(PAGESIZE - pad, if v == AsWritten then ph.filesz - off else ph.filesz - soff) > |d|
  }

  /**
   * The page the loop builds at q with `pad` zero bytes first, or None where
   * it panics: the file bytes from `offset + soff` on, after the padding and
   * followed by zeros.
   */
  function PageFill(v: Variant, d: seq<uint8>, ph: ProgHeader, off: nat, q: nat, pad: nat): (r: Option<seq<uint8>>)
    requires pad < PAGESIZE
    ensures r.None? <==> PagePanics(v, d, ph, off, q, pad)
    ensures r.Some? ==> |r.value| == PAGESIZE && forall j | 0 <= j < pad :: r.value[j] == 0
  {
    var at := if v == AsWritten then q else q + pad;
    if at < ph.vaddr then None
    else
      var soff := at - ph.vaddr;
      if ph.filesz <= soff then Some(Zeros(PAGESIZE))
      else if v == AsWritten && ph.filesz < off then None
      else
        var n := Min(PAGESIZE - pad, if v == AsWritten then ph.filesz - off else ph.filesz - soff);
        var start := ph.offset + soff;
        if start + n > |d| then None
        else Some(Window(d, start, pad, n))
  }

  /** A page holding n bytes of d from `start` on at offset pad, and zeros elsewhere. */
  function Window(d: seq<uint8>, start: nat, pad: nat, n: nat): (w: seq<uint8>)
    requires pad + n <= PAGESIZE && start + n <= |d|
    ensures |w| == PAGESIZE
  {
    seq(PAGESIZE, j requires 0 <= j < PAGESIZE => if pad <= j < pad + n then d[start + (j - pad)] else 0)
  }

  /** The page the loop builds at page q of the segment. */
  function FillOf(v: Variant, d: seq<uint8>, ph: ProgHeader, off: nat, q: nat): Option<seq<uint8>>
  {
    PageFill(v, d, ph, off, q, PadAt(ph, q))
  }

  /** The byte the segment puts at address a: file data for its first filesz bytes, else zero. */
  function ImageByte(d: seq<uint8>, ph: ProgHeader, a: nat): uint8
    requires ph.offset + ph.filesz <= |d|
  {
    if ph.vaddr <= a < ph.vaddr + ph.filesz then d[ph.offset + (a - ph.vaddr)] else 0
  }

  /** Page q holds `content`: a valid user read-write-execute Normal leaf maps it to an allocated page with those bytes. */
  predicate Holds(slots: Vm.Slots, mem: map<nat, seq<uint8>>, free: set<nat>, q: nat, content: Option<seq<uint8>>)
  {
    && q in slots
    && slots[q].level == Vm.Normal
    && slots[q].pte.valid
    && slots[q].pte.perm == Vm.URWX
    && slots[q].pte.pa in mem
    && slots[q].pte.pa !in free
    && content.Some?
    && mem[slots[q].pte.pa] == content.value
  }

  /** Between two states of the pool: the same pages, no page freed, and pages that were not free keep their bytes. */
  predicate PoolKept(mem0: map<nat, seq<uint8>>, free0: set<nat>, mem: map<nat, seq<uint8>>, free: set<nat>)
  {
    mem.Keys == mem0.Keys && free <= free0 && forall x | x in mem0 && x !in free0 :: mem[x] == mem0[x]
  }

  /** Slot k is the same in both tables. */
  predicate SameSlot(a: Vm.Slots, b: Vm.Slots, k: nat)
  {
    (k in a <==> k in b) && (k in a ==> a[k] == b[k])
  }

  /** Page k keeps holding its bytes while its slot stays and pages that were not free keep theirs. */
  lemma StillHolds(slots: Vm.Slots, mem: map<nat, seq<uint8>>, free: set<nat>,
                   slots': Vm.Slots, mem': map<nat, seq<uint8>>, free': set<nat>, k: nat, content: Option<seq<uint8>>)
    requires Holds(slots, mem, free, k, content)
    requires SameSlot(slots, slots', k) && mem.Keys == mem'.Keys && free' <= free
    requires forall x | x in mem && x !in free :: mem'[x] == mem[x]
    ensures Holds(slots', mem', free', k, content)
  {
  }

  /** Zeroing the padding, copying n bytes after it and zeroing the rest builds the window, whatever the page held. */
  lemma {:induction false} FillShape(buf: seq<uint8>, d: seq<uint8>, start: nat, pad: nat, n: nat)
    requires |buf| == PAGESIZE && pad + n <= PAGESIZE && start + n <= |d|
    ensures var b1 := Mem.Filled(buf, 0, 0, pad);
      var b2 := b1[..pad] + d[start..start + n] + b1[pad + n..];
      Mem.Filled(b2, pad + n, 0, PAGESIZE - pad - n) == Window(d, start, pad, n)
  {
    var b1 := Mem.Filled(buf, 0, 0, pad);
    var b2 := b1[..pad] + d[start..start + n] + b1[pad + n..];
    var b3 := Mem.Filled(b2, pad + n, 0, PAGESIZE - pad - n);
    var w := Window(d, start, pad, n);
    forall j | 0 <= j < PAGESIZE
      ensures b3[j] == w[j]
    {
      if j < pad {
        assert b3[j] == b2[j] == b1[j] == 0;
      } else if j < pad + n {
        assert b3[j] == b2[j] == d[start..start + n][j - pad];
      }
    }
  }

  /**
   * The bytes of one page as the loop builds them from a page of any contents:
   * the first `pad` bytes zeroed, the segment's file bytes copied in after
   * them, the rest zeroed; None where the loop panics.
   */
  method BuildPage(page: seq<uint8>, d: seq<uint8>, ph: ProgHeader, off: nat, q: nat, pad: nat, v: Variant)
    returns (r: Option<seq<uint8>>)
    requires |page| == PAGESIZE && pad < PAGESIZE
    ensures r == PageFill(v, d, ph, off, q, pad)
  {
    var buf := Mem.Filled(page, 0, 0, pad);
    var written := pad;
    var at := if v == AsWritten then q else q + written;
    if at < ph.vaddr {
      return None;
    }
    var soff := at - ph.vaddr;
    var start, n := 0, 0;
    if ph.filesz > soff {
      if v == AsWritten && ph.filesz < off {
        return None;
      }
      n := Min(PAGESIZE - written, if v == AsWritten then ph.filesz - off else ph.filesz - soff);
      start := ph.offset + soff;
      if start + n > |d| {
        return None;
      }
      buf := buf[..written] + d[start..start + n] + buf[written + n..];
      written := written + n;
    } else {
      assert buf == buf[..written] + d[0..0] + buf[written..];
    }
    FillShape(page, d, start, pad, n);
    buf := Mem.Filled(buf, written, 0, PAGESIZE - written);
    if ph.filesz <= soff {
      assert buf == Zeros(PAGESIZE);
    }
    r := Some(buf);
  }

  /**
   * The pages of the segment below `upto` hold what the loop built for them,
   * and every other slot is as in `slots0`.
   */
  ghost predicate LoadedBelow(v: Variant, d: seq<uint8>, ph: ProgHeader, off: nat, upto: nat,
                        slots: Vm.Slots, mem: map<nat, seq<uint8>>, free: set<nat>, slots0: Vm.Slots)
  {
    && (forall k: nat | InSegment(ph, k) && k < upto :: Holds(slots, mem, free, k, FillOf(v, d, ph, off, k)))
    && (forall k: nat | !(InSegment(ph, k) && k < upto) :: SameSlot(slots0, slots, k))
  }

  /** Loading page q of the segment extends what is loaded by one page. */
  lemma LoadedStep(v: Variant, d: seq<uint8>, ph: ProgHeader, off: nat, q: nat, slots0: Vm.Slots,
                   s: Vm.Slots, m: map<nat, seq<uint8>>, f: set<nat>,
                   s': Vm.Slots, m': map<nat, seq<uint8>>, f': set<nat>)
    requires InSegment(ph, q)
    requires LoadedBelow(v, d, ph, off, q, s, m, f, slots0)
    requires PoolKept(m, f, m', f') && forall k: nat | k != q :: SameSlot(s, s', k)
    requires Holds(s', m', f', q, FillOf(v, d, ph, off, q))
    ensures LoadedBelow(v, d, ph, off, q + PAGESIZE, s', m', f', slots0)
  {
    forall k: nat | InSegment(ph, k) && k < q + PAGESIZE
      ensures Holds(s', m', f', k, FillOf(v, d, ph, off, k))
    {
      if k < q {
        StillHolds(s, m, f, s', m', f', k, FillOf(v, d, ph, off, k));
      } else {
        OnlyPage(q, k);
      }
    }
    forall k: nat | !(InSegment(ph, k) && k < q + PAGESIZE)
      ensures SameSlot(slots0, s', k)
    {
      assert SameSlot(s, s', k);
    }
  }

  /**
   * One iteration of the page loop at page q of the segment: allocate a page,
   * build its bytes and map it at q with URWX. When it carries on, the pages
   * loaded so far are extended by q. When the map fails the page goes back
   * to the pool in the corrected loop and is lost in the one as written.
   */
  method LoadPage(pt: Vm.Pagetable, pool: PagePool.Pool, d: seq<uint8>, ph: ProgHeader, off: nat, q: nat, pad: nat, v: Variant,
                  ghost slots0: Vm.Slots)
    returns (o: Status)
    requires pool.Valid() && InSegment(ph, q) && pad == PadAt(ph, q) && pad < PAGESIZE
    requires LoadedBelow(v, d, ph, off, q, pt.slots, pool.mem, pool.free, slots0)
    modifies pt, pool
    ensures pool.Valid() && PoolKept(old(pool.mem), old(pool.free), pool.mem, pool.free)
    ensures Vm.Took(old(pt.slots), old(pool.free), pt.slots, pool.free)
    ensures o == Done ==> LoadedBelow(v, d, ph, off, q + PAGESIZE, pt.slots, pool.mem, pool.free, slots0)
    ensures o == Panic ==> PagePanics(v, d, ph, off, q, pad)
    ensures o == Failed ==> pt.slots == old(pt.slots)
    ensures o == Failed && v == Corrected ==> pool.free == old(pool.free)
  {
    ghost var (s0, m0, f0) := (pt.slots, pool.mem, pool.free);
    var pg := pool.Alloc();
    if pg.None? {
      return Failed;
    }
    var p := pg.value;
    var built := BuildPage(pool.mem[p], d, ph, off, q, pad, v);
    if built.None? {
      return Panic;
    }
    pool.Write(p, built.value);
    var ok;
    if v == AsWritten {
      ok := Vm.MappgAsWritten(pt, pool, q, p, Vm.URWX);
    } else {
      ok := Vm.Mappg(pt, pool, q, p, Vm.URWX);
    }
    if !ok {
      return Failed;
    }
    assert Vm.Base(q, Vm.Normal) == q;
    assert Holds(pt.slots, pool.mem, pool.free, q, FillOf(v, d, ph, off, q));
    LoadedStep(v, d, ph, off, q, slots0, s0, m0, f0, pt.slots, pool.mem, pool.free);
    o := Done;
  }

  /**
   * One program header: its checks, then the page loop. When it carries on,
   * every page of a loadable segment holds what the loop built for it and no
   * other slot changed.
   */
  method LoadSegment(pt: Vm.Pagetable, pool: PagePool.Pool, d: seq<uint8>, ph: ProgHeader, off: nat, v: Variant)
    returns (o: Status)
    requires pool.Valid()
    modifies pt, pool
    ensures pool.Valid() && PoolKept(old(pool.mem), old(pool.free), pool.mem, pool.free)
    ensures Vm.Took(old(pt.slots), old(pool.free), pt.slots, pool.free)
    ensures CheckSegment(v, ph) == Skip ==> o == Done && pt.slots == old(pt.slots) && pool.free == old(pool.free)
    ensures CheckSegment(v, ph) == Reject ==> o == Failed && pt.slots == old(pt.slots) && pool.free == old(pool.free)
    ensures CheckSegment(v, ph) == Overflow ==> o == Panic
    ensures o == Panic ==> SegmentPanics(v, d, ph, off)
    ensures o == Done ==> SegmentLoaded(v, d, ph, off, old(pt.slots), pt.slots, pool.mem, pool.free)
  {
    var c := CheckSegment(v, ph);
    if c == Skip {
      return Done;
    } else if c == Reject {
      return Failed;
    } else if c == Overflow {
      return Panic;
    }
    o := MapPages(pt, pool, d, ph, off, v);
    if o == Done {
      forall q: nat | InSegment(ph, q)
        ensures Holds(pt.slots, pool.mem, pool.free, q, FillOf(v, d, ph, off, q))
      {
      }
    }
  }

  /**
   * Every page of the segment could be built: it passes its checks and the
   * page loop does not panic on any of its pages.
   */
  ghost predicate Built(v: Variant, d: seq<uint8>, ph: ProgHeader, off: nat)
  {
    CheckSegment(v, ph) == Go && forall q: nat | InSegment(ph, q) :: !PagePanics(v, d, ph, off, q, PadAt(ph, q))
  }

  /** Why a segment makes the loader panic: an overflow in its checks, or a page it cannot build. */
  ghost predicate SegmentPanics(v: Variant, d: seq<uint8>, ph: ProgHeader, off: nat)
  {
    || CheckSegment(v, ph) == Overflow
    || (CheckSegment(v, ph) == Go && exists q: nat | InSegment(ph, q) :: PagePanics(v, d, ph, off, q, PadAt(ph, q)))
  }

  /**
   * One program header was dealt with from slots0 on: a loadable segment was
   * built and its pages hold what the loop built for them; every other slot is
   * as it was.
   */
  ghost predicate SegmentLoaded(v: Variant, d: seq<uint8>, ph: ProgHeader, off: nat,
                                slots0: Vm.Slots, slots: Vm.Slots, mem: map<nat, seq<uint8>>, free: set<nat>)
  {
    && (Loadable(ph) ==> Built(v, d, ph, off))
    && (Loadable(ph) ==> forall q: nat | InSegment(ph, q) :: Holds(slots, mem, free, q, FillOf(v, d, ph, off, q)))
    && (forall k: nat | !(Loadable(ph) && InSegment(ph, k)) :: SameSlot(slots0, slots, k))
  }

  /**
   * The page loop of a segment that passed its checks: a page at a time from
   * `va_start` to `va_start + sz`, the first with `pad` zero bytes before the
   * segment starts.
   */
  method MapPages(pt: Vm.Pagetable, pool: PagePool.Pool, d: seq<uint8>, ph: ProgHeader, off: nat, v: Variant)
    returns (o: Status)
    requires pool.Valid() && CheckSegment(v, ph) == Go
    modifies pt, pool
    ensures pool.Valid() && PoolKept(old(pool.mem), old(pool.free), pool.mem, pool.free)
    ensures Vm.Took(old(pt.slots), old(pool.free), pt.slots, pool.free)
    ensures o == Done ==> LoadedBelow(v, d, ph, off, PageStart(ph) + Span(ph), pt.slots, pool.mem, pool.free, old(pt.slots))
    ensures o == Panic ==> exists q: nat | InSegment(ph, q) :: PagePanics(v, d, ph, off, q, PadAt(ph, q))
  {
    var pad := ph.vaddr % PAGESIZE;
    var start := ph.vaddr - pad;
    var sz := Max(ph.memsz + pad, PAGESIZE);
    var q := start;
    assert start % PAGESIZE == 0;
    while q < start + sz
      invariant start <= q && q % PAGESIZE == 0
      invariant pad == PadAt(ph, q) && pad < PAGESIZE
      invariant pool.Valid() && PoolKept(old(pool.mem), old(pool.free), pool.mem, pool.free)
      invariant Vm.Took(old(pt.slots), old(pool.free), pt.slots, pool.free)
      invariant LoadedBelow(v, d, ph, off, q, pt.slots, pool.mem, pool.free, old(pt.slots))
      decreases start + sz - q
    {
      ghost var (s1, f1) := (pt.slots, pool.free);
      o := LoadPage(pt, pool, d, ph, off, q, pad, v, old(pt.slots));
      Vm.TookTrans(old(pt.slots), old(pool.free), s1, f1, pt.slots, pool.free);
      if o != Done {
        return;
      }
      pad := 0;
      NextPage(q);
      q := q + PAGESIZE;
    }
    LoadedUpTo(v, d, ph, off, q, PageStart(ph) + Span(ph), pt.slots, pool.mem, pool.free, old(pt.slots));
    o := Done;
  }

  /** Past the last page, being loaded up to any later address is the same. */
  lemma LoadedUpTo(v: Variant, d: seq<uint8>, ph: ProgHeader, off: nat, q: nat, end: nat,
                   slots: Vm.Slots, mem: map<nat, seq<uint8>>, free: set<nat>, slots0: Vm.Slots)
    requires end == PageStart(ph) + Span(ph) && q >= end
    requires LoadedBelow(v, d, ph, off, q, slots, mem, free, slots0)
    ensures LoadedBelow(v, d, ph, off, end, slots, mem, free, slots0)
  {
  }

  /** The only page address in [q, q + PAGESIZE) is q. */
  lemma OnlyPage(q: nat, k: nat)
    requires q % PAGESIZE == 0 && k % PAGESIZE == 0 && q <= k < q + PAGESIZE
    ensures k == q
  {
  }

  lemma NextPage(q: nat)
    requires q % PAGESIZE == 0
    ensures (q + PAGESIZE) % PAGESIZE == 0
  {
  }
  // ---------------------------------------------------------------------------
  // The whole file.

  /** The program-header table, decoded. */
  function Table(d: seq<uint8>): (t: seq<ProgHeader>)
    requires HeadersInside(d) && Magic(d) == MAGIC
    ensures |t| == Phnum(d) && forall i | 0 <= i < |t| :: t[i] == Seg(d, i)
  {
    seq(Phnum(d), i requires 0 <= i < Phnum(d) => Seg(d, i))
  }

  /** The last of the first n program headers whose loadable segment maps page q. */
  function LastCover(t: seq<ProgHeader>, n: nat, q: nat): (r: Option<nat>)
    requires n <= |t|
    ensures r.Some? ==> r.value < n && Loadable(t[r.value]) && InSegment(t[r.value], q)
    ensures r.Some? ==> forall j | r.value < j < n :: !(Loadable(t[j]) && InSegment(t[j], q))
    ensures r.None? ==> forall j | 0 <= j < n :: !(Loadable(t[j]) && InSegment(t[j], q))
  {
    if n == 0 then None
    else if Loadable(t[n - 1]) && InSegment(t[n - 1], q) then Some(n - 1)
    else LastCover(t, n - 1, q)
  }

  /**
   * What page q holds after the first n program headers, the table being at
   * `phoff`: the page its last covering segment built.
   */
  function CoverFill(v: Variant, d: seq<uint8>, t: seq<ProgHeader>, phoff: nat, n: nat, q: nat): Option<seq<uint8>>
    requires n <= |t| && LastCover(t, n, q).Some?
  {
    var j := LastCover(t, n, q).value;
    FillOf(v, d, t[j], phoff + j * PHDR_SIZE, q)
  }

  lemma CoverFillAt(v: Variant, d: seq<uint8>, t: seq<ProgHeader>, phoff: nat, n: nat, q: nat, j: nat)
    requires n <= |t| && LastCover(t, n, q) == Some(j)
    ensures CoverFill(v, d, t, phoff, n, q) == FillOf(v, d, t[j], phoff + j * PHDR_SIZE, q)
  {
  }

  lemma SegmentHolds(v: Variant, d: seq<uint8>, ph: ProgHeader, off: nat,
                     slots0: Vm.Slots, slots: Vm.Slots, mem: map<nat, seq<uint8>>, free: set<nat>, q: nat)
    requires SegmentLoaded(v, d, ph, off, slots0, slots, mem, free) && Loadable(ph) && InSegment(ph, q)
    ensures Holds(slots, mem, free, q, FillOf(v, d, ph, off, q))
  {
  }

  /** `brk` after the first n program headers: the highest end of a loadable segment, 0 if there is none. */
  function Brk(t: seq<ProgHeader>, n: nat): (b: nat)
    requires n <= |t|
    ensures forall j | 0 <= j < n && Loadable(t[j]) :: t[j].vaddr + t[j].memsz <= b
    ensures b == 0 || exists j | 0 <= j < n :: Loadable(t[j]) && b == t[j].vaddr + t[j].memsz
  {
    if n == 0 then 0
    else if Loadable(t[n - 1]) then Max(t[n - 1].vaddr + t[n - 1].memsz, Brk(t, n - 1))
    else Brk(t, n - 1)
  }

  /**
   * The first i program headers of t, at `phoff`, were dealt with from slots0
   * on: each loadable segment was built, each page one of them maps holds what
   * its last covering segment built, and every other slot is as it was.
   */
  ghost predicate SegmentsLoaded(v: Variant, d: seq<uint8>, t: seq<ProgHeader>, phoff: nat, i: nat,
                                 slots: Vm.Slots, mem: map<nat, seq<uint8>>, free: set<nat>, slots0: Vm.Slots)
    requires i <= |t|
  {
    && (forall j | 0 <= j < i && Loadable(t[j]) :: Built(v, d, t[j], phoff + j * PHDR_SIZE))
    && (forall q: nat | LastCover(t, i, q).Some? :: Holds(slots, mem, free, q, CoverFill(v, d, t, phoff, i, q)))
    && (forall q: nat | LastCover(t, i, q).None? :: SameSlot(slots0, slots, q))
  }

  /** Before the first program header nothing is loaded. */
  lemma NothingLoaded(v: Variant, d: seq<uint8>, t: seq<ProgHeader>, phoff: nat,
                      slots: Vm.Slots, mem: map<nat, seq<uint8>>, free: set<nat>)
    ensures SegmentsLoaded(v, d, t, phoff, 0, slots, mem, free, slots)
  {
  }

  /** Dealing with program header i extends what is loaded by its segment. */
  lemma SegmentsStep(v: Variant, d: seq<uint8>, t: seq<ProgHeader>, phoff: nat, i: nat, slots0: Vm.Slots,
                     s: Vm.Slots, m: map<nat, seq<uint8>>, f: set<nat>,
                     s': Vm.Slots, m': map<nat, seq<uint8>>, f': set<nat>)
    requires i < |t|
    requires SegmentsLoaded(v, d, t, phoff, i, s, m, f, slots0)
    requires PoolKept(m, f, m', f')
    requires SegmentLoaded(v, d, t[i], phoff + i * PHDR_SIZE, s, s', m', f')
    ensures SegmentsLoaded(v, d, t, phoff, i + 1, s', m', f', slots0)
  {
    var n := i + 1;
    forall q: nat | LastCover(t, n, q).Some?
      ensures Holds(s', m', f', q, CoverFill(v, d, t, phoff, n, q))
    {
      if Loadable(t[i]) && InSegment(t[i], q) {
        CoverHit(v, d, t, phoff, i, s, s', m', f', q);
      } else {
        assert SameSlot(s, s', q);
        CoverMiss(v, d, t, phoff, i, s, m, f, s', m', f', q);
      }
    }
    forall q: nat | LastCover(t, n, q).None?
      ensures SameSlot(slots0, s', q)
    {
      assert LastCover(t, i, q).None?;
      assert SameSlot(s, s', q);
    }
  }

  /** A page segment i maps holds, after it, what segment i built for it. */
  lemma CoverHit(v: Variant, d: seq<uint8>, t: seq<ProgHeader>, phoff: nat, i: nat,
                 s: Vm.Slots, s': Vm.Slots, m': map<nat, seq<uint8>>, f': set<nat>, q: nat)
    requires i < |t| && Loadable(t[i]) && InSegment(t[i], q)
    requires SegmentLoaded(v, d, t[i], phoff + i * PHDR_SIZE, s, s', m', f')
    ensures LastCover(t, i + 1, q).Some? && Holds(s', m', f', q, CoverFill(v, d, t, phoff, i + 1, q))
  {
    assert LastCover(t, i + 1, q) == Some(i);
    CoverFillAt(v, d, t, phoff, i + 1, q, i);
    SegmentHolds(v, d, t[i], phoff + i * PHDR_SIZE, s, s', m', f', q);
  }

  /** A page segment i does not map keeps what it held. */
  lemma CoverMiss(v: Variant, d: seq<uint8>, t: seq<ProgHeader>, phoff: nat, i: nat,
                  s: Vm.Slots, m: map<nat, seq<uint8>>, f: set<nat>,
                  s': Vm.Slots, m': map<nat, seq<uint8>>, f': set<nat>, q: nat)
    requires i < |t| && !(Loadable(t[i]) && InSegment(t[i], q)) && LastCover(t, i, q).Some?
    requires Holds(s, m, f, q, CoverFill(v, d, t, phoff, i, q))
    requires PoolKept(m, f, m', f') && SameSlot(s, s', q)
    ensures Holds(s', m', f', q, CoverFill(v, d, t, phoff, i + 1, q))
  {
    assert LastCover(t, i + 1, q) == LastCover(t, i, q);
    CoverFillSame(v, d, t, phoff, i, i + 1, q);
    StillHolds(s, m, f, s', m', f', q, CoverFill(v, d, t, phoff, i, q));
  }

  lemma CoverFillSame(v: Variant, d: seq<uint8>, t: seq<ProgHeader>, phoff: nat, n: nat, n': nat, q: nat)
    requires n <= |t| && n' <= |t| && LastCover(t, n, q).Some? && LastCover(t, n, q) == LastCover(t, n', q)
    ensures CoverFill(v, d, t, phoff, n, q) == CoverFill(v, d, t, phoff, n', q)
  {
  }

  /**
   * One turn of the loop over the program headers t, the table being at
   * `phoff`: header i dealt with, and `brk` raised to the end of its segment
   * if it is loadable.
   */
  method LoadHeader(pt: Vm.Pagetable, pool: PagePool.Pool, d: seq<uint8>, v: Variant, t: seq<ProgHeader>,
                    phoff: nat, i: nat, brk: nat, ghost slots0: Vm.Slots)
    returns (o: Status, brk': nat)
    requires i < |t| && pool.Valid() && brk == Brk(t, i)
    requires SegmentsLoaded(v, d, t, phoff, i, pt.slots, pool.mem, pool.free, slots0)
    modifies pt, pool
    ensures pool.Valid() && PoolKept(old(pool.mem), old(pool.free), pool.mem, pool.free)
    ensures Vm.Took(old(pt.slots), old(pool.free), pt.slots, pool.free)
    ensures o == Done ==> brk' == Brk(t, i + 1)
    ensures o == Done ==> SegmentsLoaded(v, d, t, phoff, i + 1, pt.slots, pool.mem, pool.free, slots0)
    ensures o == Panic ==> SegmentPanics(v, d, t[i], phoff + i * PHDR_SIZE)
  {
    var ph := t[i];
    o := LoadSegment(pt, pool, d, ph, phoff + i * PHDR_SIZE, v);
    brk' := brk;
    if o == Done {
      SegmentsStep(v, d, t, phoff, i, slots0, old(pt.slots), old(pool.mem), old(pool.free), pt.slots, pool.mem, pool.free);
      if Loadable(ph) {
        brk' := Max(ph.vaddr + ph.memsz, brk);
      }
    }
  }

  /**
   * `load64`: None when the magic does not match, with nothing changed;
   * otherwise each program header in turn, read in place. On success the
   * result is the entry point and `brk`, every loadable segment was built,
   * every page a loadable segment maps holds what its last covering segment
   * built for it with URWX, and no other slot changed. A panic is always down
   * to a segment that overflows or has a page the loop cannot build.
   */
  method Load64(pt: Vm.Pagetable, pool: PagePool.Pool, d: seq<uint8>, v: Variant) returns (r: LoadResult)
    requires pool.Valid() && HeadersInside(d)
    modifies pt, pool
    ensures pool.Valid() && PoolKept(old(pool.mem), old(pool.free), pool.mem, pool.free)
    ensures Vm.Took(old(pt.slots), old(pool.free), pt.slots, pool.free)
    ensures Magic(d) != MAGIC ==> r == Rejected && pt.slots == old(pt.slots) && pool.mem == old(pool.mem) && pool.free == old(pool.free)
    ensures r.Loaded? ==> Magic(d) == MAGIC && r.entry == Entry(d) && r.brk == Brk(Table(d), Phnum(d))
    ensures r.Loaded? ==> SegmentsLoaded(v, d, Table(d), Phoff(d), Phnum(d), pt.slots, pool.mem, pool.free, old(pt.slots))
    ensures r == Panicked ==>
      Magic(d) == MAGIC && exists j | 0 <= j < Phnum(d) :: SegmentPanics(v, d, Table(d)[j], Phoff(d) + j * PHDR_SIZE)
  {
    if Magic(d) != MAGIC {
      return Rejected;
    }
    var o, brk := LoadHeaders(pt, pool, d, v, Table(d), Phoff(d));
    if o == Done {
      r := Loaded(Entry(d), brk);
    } else if o == Failed {
      r := Rejected;
    } else {
      r := Panicked;
    }
  }

  /** The loop over the program headers t, the table being at `phoff`. */
  method LoadHeaders(pt: Vm.Pagetable, pool: PagePool.Pool, d: seq<uint8>, v: Variant, t: seq<ProgHeader>, phoff: nat)
    returns (o: Status, brk: nat)
    requires pool.Valid()
    modifies pt, pool
    ensures pool.Valid() && PoolKept(old(pool.mem), old(pool.free), pool.mem, pool.free)
    ensures Vm.Took(old(pt.slots), old(pool.free), pt.slots, pool.free)
    ensures o == Done ==> brk == Brk(t, |t|)
    ensures o == Done ==> SegmentsLoaded(v, d, t, phoff, |t|, pt.slots, pool.mem, pool.free, old(pt.slots))
    ensures o == Panic ==> exists j | 0 <= j < |t| :: SegmentPanics(v, d, t[j], phoff + j * PHDR_SIZE)
  {
    brk := 0;
    var i := 0;
    NothingLoaded(v, d, t, phoff, pt.slots, pool.mem, pool.free);
    while i < |t|
      invariant i <= |t|
      invariant pool.Valid() && PoolKept(old(pool.mem), old(pool.free), pool.mem, pool.free)
      invariant Vm.Took(old(pt.slots), old(pool.free), pt.slots, pool.free)
      invariant brk == Brk(t, i)
      invariant SegmentsLoaded(v, d, t, phoff, i, pt.slots, pool.mem, pool.free, old(pt.slots))
    {
      ghost var (s1, f1) := (pt.slots, pool.free);
      o, brk := LoadHeader(pt, pool, d, v, t, phoff, i, brk, old(pt.slots));
      Vm.TookTrans(old(pt.slots), old(pool.free), s1, f1, pt.slots, pool.free);
      if o != Done {
        return;
      }
      i := i + 1;
    }
    o := Done;
  }
  // ---------------------------------------------------------------------------
  // What the loaded pages hold.

  /** The page at q as the segment lays it out: byte j is the image byte at q + j. */
  function ImagePage(d: seq<uint8>, ph: ProgHeader, q: nat): (p: seq<uint8>)
    requires ph.offset + ph.filesz <= |d|
    ensures |p| == PAGESIZE
  {
    seq<uint8>(PAGESIZE, j requires 0 <= j < PAGESIZE => ImageByte(d, ph, q + j))
  }

  /**
   * The corrected loop builds every page of a segment whose file bytes lie
   * inside the data, and the page is the segment's image there: zeros before
   * vaddr, then the file bytes, then zeros up to memsz and beyond.
   */
  lemma {:induction false} CorrectedPageImage(d: seq<uint8>, ph: ProgHeader, off: nat, q: nat)
    requires InSegment(ph, q) && ph.offset + ph.filesz <= |d|
    ensures FillOf(Corrected, d, ph, off, q) == Some(ImagePage(d, ph, q))
  {
    var pad := PadAt(ph, q);
    var at := q + pad;
    if q != PageStart(ph) {
      if q < PageStart(ph) + PAGESIZE {
        OnlyPage(PageStart(ph), q);
      }
    }
    assert at >= ph.vaddr;
    var soff := at - ph.vaddr;
    var want := ImagePage(d, ph, q);
    if ph.filesz <= soff {
      forall j | 0 <= j < PAGESIZE
        ensures want[j] == 0
      {
        assert want[j] == ImageByte(d, ph, q + j);
        assert q + j < ph.vaddr || q + j >= ph.vaddr + ph.filesz;
      }
      assert want == Zeros(PAGESIZE);
    } else {
      var n := Min(PAGESIZE - pad, ph.filesz - soff);
      var start := ph.offset + soff;
      var w := Window(d, start, pad, n);
      forall j | 0 <= j < PAGESIZE
        ensures w[j] == want[j]
      {
        assert want[j] == ImageByte(d, ph, q + j);
        if pad <= j < pad + n {
          assert q + j == ph.vaddr + soff + (j - pad);
        } else if j < pad {
          assert q + j < ph.vaddr;
        } else {
          assert q + j >= ph.vaddr + ph.filesz;
        }
      }
      assert w == want;
    }
  }

  /**
   * Under the corrected loop, a segment whose file bytes lie inside the data
   * makes the loader panic only when its page range overflows.
   */
  lemma CorrectedPanicsOnlyOnOverflow(d: seq<uint8>, ph: ProgHeader, off: nat)
    requires ph.offset + ph.filesz <= |d|
    ensures SegmentPanics(Corrected, d, ph, off) <==> CheckSegment(Corrected, ph) == Overflow
    ensures CheckSegment(Corrected, ph) == Go ==> Built(Corrected, d, ph, off)
  {
    forall q: nat | InSegment(ph, q)
      ensures !PagePanics(Corrected, d, ph, off, q, PadAt(ph, q))
    {
      CorrectedPageImage(d, ph, off, q);
    }
  }

  /**
   * As written, `va - vaddr` underflows on the first page of a segment whose
   * vaddr is not page-aligned, so the loop cannot build it.
   */
  lemma UnalignedFirstPagePanics(d: seq<uint8>, ph: ProgHeader, off: nat)
    requires ph.vaddr % PAGESIZE != 0
    ensures PagePanics(AsWritten, d, ph, off, PageStart(ph), PadAt(ph, PageStart(ph)))
    ensures !Built(AsWritten, d, ph, off)
  {
    assert InSegment(ph, PageStart(ph));
  }

  /** Hence the loader as written succeeds only where every loadable segment is page-aligned. */
  lemma AsWrittenLoadsOnlyAligned(d: seq<uint8>, t: seq<ProgHeader>, phoff: nat, n: nat,
                                  slots: Vm.Slots, mem: map<nat, seq<uint8>>, free: set<nat>, slots0: Vm.Slots)
    requires n <= |t| && SegmentsLoaded(AsWritten, d, t, phoff, n, slots, mem, free, slots0)
    ensures forall j | 0 <= j < n && Loadable(t[j]) :: t[j].vaddr % PAGESIZE == 0
  {
    forall j | 0 <= j < n && Loadable(t[j])
      ensures t[j].vaddr % PAGESIZE == 0
    {
      if t[j].vaddr % PAGESIZE != 0 {
        UnalignedFirstPagePanics(d, t[j], phoff + j * PHDR_SIZE);
        assert false;
      }
    }
  }

  /**
   * As written, the length copied into a page is bounded by `filesz - off`:
   * with the program headers at offset 64 and a one-page segment of 0x100 file
   * bytes, only 0xC0 bytes are copied and byte 0xC0 of the page is zero where
   * the file holds 7; the corrected loop copies it.
   */
  lemma HeaderOffsetCounterexample()
    ensures var d: seq<uint8> := seq(0x2000, _ => 7);
      var ph := ProgHeader(PROG_LOAD, 0x1000, 0x10000, 0x100, 0x100);
      && CheckSegment(AsWritten, ph) == Go
      && FillOf(AsWritten, d, ph, 64, 0x10000).Some?
      && FillOf(AsWritten, d, ph, 64, 0x10000).value[0xC0] == 0
      && ImageByte(d, ph, 0x10000 + 0xC0) == 7
      && FillOf(Corrected, d, ph, 64, 0x10000) == Some(ImagePage(d, ph, 0x10000))
  {
    var d: seq<uint8> := seq(0x2000, _ => 7);
    var ph := ProgHeader(PROG_LOAD, 0x1000, 0x10000, 0x100, 0x100);
    assert PadAt(ph, 0x10000) == 0;
    assert FillOf(AsWritten, d, ph, 64, 0x10000) == Some(Window(d, 0x1000, 0, 0xC0));
    CorrectedPageImage(d, ph, 64, 0x10000);
  }

  /**
   * Under overflow checks `vaddr + memsz` panics before the comparison meant
   * to catch its wrap-around can run; the corrected check rejects the segment.
   */
  lemma WrapCheck(ph: ProgHeader)
    requires Loadable(ph) && ph.filesz <= ph.memsz && ph.vaddr + ph.memsz >= U64_LIMIT
    ensures CheckSegment(AsWritten, ph) == Overflow && CheckSegment(Corrected, ph) == Reject
  {
  }
}
