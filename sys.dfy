/** Unit helpers and memory-layout constants of the kernel (kernel/sys.rs). */
module Sys {
  import opened Types

  /** Size in bytes of a page, which is also the size of a Normal-level (4 KiB) leaf. */
  const PAGESIZE: nat := 4096

  /** First high canonical kernel address; the kernel maps physical memory from here on. */
  const HIGHMEM_BASE: nat := 0xffff_ffc0_0000_0000

  /** `mb(n)`: n mebibytes in bytes. The u64 product must not overflow. */
  function Mb(n: uint64): (r: uint64)
    requires 1024 * 1024 * n < U64_LIMIT
    ensures r % PAGESIZE == 0 && r / PAGESIZE == 256 * n
  {
    1024 * 1024 * n
  }

  /** `gb(n)`: n gibibytes in bytes, i.e. 1024 mebibytes per gibibyte. */
  function Gb(n: uint64): (r: uint64)
    requires 1024 * 1024 * 1024 * n < U64_LIMIT
    ensures r == 1024 * Mb(n)
  {
    1024 * 1024 * 1024 * n
  }

  /** The high-memory window starts on a page boundary and leaves room for 256 GiB above it. */
  lemma HighmemLayout()
    ensures HIGHMEM_BASE % PAGESIZE == 0
    ensures HIGHMEM_BASE + Gb(256) == U64_LIMIT
  {
  }
}
