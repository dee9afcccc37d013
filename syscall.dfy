/**
 * System-call dispatch (kernel/syscall.rs): a decision on the call number, and
 * the argument checks of `write`, whose only effect is handing a byte range to
 * the UART.
 */
module Syscall {
  import opened Types
  import ProcLayout

  // `num`: the call numbers.
  const SYS_WRITE: nat := 0
  const SYS_GETPID: nat := 1
  const SYS_SBRK: nat := 5

  // `err`: the error returns.
  const BADF: int := -9
  const NO_SYS: int := -38
  const FAULT: int := -14

  const I32_BASE: nat := 0x1_0000_0000
  const ISIZE_BASE: nat := 0x1_0000_0000_0000_0000

  /** The bytes [addr, addr + size) a successful `write` sends to the UART. */
  datatype Range = Range(addr: nat, size: nat)

  /** What a system call returns in a0, and the range it wrote, if any. */
  datatype SysResult = SysResult(ret: int, written: Option<Range>)

  /** `x as i32`: the low 32 bits, read as two's complement. */
  function AsI32(x: uint64): (r: int32)
    ensures r % I32_BASE == x % I32_BASE
  {
    var low := x % I32_BASE;
    if low < 0x8000_0000 then low else low - I32_BASE
  }

  /** `x as isize` for a usize x: values from 2^63 on read as negative. */
  function AsIsize(x: uint64): (r: int)
    ensures -0x8000_0000_0000_0000 <= r < 0x8000_0000_0000_0000
    ensures r % ISIZE_BASE == x
  {
    if x < 0x8000_0000_0000_0000 then x else x - ISIZE_BASE
  }

  /** `addr.wrapping_add(sz)`: the sum when it fits in 64 bits, and 2^64 less otherwise. */
  function WrappingAdd(a: uint64, b: uint64): (r: uint64)
    ensures a + b < U64_LIMIT ==> r == a + b
    ensures a + b >= U64_LIMIT ==> r == a + b - U64_LIMIT
  {
    (a + b) % U64_LIMIT
  }

  /**
   * `sys_write(fd, addr, sz)`: an empty write succeeds before anything is
   * checked; a range that wraps around the address space or starts at or past
   * MAX_VA is a fault whatever the descriptor; only then is a descriptor other
   * than 1 refused; a write that passes sends exactly [addr, addr + sz) and
   * returns sz read as an isize.
   */
  function SysWrite(fd: int32, addr: uint64, sz: uint64): (r: SysResult)
    ensures sz == 0 ==> r == SysResult(0, None)
    ensures sz > 0 && (addr + sz >= U64_LIMIT || addr >= ProcLayout.MAX_VA) ==> r == SysResult(FAULT, None)
    ensures sz > 0 && addr + sz < U64_LIMIT && addr < ProcLayout.MAX_VA && fd != 1 ==> r == SysResult(BADF, None)
    ensures r.written.Some? <==> sz > 0 && addr + sz < U64_LIMIT && addr < ProcLayout.MAX_VA && fd == 1
    ensures r.written.Some? ==> r.written.value == Range(addr, sz) && r.ret % ISIZE_BASE == sz
  {
    if sz == 0 then SysResult(0, None)
    else
      WrapMeansOverflow(addr, sz);
      if WrappingAdd(addr, sz) < addr || addr >= ProcLayout.MAX_VA then SysResult(FAULT, None)
      else if fd != 1 then SysResult(BADF, None)
      else SysResult(AsIsize(sz), Some(Range(addr, sz)))
  }

  /** `sys_sbrk`: not implemented; it always fails, with a negative result. */
  function SysSbrk(): (r: int)
    ensures r < 0
  {
    -1
  }

  /**
   * `syscall(p, sysno)` for a process with the given pid and argument registers
   * a0..a2: only numbers 0, 1 and 5 are system calls, any other returns NO_SYS;
   * only `write` can send bytes, and it sees the low 32 bits of a0 as its
   * descriptor.
   */
  function Dispatch(pid: uint32, sysno: uint64, a0: uint64, a1: uint64, a2: uint64): (r: SysResult)
    ensures sysno == SYS_GETPID ==> r == SysResult(pid, None)
    ensures sysno == SYS_WRITE ==> r == SysWrite(AsI32(a0), a1, a2)
    ensures sysno == SYS_SBRK ==> r == SysResult(-1, None)
    ensures sysno !in {SYS_WRITE, SYS_GETPID, SYS_SBRK} ==> r == SysResult(NO_SYS, None)
    ensures r.written.Some? ==> sysno == SYS_WRITE && a0 % I32_BASE == 1
  {
    match sysno
    case 1 => SysResult(pid, None)
    case 0 => SysWrite(AsI32(a0), a1, a2)
    case 5 => SysResult(SysSbrk(), None)
    case _ => SysResult(NO_SYS, None)
  }

  // ---------------------------------------------------------------------------
  // Properties.

  /** The wrapped sum is below addr exactly when the true sum leaves the 64-bit range. */
  lemma WrapMeansOverflow(addr: uint64, sz: uint64)
    requires sz > 0
    ensures WrappingAdd(addr, sz) < addr <==> addr + sz >= U64_LIMIT
  {
    if addr + sz >= U64_LIMIT {
      assert WrappingAdd(addr, sz) == addr + sz - U64_LIMIT;
    } else {
      assert WrappingAdd(addr, sz) == addr + sz;
    }
  }

  /** A successful write of fewer than 2^63 bytes returns its size; a larger one returns a negative number. */
  lemma WriteReturnsSize(addr: uint64, sz: uint64)
    requires SysWrite(1, addr, sz).written.Some?
    ensures sz < 0x8000_0000_0000_0000 ==> SysWrite(1, addr, sz).ret == sz
    ensures sz >= 0x8000_0000_0000_0000 ==> SysWrite(1, addr, sz).ret < 0
  {
  }

  /** `write` sees descriptor 1 exactly when the low 32 bits of a0 are 1, whatever the high bits. */
  lemma DescriptorFromLowBits(a0: uint64)
    ensures AsI32(a0) == 1 <==> a0 % I32_BASE == 1
  {
  }
}
