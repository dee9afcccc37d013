# rustiplix kernel core in Dafny

This project models the core of rustiplix, a small RISC-V (riscv64) kernel written in Rust, together with its UART bootloader. It proves properties of that model. The parts modelled are:

- **Sys** (`sys.dfy`, kernel/sys.rs). The size helpers `mb`/`gb`, `PAGESIZE` and `HIGHMEM_BASE`.
- **Mem** (`mem.dfy`, kernel/builtin/mem.rs). The kernel's `memset`. It works on a byte array, fills a range and returns the address one past the range; unlike C's `memset`, the source does not return `v`.
- **Crc** (`crc.dfy`, kernel/crc.rs). The table-driven CRC-32:
  - the table is built by eight rounds of the reflected polynomial per entry;
  - the byte-at-a-time loop is proved to compute the bitwise definition of the checksum.
- **BitIndex** (`bit.dfy`, kernel/bit.rs). The `BitIndex` trait for the unsigned integer types: `bit`, `bit_range`, `set_bit` and `set_bit_range`, including the panics they raise. The operators are defined bit by bit on natural numbers of a given width.
- **Backtrace** (`backtrace.dfy`, kernel/builtin/backtrace.rs). The frame-pointer walk of `backtrace_internal`:
  - it skips `suppress` frames and records at most ten return addresses;
  - it stops on an invalid frame, a zero address or a repeated address;
  - it panics where the Rust `suppress -= 1` overflows.
- **Syscall** (`syscall.dfy`, kernel/syscall.rs). System-call dispatch and `sys_write`'s argument checks.
- **Uart** (`uart.dfy`, bootloader/uart.rs). The bootloader's `recv` protocol over a UART:
  - the host's input bytes and the answers of `rx_empty()` are known in advance;
  - the little-endian word codecs are proved to be inverses;
  - a protocol-following host is proved to get its image booted, and a booted image is proved to carry the CRC the host announced.
- **ProcLayout and Proc** (`proclayout.dfy`, `proc.dfy`, kernel/proc.rs):
  - the process object, its pid counter and its stack canary;
  - creating a process from its parent (copying every user page) or from an ELF image (loading the segments and mapping a zeroed user stack);
  - dropping a process, which frees every page the iterator yields (the valid normal pages below `MAX_VA`); a page mapped at or above `MAX_VA` is never freed;
  - `mappg` as written, which loses the page of a failed map: copying from a parent and mapping the stack may each lose one page on failure.
- **Schedule** (`schedule.dfy`, kernel/schedule.rs and the queue operations of kernel/proc.rs):
  - the intrusive doubly linked process queue, as a class whose `next`/`prev` links are tied to a ghost sequence;
  - `wait`, `block`, `exit` and the scheduler's requeue rule, which drops a process that is not Runnable;
  - a first-in-first-out lemma for `push_front`/`pop_back`.
- **Vm** (`vm.dfy`, kernel/vm.rs):
  - permission bits and the kernel/physical address conversions;
  - `mappg`;
  - the page-table iterator `PtIter`, which is proved to yield exactly the valid leaf mappings below `MAX_VA`, in address order.
- **Elf** (`elf.dfy`, kernel/elf.rs). `load64`, the ELF-64 loader. Each loadable segment is mapped page by page, with its file bytes copied in and the rest zeroed. The loader is modelled as written and also as intended, with its two offset computations and `mappg` corrected; see Findings.
- **PagePool** (`pagepool.dfy`). The page allocator as the kernel code above uses it: `kallocpage`, `zallocpage` and `kfree` over a set of free pages and their contents.
- **FreeLists and Kalloc** (`freelists.dfy`, `kalloc.dfy`, kernel/kalloc/pg.rs and kernel/kalloc/kr.rs). The two K&R free-list allocators. They are the same code with a different header size (4096 bytes for pages, 16 bytes in general), so both are one `Allocator` class whose header size is a field. The model keeps the allocator's invariant:
  - the free list is circular and in address order from the sentinel `base`;
  - neighbouring free blocks are always merged;
  - the free blocks and the blocks handed out tile the claimed part of the arena without overlapping.

  `alloc` is proved to take the first block that fits, and to grow the arena exactly when none fits. `dealloc` is proved to put the block back in order, merged with its neighbours.

kernel/kalloc/kr.rs repeats pg.rs line for line. In kr.rs, `new_uninit` is at 21-31, `sbrk` at 33-41, `morecore` at 44-60, `init` at 62-67, `alloc` at 69-109 and `dealloc` at 111-140. The rows below cite pg.rs, except the rows for `Prime` and `Take`, which cite kr.rs.

## Model

| member | source | states |
|---|---|---|
| `Sys.Mb` | kernel/sys.rs:5-7 | `mb(n)` is a whole number of pages: 256·n of them |
| `Sys.Gb` | kernel/sys.rs:1-3 | `gb(n)` is 1024 times `mb(n)` |
| `Sys.HighmemLayout` | kernel/sys.rs:9-10 | `HIGHMEM_BASE` is page-aligned, and the high kernel map of 256 GiB ends exactly at the top of the 64-bit address space |
| `Mem.Filled` | kernel/builtin/mem.rs:2-9 | bytes [v, v+n) become c; every other byte is unchanged; the length is kept |
| `Mem.FilledNothing` | kernel/builtin/mem.rs:2-9 | filling zero bytes changes nothing |
| `Mem.Memset` | kernel/builtin/mem.rs:2-9 | the array afterwards is `Filled` of its old contents, and the result is v+n, the address one past the range (not v, as C's memset would return) |
| `ProcLayout.StackLayout` | kernel/proc.rs:59-65 | `STACK_VA` and `MAX_VA` are page-aligned; `MAX_VA` is 0x7fff_1000, below 2 GiB |
| `Crc.Round` | kernel/crc.rs:6 | one round of shift-and-conditionally-xor keeps a 32-bit value within 32 bits |
| `Crc.TableFn` | kernel/crc.rs:4-15 | `table_fn` of a 32-bit index is a 32-bit value |
| `Crc.TableFnUnrolled` | kernel/crc.rs:4-15 | a table entry is eight rounds of shift-and-conditionally-xor-the-polynomial on its index |
| `Crc.GetTable` | kernel/crc.rs:16-24 | the loop fills all 256 entries with `table_fn(i)`: the table is `TABLE` |
| `Crc.TableAt` | kernel/crc.rs:25 | `TABLE` has 256 entries, entry i being `table_fn(i)` |
| `Crc.TableEntries` | kernel/crc.rs:4-25 | every entry is eight rounds of its index and fits in 32 bits |
| `Crc.Crc32` | kernel/crc.rs:27-35 | the table-driven loop, starting from all ones and complemented at the end, returns the bitwise CRC-32 `Checksum` of the buffer, a 32-bit value |
| `Crc.LoopStep` | kernel/crc.rs:31 | one table lookup `(out >> 8) ^ TABLE[(out & 0xff) ^ b]` advances the register exactly as eight bitwise rounds over byte b do; the index is below 256 |
| `Crc.TableStep` | kernel/crc.rs:31 | the table step equals the bitwise step `Step` for every 32-bit register and byte |
| `Crc.TableIndexInRange` | kernel/crc.rs:31 | the table index never leaves the 256 entries |
| `Crc.AllOnes` | kernel/crc.rs:28 | `!0u32`, the register's starting value, is 0xFFFF_FFFF |
| `Crc.ChecksumEmpty` | kernel/crc.rs:27-35 | the CRC-32 of the empty buffer is 0 |
| `Crc.RegisterAppend` | kernel/crc.rs:28-33 | the checksum register over a+b is the register over b started from the register over a (streaming) |
| `Crc.RoundsXor` | kernel/crc.rs:4-15 | the rounds are linear: rounds of x xor y are the xor of the rounds |
| `Crc.RoundsOfHigh` | kernel/crc.rs:4-15 | k rounds on a value whose low k bits are zero are a plain right shift by k |
| `Crc.SplitByte` | kernel/crc.rs:31 | a register xor a byte splits into the table index and the shifted high part, which has no low byte |
| `Crc.RoundBits` | kernel/crc.rs:6-13 | bit i after one round is bit i+1 of the input, flipped by the polynomial's bit i when bit 0 was set |
| `BitIndex.BitLength` | kernel/bit.rs:76-78 | the type's bit length is the width of its range: 2^len is its maximum plus one |
| `BitIndex.WidthOf` | kernel/bit.rs:76-78 | `bit_length` is 8 times the byte size: 8, 16, 32 or 64 |
| `BitIndex.Bit` | kernel/bit.rs:81-84 | `bit(pos)` is the pos-th binary digit of x |
| `BitIndex.BitProbe` | kernel/bit.rs:81-84 | the source's test `x & (1 << pos) != 0` is exactly that digit |
| `BitIndex.BitRange` | kernel/bit.rs:87-92 | `bit_range(s..e)` is the e−s low bits of x shifted right by s |
| `BitIndex.BitRangeMeaning` | kernel/bit.rs:87-92 | the source's shift-left-then-shift-right computes that value |
| `BitIndex.BitRangeValue` | kernel/bit.rs:87-92 | `bit_range(s..e)` is (x / 2^s) mod 2^(e−s) |
| `BitIndex.SetBit` | kernel/bit.rs:95-101 | the result stays within the type |
| `BitIndex.SetBitBits` | kernel/bit.rs:95-101 | after `set_bit(pos, v)` digit pos is v and every other digit is unchanged |
| `BitIndex.SetBitThenBit` | kernel/bit.rs:95-101 | reading back a bit just set gives the value written; other bits read as before |
| `BitIndex.FillBits` | kernel/bit.rs:99 | the all-ones or all-zeros mask `set_bit` xors with has every digit equal to v |
| `BitIndex.SetBitRange` | kernel/bit.rs:104-112 | the result stays within the type |
| `BitIndex.SetBitRangeFit` | kernel/bit.rs:107 | `set_bit_range` passes its assert exactly when the range is narrower than the type and v fits in it |
| `BitIndex.FullWidthSetBitRangePanics` | kernel/bit.rs:107 | a range covering the whole type always panics: the fit check calls `val.bit_range(len..len)`, an empty range that the assert of `bit_range` (kernel/bit.rs:89) rejects |
| `BitIndex.RangeMask` | kernel/bit.rs:109 | the mask `!(max.bit_range(s..e) << s)` stays within the type |
| `BitIndex.RangeMaskBit` | kernel/bit.rs:109 | the mask clears exactly the digits in [s, e) |
| `BitIndex.SetBitRangeBits` | kernel/bit.rs:104-112 | after `set_bit_range(s..e, v)` digit i in [s, e) is digit i−s of v; every other digit is unchanged |
| `BitIndex.SetBitRangeThenBitRange` | kernel/bit.rs:104-112 | reading back the range just written gives v |
| `BitIndex.SetBitRangeFrame` | kernel/bit.rs:104-112 | bits outside the written range are unchanged |
| `BitIndex.SetBitRangeSame` | kernel/bit.rs:104-112 | writing back a range's own value leaves x unchanged |
| `BitIndex.WrappingSub` | kernel/bit.rs:99 | `wrapping_sub` stays within the type |
| `BitIndex.WrappingSubMeaning` | kernel/bit.rs:99 | `wrapping_sub` is subtraction modulo 2^len |
| `BitIndex.Shl` | kernel/bit.rs:91 | `<<` stays within the type |
| `BitIndex.Shr` | kernel/bit.rs:91 | `>>` never increases the value |
| `BitIndex.ShlMeaning` | kernel/bit.rs:91 | `<<` is multiplication by 2^k truncated to the width |
| `BitIndex.ShrMeaning` | kernel/bit.rs:91 | `>>` is division by 2^k |
| `BitIndex.LowMeaning` | kernel/bit.rs:109-110 | keeping the low n bits is reduction modulo 2^n |
| `Backtrace.Layout` | kernel/builtin/backtrace.rs:47-53 | the recorded addresses fill the first slots of the ten-slot array, in order, and the rest stay `None` |
| `Backtrace.BacktraceInternal` | kernel/builtin/backtrace.rs:22-61 | the loop returns the ten-slot array of the walk's addresses, or panics exactly where the walk's `suppress -= 1` overflows; with suppress ≥ 0 it runs at most suppress + 10 passes |
| `Backtrace.Walk` | kernel/builtin/backtrace.rs:29-58 | the walk only appends to the addresses already recorded, and never holds more than ten |
| `Backtrace.WalkSkipsSuppressed` | kernel/builtin/backtrace.rs:47-56 | with suppress > 0 the first suppress frames of the chain are passed over and the rest recorded |
| `Backtrace.WalkRecords` | kernel/builtin/backtrace.rs:47-53 | once suppress is 0, each further frame's address is appended until ten are held |
| `Backtrace.ChainShape` | kernel/builtin/backtrace.rs:31-45 | the frame chain, read from fp−8 and fp−16, holds no zero address and no address equal to the one before it |
| `Backtrace.WalkFromTop` | kernel/builtin/backtrace.rs:29-58 | starting from the current frame, the trace is the chain after its first suppress addresses |
| `Backtrace.BacktraceShape` | kernel/builtin/backtrace.rs:12-20 | with suppress ≥ 0 the walk never panics and records at most ten addresses, none zero, no two consecutive ones equal |
| `Syscall.AsI32` | kernel/syscall.rs:25 | `as i32` keeps the low 32 bits, read as a signed value |
| `Syscall.AsIsize` | kernel/syscall.rs:69 | `sz as isize` is the 64-bit pattern read as signed |
| `Syscall.SysWrite` | kernel/syscall.rs:45-70 | an empty write returns 0 first; a range that wraps or starts at `MAX_VA` is `FAULT`; only then is a descriptor other than 1 `BADF`; a write that passes sends exactly [addr, addr+sz) and returns sz |
| `Syscall.Dispatch` | kernel/syscall.rs:16-39 | getpid returns the pid, write calls `sys_write` with the low 32 bits of a0 as descriptor, sbrk returns −1 (`sys_sbrk`), anything else `NO_SYS`; only write sends bytes |
| `Syscall.WrappingAdd` | kernel/syscall.rs:51 | `wrapping_add` is the sum when it fits in 64 bits and the sum less 2^64 otherwise |
| `Syscall.SysSbrk` | kernel/syscall.rs:72-74 | `sbrk` is not supported: it always returns a negative error |
| `Syscall.WrapMeansOverflow` | kernel/syscall.rs:51-52 | the `wrapping_add` test catches exactly the ranges that run past the address space |
| `Syscall.WriteReturnsSize` | kernel/syscall.rs:69 | a successful write returns sz when it fits an isize and a negative number otherwise |
| `Syscall.DescriptorFromLowBits` | kernel/syscall.rs:25 | the descriptor is 1 exactly when the low 32 bits of a0 are 1 |
| `Uart.RxU32` | bootloader/uart.rs:37-42 | four received bytes assemble into a 32-bit word |
| `Uart.RxU64` | bootloader/uart.rs:26-35 | eight received bytes assemble into a 64-bit word |
| `Uart.RxU32Value` | bootloader/uart.rs:37-42 | `rx_u32` reads its four bytes little-endian |
| `Uart.RxU64Value` | bootloader/uart.rs:26-35 | `rx_u64` reads its eight bytes little-endian |
| `Uart.TxU32` | bootloader/uart.rs:44-49 | `tx_u32` sends four bytes |
| `Uart.TxU32Value` | bootloader/uart.rs:44-49 | the four bytes sent are the word, little-endian |
| `Uart.RxTxU32` | bootloader/uart.rs:37-49 | receiving what `tx_u32` sent gives back the word |
| `Uart.HandshakeFrom` | bootloader/uart.rs:62-68 | the GetProgInfo loop sends one request per pass |
| `Uart.Repeat` | bootloader/uart.rs:62-68 | the requests sent are as many as the passes |
| `Uart.HandshakeStep` | bootloader/uart.rs:62-68 | one pass: an empty receiver means try again; otherwise a word is read, and the loop ends exactly on PutProgInfo |
| `Uart.HandshakeTries` | bootloader/uart.rs:62-68 | a handshake that starts sends at least one GetProgInfo |
| `Uart.Port.constructor` | bootloader/uart.rs:60-61 | the port starts with the given input and poll answers, nothing sent |
| `Uart.Port.Send` | bootloader/uart.rs:44-49 | one word is appended to what was sent; the input is untouched |
| `Uart.Port.Receive32` | bootloader/uart.rs:37-42 | the next four input bytes are consumed and read as a word; none when fewer remain |
| `Uart.Port.ReceiveBytes` | bootloader/uart.rs:82-84 | the next n input bytes are consumed in order |
| `Uart.Recv` | bootloader/uart.rs:53-101 | `recv` ends, and sends words, exactly as the protocol function `RecvSpec` of the input and poll answers says |
| `Uart.RequestInfo` | bootloader/uart.rs:62-68 | the handshake loop sends one GetProgInfo per pass and stops after PutProgInfo, leaving the header bytes |
| `Uart.ReceiveImage` | bootloader/uart.rs:70-100 | after PutProgInfo: the header is read, GetCode and the announced CRC are echoed, and the image is received and checked |
| `Uart.ReceiveCode` | bootloader/uart.rs:77-100 | a word other than PutCode is BootError; a CRC mismatch is BadCodeCksum; otherwise BootSuccess and the image is returned |
| `Uart.BootedMeansChecked` | bootloader/uart.rs:74-100 | `recv` boots only after ≥1 GetProgInfo, GetCode, the echoed CRC and BootSuccess, and only an image whose CRC-32 is that announced CRC |
| `Uart.OutcomeReported` | bootloader/uart.rs:77-100 | the last word sent names the outcome: BootSuccess, BootError or BadCodeCksum |
| `Uart.HostBoots` | bootloader/uart.rs:53-101 | a host that sends PutProgInfo, entry, length, CRC, PutCode and the image gets that image booted at that entry |
| `Uart.HostHeader` | bootloader/uart.rs:70-72 | the header reads back as entry (64-bit), length and CRC (32-bit) |
| `Schedule.Queue.constructor` | kernel/schedule.rs:20-25 | a new queue is empty, both ends null |
| `Schedule.Queue.PushFront` | kernel/schedule.rs:27-38 | n becomes the front, linked to the old front; into an empty queue it is also the back; the queue stays well linked |
| `Schedule.Queue.Remove` | kernel/schedule.rs:40-51 | n leaves the queue, its neighbours linked to each other or the ends moved past it; the others keep their order |
| `Schedule.Queue.PopBack` | kernel/schedule.rs:52-61 | `None` on an empty queue; otherwise the back is removed and returned, its predecessor becoming the back; the popped node's own links are left as they were |
| `Schedule.DrainedPush` | kernel/schedule.rs:27-61 | a process pushed at the front is popped after every process already queued |
| `Schedule.Fifo` | kernel/schedule.rs:27-61 | processes pushed with `push_front` come out of `pop_back` after those queued before, in the order pushed |
| `Schedule.Without` | kernel/schedule.rs:40-51 | removing position i keeps the elements before i and shifts those after it down by one |
| `Schedule.Requeue` | kernel/schedule.rs:98-101 | as written: a process coming back to the scheduler is pushed on the run queue exactly when it is Runnable; otherwise its box is dropped, which (kernel/proc.rs:214-221) frees every page the iterator yields (the valid normal pages below `MAX_VA`), even while a wait queue holds it |
| `Schedule.Reschedule` | kernel/schedule.rs:98-101 | corrected: a Runnable process is pushed on the run queue; one waiting on a queue keeps its pages; only one on no queue is dropped |
| `Schedule.BlockedPagesFreed` | kernel/schedule.rs:98-101 | as written: after `block` and a return to the scheduler, the process is still on the wait queue but every page the iterator yields from its table, none free before, is free |
| `Schedule.BlockedPagesKept` | kernel/schedule.rs:98-101 | corrected: the same process stays on the wait queue and no page is freed |
| `Schedule.Wait` | kernel/proc.rs:197-201 | the process takes the state, records the queue and goes to its front |
| `Schedule.Block` | kernel/proc.rs:186-188 | Blocked and waiting at the front of the queue |
| `Schedule.Exit` | kernel/proc.rs:191-193 | Exited and waiting at the front of the queue |
| `Proc.Successor` | kernel/proc.rs:15 | `fetch_add` moves the u32 counter on by one, wrapping to 0 |
| `Proc.NthPid` | kernel/proc.rs:15 | the pid handed out k-th is a u32 |
| `Proc.NthPidValue` | kernel/proc.rs:15 | pids are handed out from 1 upward, and the 2^32−1-th wraps to 0 |
| `Proc.PidsIncrease` | kernel/proc.rs:15 | before the counter wraps, pids are positive and strictly increasing, so distinct |
| `Proc.PidCounter.constructor` | kernel/proc.rs:15 | `NEXTPID` starts at 1 |
| `Proc.PidCounter.FetchAdd` | kernel/proc.rs:90 | returns the current pid and advances the counter |
| `Proc.Proc.constructor` | kernel/proc.rs:89-103 | a new process: no children, Runnable, no parent or queue links, not waiting, canary set |
| `Proc.Proc.CheckStack` | kernel/proc.rs:165-167 | panics exactly when the canary differs from `CANARY` |
| `Proc.Proc.Unblock` | kernel/proc.rs:204-206 | the process no longer waits on a queue; state and links are unchanged |
| `Proc.NewEmpty` | kernel/proc.rs:70-110 | `None` consumes no pid; otherwise a fresh process with an empty page table and the next pid, Runnable, on no queue, with its canary intact, so `check_stack` passes |
| `Proc.CopyMapping` | kernel/proc.rs:118-125 | one parent page is copied into a fresh page and mapped at the same address with the same permissions; on failure the table is unchanged and at most one page, the one `mappg` failed to map, is lost (`leak`) |
| `Proc.CopiedStep` | kernel/proc.rs:116-126 | one copied mapping extends the invariant of the copy loop |
| `Proc.CopyMappings` | kernel/proc.rs:116-126 | every user page of the parent, in the iterator's order, is mapped in the child to a fresh page with the same contents and permissions, taken from the free pages; on failure the child's pages and at most one lost page are all that left the free pages |
| `Proc.NewFromParent` | kernel/proc.rs:114-132 | the child gets the next pid, the parent's trapframe, the parent as parent and a copy of every parent page; on failure the child is dropped, returning its pages, and at most the one page a failed `mappg` lost stays taken |
| `Proc.DropCopy` | kernel/proc.rs:117-125 | dropping a child whose copy failed returns every page it maps (all of them 4 KiB leaves below `MAX_VA`, copied from what the iterator yields), leaving only the lost page taken |
| `Proc.LoadSegments` | kernel/proc.rs:137-143 | the ELF image is loaded into the new table: rejected with nothing taken on a bad magic, panicking only where a segment does; on any other rejection the process is dropped, every page the iterator yields from its table goes back, and only pages the iterator cannot see stay taken (`lost`) |
| `Proc.MapStack` | kernel/proc.rs:144-150 | a zeroed page is taken and mapped read-write for the user at `STACK_VA`; on failure the process is dropped, and a stack page whose `mappg` failed stays lost |
| `Proc.DropLoaded` | kernel/proc.rs:214-221 | a failed build frees every page the iterator yields (the valid normal pages below `MAX_VA`) of its table, all of them taken since the build began |
| `Proc.NewFromElf` | kernel/proc.rs:137-156 | at most one pid is consumed; on a bad magic `None` with nothing taken; on any other `None` that is not a panic the half-built process is dropped: every page the iterator yields from its table goes back, and the pages still taken (`lost`) are those it cannot see plus a stack page whose `mappg` failed; on success the trapframe starts at the ELF entry with sp just below the top of the stack page, the segments are loaded and the stack is mapped |
| `Proc.Returned` | kernel/proc.rs:214-221 | after a drop, the pages missing from the free pages are exactly those taken and not handed back, plus a lost one |
| `Proc.Drop` | kernel/proc.rs:214-221 | every page the iterator yields (the valid normal pages below `MAX_VA`) of the process's table goes back to the free pages, and no other page does |
| `PagePool.Pool.Alloc` | kernel/elf.rs:73-78 | `kallocpage`: a free page leaves the free set; `None` exactly when none is free |
| `PagePool.Pool.Zalloc` | kernel/proc.rs:144-149 | `zallocpage`: as `kallocpage`, and the page holds zeros |
| `PagePool.Pool.Free` | kernel/proc.rs:218 | `kfree`: the page rejoins the free set |
| `PagePool.Pool.Write` | kernel/proc.rs:124 | writing a page replaces its contents and nothing else |
| `Vm.PermBits` | kernel/vm.rs:7-16 | the five permissions are distinct single bits 0 to 4 |
| `Vm.PermUnions` | kernel/vm.rs:7-16 | `RWX`, `URWX` and `URW` are the unions of their parts |
| `Vm.PermGrants` | kernel/vm.rs:7-16 | `URWX` grants everything but COW, `URW` everything but execute and COW |
| `Vm.Hka2pa` | kernel/vm.rs:26-28 | a high kernel address is its physical address plus `HIGHMEM_BASE` |
| `Vm.Pa2hka` | kernel/vm.rs:60-62 | the result is a high kernel address that `hka2pa` maps back to pa |
| `Vm.Ka2pa` | kernel/vm.rs:33-42 | `hka2pa` in the kernel build; the identity in the monitor build |
| `Vm.Pa2ka` | kernel/vm.rs:47-56 | `pa2hka` in the kernel build, giving a high kernel address; the identity in the monitor build; either way `ka2pa` maps the result back to pa |
| `Vm.AddressRoundTrips` | kernel/vm.rs:20-62 | `hka2pa`/`pa2hka` are inverse on the high kernel map; `ka2pa`/`pa2ka` are inverse in both builds, the identity in the monitor build |
| `Vm.Size` | kernel/vm.rs:156-159 | every level maps a positive whole number of pages |
| `Vm.Walk` | kernel/vm.rs:150 | a walk that finds a leaf finds the one stored for its level's region |
| `Vm.Pagetable.constructor` | kernel/proc.rs:71-78 | a fresh page table maps nothing |
| `Vm.Pagetable.Map` | kernel/vm.rs:79 | a successful map stores the leaf for the address's page; a failed one changes nothing |
| `Vm.MapThenWalk` | kernel/vm.rs:77-85 | after mapping a page where no superpage covers it, a walk there finds that page |
| `Vm.Pages` | kernel/vm.rs:113-121 | every valid normal leaf's page is among the table's pages |
| `Vm.PagesUpdate` | kernel/vm.rs:77-85 | storing one leaf adds at most its page |
| `Vm.PagesAdd` | kernel/vm.rs:77-85 | storing a valid leaf in a new slot adds exactly its page |
| `Vm.TookTrans` | kernel/vm.rs:77-85 | taking pages into a table composes over several steps |
| `Vm.MappgAsWritten` | kernel/vm.rs:77-85 | as written: when `map` fails the table is unchanged and the page is still not free: it is lost |
| `Vm.Mappg` | kernel/vm.rs:77-85 | corrected: a mapped page is in the table; when `map` fails the page is returned to the free pages |
| `Vm.Hit` | kernel/vm.rs:150-155 | the iterator's step yields an entry exactly where the walk finds a valid normal leaf |
| `Vm.Stride` | kernel/vm.rs:150-160 | the iterator advances by a whole, positive number of pages |
| `Vm.PtIter.constructor` | kernel/vm.rs:132-139 | the iterator starts at address 0 with nothing found |
| `Vm.PtIter.Advance` | kernel/vm.rs:141-163 | false at `MAX_VA`; otherwise it records the hit at the current address and steps over the level's region |
| `Vm.PtIter.Next` | kernel/vm.rs:169-187 | each call yields the next remaining mapping of the scan, in order; once it yields none, none remain |
| `Vm.ScanSound` | kernel/vm.rs:169-187 | each mapping yielded is what a walk at its address finds: a valid normal leaf |
| `Vm.ScanSorted` | kernel/vm.rs:169-187 | the mappings come out in strictly increasing address order |
| `Vm.ScanComplete` | kernel/vm.rs:141-187 | every valid normal leaf below `MAX_VA` at or after the start is yielded |
| `Vm.ScanAligned` | kernel/vm.rs:141-163 | the addresses yielded are page-aligned |
| `Vm.ScanExact` | kernel/vm.rs:141-187 | a page-aligned address below `MAX_VA` is yielded with an entry exactly when the walk there finds that valid normal leaf |
| `Vm.ScanPages` | kernel/vm.rs:169-187 | the pages yielded from address 0 |
| `Vm.ScanPagesOf` | kernel/vm.rs:169-187 | those are the pages of the mappings the iterator yields |
| `Vm.ScanPageMapped` | kernel/vm.rs:169-187 | a yielded page is among the table's pages |
| `Vm.ScanEntry` | kernel/vm.rs:169-187 | a yielded mapping is page-aligned, below `MAX_VA` and maps one of the table's pages |
| `Vm.ScanPagesWithin` | kernel/vm.rs:169-187 | the iterator's pages are among the table's pages |
| `Vm.ScanPagesFlat` | kernel/vm.rs:169-187 | for a table of normal user pages the iterator visits all its pages |
| `Vm.BaseNest` | kernel/vm.rs:141-163 | a region's base at a coarser level contains the base at a finer one |
| `Vm.WalkAligned` | kernel/vm.rs:141-163 | the iterator reaches a leaf only at the start of that leaf's region |
| `Vm.StepEntered` | kernel/vm.rs:141-163 | stepping by the stride keeps the iterator aligned to every level it enters |
| `Elf.Min` | kernel/elf.rs:108-114 | the smaller argument |
| `Elf.Max` | kernel/elf.rs:116-122 | the larger argument |
| `Elf.CheckSegment` | kernel/elf.rs:58-71 | a segment goes on to the page loop only when it is loadable, `filesz ≤ memsz`, and its page range fits in 64 bits |
| `Elf.WrapCheck` | kernel/elf.rs:65-67 | as written, an overflowing `vaddr + memsz` panics; corrected, it is rejected |
| `Elf.Zeros` | kernel/elf.rs:79 | n zero bytes |
| `Elf.PageFill` | kernel/elf.rs:79-95 | the page is built exactly when it does not panic; it is a page long and its first pad bytes are zero |
| `Elf.Window` | kernel/elf.rs:84-95 | the built page is one page long |
| `Elf.FillShape` | kernel/elf.rs:79-95 | zeroing the pad, copying n bytes after it and zeroing the rest gives `Window` |
| `Elf.BuildPage` | kernel/elf.rs:79-95 | the writes into the fresh page produce `PageFill`, or the loop panics where it says |
| `Elf.StillHolds` | kernel/elf.rs:72-100 | a page already loaded stays loaded while other pages are mapped and other free pages written |
| `Elf.LoadedStep` | kernel/elf.rs:72-100 | one more page loaded extends the page loop's invariant |
| `Elf.LoadPage` | kernel/elf.rs:73-99 | one page is taken, filled and mapped at q; panics only where `PagePanics` says; pages in use are untouched; a failed map leaves the table unchanged, and the corrected loop also gives the page back |
| `Elf.MapPages` | kernel/elf.rs:72-100 | every page of the segment is mapped with its fill, or the loop panics at one of them |
| `Elf.LoadSegment` | kernel/elf.rs:56-100 | a segment is skipped, rejected with nothing taken, or loaded page by page; panics only where the segment's checks or pages do |
| `Elf.Table` | kernel/elf.rs:55-57 | the header table holds `phnum` entries read at `phoff + i·56` |
| `Elf.LastCover` | kernel/elf.rs:97 | the last loadable segment covering a page, whose mapping is the one that stays |
| `Elf.Brk` | kernel/elf.rs:53-102 | `brk` is the highest end of a loadable segment, or 0 when there is none |
| `Elf.NothingLoaded` | kernel/elf.rs:53-55 | before the loop the table is as it was |
| `Elf.SegmentsStep` | kernel/elf.rs:55-103 | one more segment loaded extends the loop's invariant |
| `Elf.CoverHit` | kernel/elf.rs:97 | a page a later segment covers holds that segment's fill |
| `Elf.CoverMiss` | kernel/elf.rs:55-103 | a page a later segment does not cover keeps its earlier fill |
| `Elf.LoadHeader` | kernel/elf.rs:56-102 | one program header is processed and `brk` raised to its end |
| `Elf.LoadHeaders` | kernel/elf.rs:55-103 | every program header is processed in order; the loop panics only at a segment that does |
| `Elf.Load64` | kernel/elf.rs:44-106 | a bad magic is `None` with nothing taken; a load returns the entry and `brk`, with every covered page holding its last segment's fill |
| `Elf.ImagePage` | kernel/elf.rs:79-95 | the page as the segment lays it out |
| `Elf.CorrectedPageImage` | kernel/elf.rs:79-95 | corrected: every page holds the segment's image there (zeros, file bytes, zeros) |
| `Elf.CorrectedPanicsOnlyOnOverflow` | kernel/elf.rs:58-100 | corrected: with the file bytes inside the data, a segment panics exactly when its page range overflows |
| `Elf.UnalignedFirstPagePanics` | kernel/elf.rs:83 | as written: the first page of a segment with an unaligned vaddr panics on `va - vaddr` |
| `Elf.AsWrittenLoadsOnlyAligned` | kernel/elf.rs:55-103 | as written: the loader succeeds only when every loadable segment is page-aligned |
| `Elf.HeaderOffsetCounterexample` | kernel/elf.rs:87 | as written: a segment of 0x100 file bytes gets only 0xC0 of them copied; the corrected loop copies all |
| `FreeLists.Units` | kernel/kalloc/pg.rs:80 | `nunits` is the fewest headers holding sz bytes, plus one for the header: at least 2 |
| `FreeLists.Slot` | kernel/kalloc/pg.rs:126-133 | the last free header below x |
| `FreeLists.FreeListAscends` | kernel/kalloc/pg.rs:9-23 | the free list is in strictly increasing address order |
| `FreeLists.Pivot` | kernel/kalloc/pg.rs:9-23 | headers before a position lie below it, those after it above it |
| `FreeLists.Gaps` | kernel/kalloc/pg.rs:9-23 | free blocks never overlap or touch |
| `FreeLists.FreeBlocksEnd` | kernel/kalloc/pg.rs:9-23 | every free block ends inside the claimed arena |
| `FreeLists.NextAt` | kernel/kalloc/pg.rs:90-115 | following `next` d+1 times walks d+1 headers around the circle |
| `FreeLists.Wrapped` | kernel/kalloc/pg.rs:111-113 | the search returns to `freep` only after a full round |
| `FreeLists.Fits` | kernel/kalloc/pg.rs:90-110 | a search starting where `morecore` leaves it finds a fit |
| `FreeLists.Exhausted` | kernel/kalloc/pg.rs:105-110 | a full round of headers too small means no free block fits |
| `FreeLists.Passed` | kernel/kalloc/pg.rs:90-115 | the search passes one more block too small |
| `FreeLists.Probe` | kernel/kalloc/pg.rs:126-133 | `dealloc`'s loop test holds exactly at the last free header below bp |
| `FreeLists.UsedNotFree` | kernel/kalloc/pg.rs:118-125 | a block handed out is not a free header |
| `FreeLists.Around` | kernel/kalloc/pg.rs:126-147 | the returned block lies in the gap after `Slot`, touching its neighbours exactly when `dealloc`'s tests say |
| `FreeLists.LinkFree` | kernel/kalloc/pg.rs:144-146 | linking a block in keeps the free list well formed |
| `FreeLists.UnlinkFree` | kernel/kalloc/pg.rs:93-96 | unlinking a free block keeps the free list well formed |
| `FreeLists.MoveFree` | kernel/kalloc/pg.rs:135-141 | the header that absorbs its upper neighbour keeps the free list well formed |
| `FreeLists.MergeFree` | kernel/kalloc/pg.rs:135-147 | merging a block with both neighbours keeps the free list well formed |
| `FreeLists.RelinkFree` | kernel/kalloc/pg.rs:135-147 | `dealloc`'s merge keeps the free list well formed in all four cases |
| `FreeLists.RelinkOwned` | kernel/kalloc/pg.rs:135-147 | the other blocks handed out stay clear of the free list |
| `FreeLists.JoinedCases` | kernel/kalloc/pg.rs:135-148 | a merged block's size is the sum of the sizes merged; the header the search restarts from holds or links to the returned block |
| `FreeLists.Rejoin` | kernel/kalloc/pg.rs:118-149 | `dealloc`'s merge: well formed, owners kept, sizes as `Joined` says |
| `FreeLists.Claim` | kernel/kalloc/pg.rs:55-62 | a fresh block at the old arena end is handed out |
| `FreeLists.Grow` | kernel/kalloc/pg.rs:38-46 | growing the arena keeps the free list and the blocks handed out |
| `FreeLists.UnlinkOwned` | kernel/kalloc/pg.rs:93-96 | a block handed out whole clears everything else |
| `FreeLists.SplitFree` | kernel/kalloc/pg.rs:97-101 | a larger free block keeps its head and shrinks by n |
| `FreeLists.SplitOwned` | kernel/kalloc/pg.rs:97-101 | the tail handed out clears everything else |
| `FreeLists.Carve` | kernel/kalloc/pg.rs:93-102 | `alloc`'s take hands out a block of n units not in use before; well formed, owners kept |
| `FreeLists.Sentinel` | kernel/kalloc/pg.rs:83-88 | `base` alone, linked to itself, is a well-formed free list |
| `FreeLists.OwnedAdd` | kernel/kalloc/pg.rs:93-102 | one more block handed out inside the arena and clear of the rest keeps ownership |
| `Kalloc.HandedAfter` | kernel/kalloc/pg.rs:76-116 | a block handed out after a step that kept every block in use is new relative to the earlier state |
| `Kalloc.TakeKeeps` | kernel/kalloc/pg.rs:93-102 | taking n units keeps the allocator's invariant and hands out a new block of n units |
| `Kalloc.JoinKeeps` | kernel/kalloc/pg.rs:126-148 | returning a block keeps the invariant and is a `Freed` step |
| `Kalloc.Merge` | kernel/kalloc/pg.rs:135-147 | `dealloc`'s header updates, as `Merged` describes |
| `Kalloc.Search` | kernel/kalloc/pg.rs:90-115 | from the header after the start, the first free block of at least n units and its predecessor, every block passed being smaller; none after a full round, and then no free block fits |
| `Kalloc.Allocator.constructor` | kernel/kalloc/pg.rs:26-36 | `new_uninit`: no arena, no free list; `base` is a null-linked header of size 0 |
| `Kalloc.Allocator.Init` | kernel/kalloc/pg.rs:69-74 | `init`: the arena is the given pages; nothing else changes |
| `Kalloc.Allocator.Sbrk` | kernel/kalloc/pg.rs:38-46 | the next incr units, start moving past them; null with nothing changed when fewer remain |
| `Kalloc.Allocator.Locate` | kernel/kalloc/pg.rs:126-133 | `dealloc`'s search loop stops at a free header p with bp strictly between p and its successor, or at the wrap-around header with bp past either end; p is the header just below bp in address order |
| `Kalloc.Allocator.Join` | kernel/kalloc/pg.rs:135-148 | the block returns to the free list after that header, merged, `freep` set to it |
| `Kalloc.Allocator.Dealloc` | kernel/kalloc/pg.rs:118-149 | null does nothing; otherwise the block is no longer in use, re-enters the free list in address order merged with its neighbours, and every other block keeps its size |
| `Kalloc.Allocator.Morecore` | kernel/kalloc/pg.rs:49-65 | at least `NALLOC` units are claimed and freed, and the search restarts at a block that fits or its predecessor; null with nothing changed when the arena is exhausted |
| `Kalloc.Allocator.Take` | kernel/kalloc/kr.rs:86-95 | an exact fit is unlinked whole; a larger block gives its tail of n units; `freep` is its predecessor (pg.rs:93-102 alike) |
| `Kalloc.Allocator.Prime` | kernel/kalloc/kr.rs:76-81 | on first use the free list becomes `base` alone, linked to itself (pg.rs:83-88 alike) |
| `Kalloc.Allocator.Extend` | kernel/kalloc/pg.rs:105-110 | when no block fits, the arena grows by max(n, `NALLOC`) units through `morecore` and n units are taken; null with nothing changed when it cannot |
| `Kalloc.Allocator.Resume` | kernel/kalloc/pg.rs:90-115 | after `morecore` the search cannot come round empty again, and takes n units |
| `Kalloc.Allocator.Find` | kernel/kalloc/pg.rs:90-115 | when a free block fits, the first one after `freep` that fits (`FirstFit`) gives the n units and the arena does not grow; when none fits, a non-null result means the arena grew by max(n, `NALLOC`); null only when no free block fits and the arena cannot grow |
| `Kalloc.Allocator.Alloc` | kernel/kalloc/pg.rs:76-116 | `alloc(sz)` hands out a new block of exactly `Units(sz)` headers, other blocks untouched: the first fit after `freep` without growing the arena when one fits, otherwise from an arena grown by max(`Units(sz)`, `NALLOC`); null only when no free block fits and the arena cannot grow |

## Left out

- Hardware and I/O are parameters:
  - the UART is a `Port` whose input bytes and `rx_empty()` answers are given in advance, and `recv`'s words are collected in `sent`;
  - the 100 ms `timer::delay_us` and `tx_flush` are not modelled;
  - `recv`'s volatile heap writes become the returned byte sequence;
  - when the input runs out, `recv` ends as `Stalled` instead of blocking forever in `rx()`.
- `sys_write` returns the byte range it would send instead of writing to the UART under its lock. `syscall` sees the process only through its pid and its argument registers. The `println!` of an unknown system call is not modelled.
- `backtrace()` reads the frame pointer with inline assembly; that is left out. `backtrace_internal` takes the stack memory (`mem`) and `is_valid` as parameters. Its volatile reads are plain reads of `mem`.
- `Backtrace.BacktraceInternal` has `iterations` as a ghost counter. The bound on it is a statement about the loop, not about a value the source returns.
- The Sv39 page-table code (`Pagetable::map` and `Pagetable::walk`, kernel/arch) is not part of this model:
  - a page table is a map from each leaf's region base to the leaf;
  - `Vm.Pagetable.Map` may fail, with the table unchanged;
  - intermediate table pages and their allocation are not modelled.
- `Vm.Pagetable.Map`: a successful map overwrites the slot of its region. Checks the hardware walker would make on an existing superpage are not modelled.
- `VaMapping` holds a copy of the entry instead of a mutable reference. `pte()` and in-place updates through it are not modelled, since no core operation writes through it.
- `ishka`, `hka2pa` and the other address conversions are modelled as written. The two builds (kernel and monitor) are a parameter instead of a `cfg` switch.
- Processes:
  - `kernel_procmap` (the kernel mappings of a new table), the kernel `Context`, `set_pt`, `kstackp`, `forkret`, `yield_` and `watch_canary` (a debug watchpoint) are left out;
  - the trapframe holds only `sp` and `epc`;
  - the `println!` in `drop` is left out;
  - the failure of `Box::try_new_uninit` or of `zalloc::<Pagetable>` in `new_empty` is a nondeterministic choice;
  - `NEXTPID` is a plain counter object: atomicity and concurrency are not modelled.
- Pages mapped at or above `MAX_VA` are never freed. kernel/elf.rs does not compare a segment's vaddr with `MAX_VA`, so `load64` maps, for example, a loadable segment at 0x8000_0000. `drop` (kernel/proc.rs:214-221) frees only what `PtIter` yields, and `PtIter` stops at `MAX_VA` (kernel/vm.rs:146). `Proc.Drop` states exactly the pages returned; the model records no Findings row for this leak.
- `Proc.NewFromElf` and `Proc.LoadSegments` use the corrected ELF page loop (see Findings), which also frees a page whose `mappg` fails. The loop as written is modelled beside it in `Elf`. The stack page and the pages copied from a parent are mapped with `mappg` as written.
- `Proc.Proc.constructor` takes the pid, table and trapframe as arguments. The raw initialisation in `new_empty` is `Proc.NewEmpty`.
- Scheduling:
  - the scheduler loop, `kswitch` and the per-CPU state are not part of this model; only the rule by which a returning process is queued again or dropped is kept (`Schedule.Requeue`);
  - `QueueType` is replaced by a queue identity recorded in `wq`;
  - `push_front_raw` is `Schedule.Queue.PushFront`;
  - the spin locks around the queues are left out.
- The page allocator behind `kallocpage`, `zallocpage` and `kfree` is not part of this model; kernel/alloc/pg.rs holds only empty stubs of it. `PagePool` is an abstract pool of free pages with their contents.
- Allocators:
  - addresses are counted in header units, not bytes, so `sbrk`'s argument `nu * size_of::<Header>()` is nu units;
  - `init`'s byte size becomes `bytes / unit` units, exact for both header sizes since the size is a whole number of pages;
  - the 16-byte alignment assert of `init` is not modelled;
  - the headers in memory are the two maps `next` and `size`, and writing a field is a map update;
  - pointer and `usize` overflow of `start.add(incr)` and `size + unit - 1` are not modelled;
  - the global allocator's lock and the `GlobalAlloc` glue are left out.
- `Kalloc.Allocator.Init`: requires that `init` is called once, before any allocation (`start` is null), and that the arena lies above the allocator's own `base` header. The source asserts neither; its asserts on the size become requires.
- `Kalloc.Allocator.Alloc`: the source's `assert!`s (an initialised arena and `size > 0`) become requires. Its loop is restructured into one search round (`Kalloc.Search`), then at most one `morecore` and a second round (`Kalloc.Allocator.Resume`). The second round is proved to succeed, which is why the source loop never needs a third.
- `Kalloc.Allocator.Dealloc`: requires that `ptr` is one `alloc` handed out and has not been returned. The source trusts its callers here; any other pointer corrupts the free list.
- `BitIndex.SetBit`: its own ensures gives only the bound. What it computes is stated by `BitIndex.SetBitBits` and `BitIndex.SetBitThenBit`.
- `BitIndex.SetBitRange`: its own ensures gives only the bound. What it computes is stated by `BitIndex.SetBitRangeBits` and the lemmas after it.
- `BitIndex.Shl`, `BitIndex.Shr`, `BitIndex.WrappingSub` and `BitIndex.RangeMask`: their own ensures give only bounds. What they compute is stated by `BitIndex.ShlMeaning`, `BitIndex.ShrMeaning`, `BitIndex.WrappingSubMeaning` and `BitIndex.RangeMaskBit`.
- `Crc.Round` and `Crc.TableFn`: their own ensures give only the 32-bit bound. What they compute is stated by `Crc.RoundBits`, `Crc.TableFnUnrolled` and `Crc.TableEntries`.
- `Syscall.SysSbrk`: its ensures says only that the result is an error; the value is −1.
- The `BitIndex` operations work on natural numbers below 2^len. The five Rust types appear only through their width (`SizeOf`).
- Rust panics are modelled as error outcomes or result flags, not aborts, in `Elf` (the loader's overflows and out-of-range slices), `Backtrace` (the `suppress -= 1` overflow) and `Proc.Proc.CheckStack`.
- Elsewhere a panic is a requires, so the model covers only the calls that do not panic:
  - `BitIndex.Bit`, `BitIndex.BitRange`, `BitIndex.SetBit` and `BitIndex.SetBitRange`: the asserts at kernel/bit.rs:82, 89, 97 and 106-107 (when `set_bit_range` panics is stated by `BitIndex.SetBitRangeFit`);
  - `Sys.Mb` and `Sys.Gb`: the multiplication must not overflow 64 bits;
  - `Vm.Hka2pa`, `Vm.Pa2hka`, `Vm.Ka2pa` and `Vm.Pa2ka`: the subtraction or addition of `HIGHMEM_BASE` must not overflow;
  - `Kalloc.Allocator.Init` and `Kalloc.Allocator.Alloc`: the asserts of `init` and `alloc`, as said above.
- `load64` reads its headers from a byte sequence, little-endian. It requires the file header and the program-header table to lie inside the data, where the source would read out of bounds. The 8-byte alignment assert on the data is not modelled.
- Floating point, interrupts, the device drivers, the formatter, the bit-field helpers (kernel/bitfield.rs) and the board support are outside this model.

## Findings

| source | as written | input that shows it | evidently intended | confidence | as-written member | corrected member |
|---|---|---|---|---|---|---|
| kernel/vm.rs:81 | `drop_in_place(raw)` on the page's raw pointer runs no destructor for a byte array and does not free the box, so a page whose mapping fails is leaked | any `mappg` whose `map` fails | `drop(Box::from_raw(raw))`, returning the page to the allocator | not executed | `Vm.MappgAsWritten` (lost page `leak` in `Proc.NewFromParent`) | `Vm.Mappg` |
| kernel/elf.rs:65 | `ph.vaddr + ph.memsz < ph.vaddr` computes the sum first, which panics under overflow checks before the comparison meant to catch the wrap can run | a loadable segment with vaddr = 2^64 − 0x1000 and memsz = filesz = 0x2000 | a checked or wrapping add, so that the segment is rejected (`None`) | not executed (assumes overflow checks are on) | `Elf.WrapCheck` | `Elf.CheckSegment` |
| kernel/elf.rs:83 | `soff = va - ph.vaddr` uses the page-aligned `va`, which lies below an unaligned `vaddr` on the first page, so the subtraction underflows | a loadable segment with vaddr = 0x10010 | `soff = va + pad - vaddr`, the offset in the segment of the first byte written | not executed | `Elf.UnalignedFirstPagePanics` | `Elf.CorrectedPageImage` |
| kernel/elf.rs:87 | the byte count is bounded by `filesz - off`, where `off` is the program header's offset in the file instead of the page's offset in the segment | program headers at offset 64, one segment at file offset 0x1000 with filesz = memsz = 0x100 at vaddr 0x10000: only 0xC0 bytes are copied | `filesz - soff` | not executed | `Elf.HeaderOffsetCounterexample` | `Elf.CorrectedPageImage` |
| kernel/schedule.rs:98-101 | a process that is not Runnable is dropped, freeing the pages the iterator yields from its table, although `wait` (kernel/proc.rs:197-201) left a raw pointer to it on a wait queue | a process that calls `block(q)` and yields | keep a waiting process alive (`Box::into_raw`) until it is woken; drop only one on no queue | not executed | `Schedule.BlockedPagesFreed` (`Schedule.Requeue`) | `Schedule.BlockedPagesKept` (`Schedule.Reschedule`) |
