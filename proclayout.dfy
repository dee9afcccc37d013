/** The user address-space constants of a process (kernel/proc.rs). */
module ProcLayout {
  import Sys

  /** Virtual address of the user stack. */
  const STACK_VA: nat := 0x7fff_0000
  /** Size of a user stack: one page. */
  const STACK_SIZE: nat := Sys.PAGESIZE
  /** First virtual address a user process may not access. */
  const MAX_VA: nat := STACK_VA + STACK_SIZE
  /** Value of the kernel-stack canary. */
  const CANARY: nat := 0xfeed_face_dead_beef

  /** The stack is one aligned page directly below MAX_VA, itself just under 2 GiB. */
  lemma StackLayout()
    ensures STACK_VA % Sys.PAGESIZE == 0 && MAX_VA % Sys.PAGESIZE == 0
    ensures MAX_VA == 0x7fff_1000 && MAX_VA < 0x8000_0000
  {
  }
}
