/**
 * `memset` (kernel/builtin/mem.rs): fills n bytes from v with c through an
 * advancing pointer and returns where the pointer stopped.
 */
module Mem {
  import opened Types

  /** The bytes of `mem` with [v, v + n) set to c: the range holds c, everything else is as before. */
  function Filled(mem: seq<uint8>, v: nat, c: uint8, n: nat): (r: seq<uint8>)
    requires v + n <= |mem|
    ensures |r| == |mem|
    ensures forall i :: v <= i < v + n ==> r[i] == c
    ensures forall i :: 0 <= i < |mem| && !(v <= i < v + n) ==> r[i] == mem[i]
  {
    mem[..v] + seq(n, _ => c) + mem[v + n..]
  }

  /** Filling nothing changes nothing. */
  lemma FilledNothing(mem: seq<uint8>, v: nat, c: uint8)
    requires v <= |mem|
    ensures Filled(mem, v, c, 0) == mem
  {
    assert mem[..v] + mem[v..] == mem;
  }

  /**
   * `memset(v, c, n)`: memory is the array, pointers are indices into it. It
   * returns v + n, the pointer after the last byte written, rather than v.
   */
  method Memset(mem: array<uint8>, v: nat, c: uint8, n: nat) returns (p: nat)
    requires v + n <= mem.Length
    modifies mem
    ensures p == v + n
    ensures mem[..] == Filled(old(mem[..]), v, c, n)
  {
    p := v;
    for k := 0 to n
      invariant p == v + k
      invariant forall i :: v <= i < p ==> mem[i] == c
      invariant forall i :: 0 <= i < mem.Length && !(v <= i < p) ==> mem[i] == old(mem[i])
    {
      mem[p] := c;
      p := p + 1;
    }
    assert mem[..] == Filled(old(mem[..]), v, c, n);
  }
}
