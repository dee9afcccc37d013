/**
 * The frame-pointer walk `backtrace_internal` (kernel/builtin/backtrace.rs).
 * Memory is a function from addresses to 64-bit words and `is_valid` a predicate
 * on addresses, both given by the caller.
 */
module Backtrace {
  import opened Types

  const MAX_BACKTRACE_ADDRESSES: nat := 10
  const I32_MIN: int := -0x8000_0000

  /** What the walk produces: the recorded return addresses, or a panic when `suppress -= 1` overflows. */
  datatype Trace = Trace(addrs: seq<nat>) | SuppressOverflow

  /**
   * The return addresses met walking up from fp, at most k of them: each frame
   * holds its return address at fp - 8 and the caller's fp at fp - 16. The walk
   * stops at an invalid fp, at a zero address, or at an address equal to the one before.
   */
  function Chain(mem: int -> uint64, valid: int -> bool, fp: int, oldAddr: nat, k: nat): (c: seq<nat>)
    decreases k
  {
    if k == 0 || !valid(fp) then []
    else
      var address := mem(fp - 8);
      if address == oldAddr || address == 0 then []
      else [address] + Chain(mem, valid, mem(fp - 16), address, k - 1)
  }

  /**
   * `backtrace_internal`'s loop, from the state it has reached: `found` is
   * what it recorded so far. What it records next only extends `found`, and
   * never beyond ten addresses.
   */
  function Walk(mem: int -> uint64, valid: int -> bool, fp: int, suppress: int, oldAddr: nat, found: seq<nat>): (t: Trace)
    requires |found| < MAX_BACKTRACE_ADDRESSES && I32_MIN <= suppress
    requires suppress != 0 ==> found == []
    ensures t.Trace? ==> found <= t.addrs && |t.addrs| <= MAX_BACKTRACE_ADDRESSES
    decreases if suppress == 0 then 0 else 1, suppress - I32_MIN, MAX_BACKTRACE_ADDRESSES - |found|
  {
    if !valid(fp) then Trace(found)
    else
      var address := mem(fp - 8);
      var next := mem(fp - 16);
      if oldAddr == address || address == 0 then Trace(found)
      else if suppress == 0 then
        if |found| + 1 >= MAX_BACKTRACE_ADDRESSES then Trace(found + [address])
        else Walk(mem, valid, next, 0, address, found + [address])
      else if suppress == I32_MIN then SuppressOverflow
      else Walk(mem, valid, next, suppress - 1, address, found)
  }

  /** The returned array: the recorded addresses from index 0, then None. */
  function Layout(addrs: seq<nat>): (r: seq<Option<nat>>)
    requires |addrs| <= MAX_BACKTRACE_ADDRESSES
    ensures |r| == MAX_BACKTRACE_ADDRESSES
    ensures forall i :: 0 <= i < |addrs| ==> r[i] == Some(addrs[i])
    ensures forall i :: |addrs| <= i < MAX_BACKTRACE_ADDRESSES ==> r[i] == None
  {
    seq(MAX_BACKTRACE_ADDRESSES, i requires 0 <= i < MAX_BACKTRACE_ADDRESSES => if i < |addrs| then Some(addrs[i]) else None)
  }

  /**
   * `backtrace_internal(fp, suppress)`. `overflow` reports the panic of an
   * overflowing `suppress -= 1`; `iterations` counts the passes of the loop.
   */
  method BacktraceInternal(mem: int -> uint64, valid: int -> bool, fp: uint64, suppress: int32)
    returns (result: seq<Option<nat>>, overflow: bool, ghost iterations: nat)
    ensures var t := Walk(mem, valid, fp, suppress, 0, []);
      && overflow == t.SuppressOverflow?
      && (t.Trace? ==> |t.addrs| <= MAX_BACKTRACE_ADDRESSES && result == Layout(t.addrs))
    ensures suppress >= 0 ==> iterations <= suppress + MAX_BACKTRACE_ADDRESSES
  {
    ghost var t := Walk(mem, valid, fp, suppress, 0, []);
    var arr := new Option<nat>[MAX_BACKTRACE_ADDRESSES](_ => None);
    var index := 0;
    var fp: int := fp;
    var suppress: int := suppress;
    var oldAddress: nat := 0;
    ghost var found: seq<nat> := [];
    ghost var s0 := suppress;
    iterations := 0;
    overflow := false;
    while true
      invariant 0 <= index < MAX_BACKTRACE_ADDRESSES && index == |found|
      invariant I32_MIN <= suppress <= s0 && (suppress != 0 ==> found == [])
      invariant arr[..] == Layout(found)
      invariant t == Walk(mem, valid, fp, suppress, oldAddress, found)
      invariant s0 >= 0 ==> suppress >= 0 && iterations == (s0 - suppress) + index
      decreases if suppress == 0 then 0 else 1, suppress - I32_MIN, MAX_BACKTRACE_ADDRESSES - index
    {
      iterations := iterations + 1;
      if !valid(fp) {
        break;
      }
      var address := mem(fp - 8);
      fp := mem(fp - 16);
      if oldAddress == address {
        break;
      }
      oldAddress := address;
      if address == 0 {
        break;
      }
      if suppress == 0 {
        arr[index] := Some(address);
        index := index + 1;
        found := found + [address];
        if index >= MAX_BACKTRACE_ADDRESSES {
          break;
        }
      } else {
        if suppress == I32_MIN {
          overflow := true;
          result := arr[..];
          return;
        }
        suppress := suppress - 1;
      }
    }
    result := arr[..];
  }

  // ---------------------------------------------------------------------------
  // What the walk records.

  /** The walk records the addresses of the chain after the first `suppress` ones, at most ten. */
  lemma {:induction false} WalkSkipsSuppressed(mem: int -> uint64, valid: int -> bool, fp: int, suppress: int, oldAddr: nat)
    requires 0 < suppress
    ensures var c := Chain(mem, valid, fp, oldAddr, suppress + MAX_BACKTRACE_ADDRESSES);
      Walk(mem, valid, fp, suppress, oldAddr, []) == Trace(if |c| <= suppress then [] else c[suppress..])
    decreases suppress
  {
    if valid(fp) {
      var address := mem(fp - 8);
      if address != oldAddr && address != 0 {
        if suppress == 1 {
          WalkRecords(mem, valid, mem(fp - 16), address, []);
        } else {
          WalkSkipsSuppressed(mem, valid, mem(fp - 16), suppress - 1, address);
        }
      }
    }
  }

  /** Once nothing is suppressed, each further frame of the chain is recorded, up to ten in all. */
  lemma {:induction false} WalkRecords(mem: int -> uint64, valid: int -> bool, fp: int, oldAddr: nat, found: seq<nat>)
    requires |found| < MAX_BACKTRACE_ADDRESSES
    ensures Walk(mem, valid, fp, 0, oldAddr, found) == Trace(found + Chain(mem, valid, fp, oldAddr, MAX_BACKTRACE_ADDRESSES - |found|))
    decreases MAX_BACKTRACE_ADDRESSES - |found|
  {
    var k := MAX_BACKTRACE_ADDRESSES - |found|;
    if valid(fp) {
      var address := mem(fp - 8);
      if address != oldAddr && address != 0 {
        if |found| + 1 < MAX_BACKTRACE_ADDRESSES {
          WalkRecords(mem, valid, mem(fp - 16), address, found + [address]);
        } else {
          assert Chain(mem, valid, mem(fp - 16), address, k - 1) == [];
        }
      }
    }
  }

  /** The chain has at most k addresses, none zero, none equal to the one before it. */
  lemma {:induction false} ChainShape(mem: int -> uint64, valid: int -> bool, fp: int, oldAddr: nat, k: nat)
    ensures var c := Chain(mem, valid, fp, oldAddr, k);
      && |c| <= k
      && (forall i :: 0 <= i < |c| ==> c[i] != 0)
      && (|c| > 0 ==> c[0] != oldAddr)
      && (forall i :: 0 < i < |c| ==> c[i] != c[i - 1])
    decreases k
  {
    if k > 0 && valid(fp) {
      var address := mem(fp - 8);
      if address != oldAddr && address != 0 {
        ChainShape(mem, valid, mem(fp - 16), address, k - 1);
      }
    }
  }

  /** The walk from the top frame records the chain's addresses after the first `suppress` ones. */
  lemma WalkFromTop(mem: int -> uint64, valid: int -> bool, fp: int, suppress: int)
    requires 0 <= suppress
    ensures var c := Chain(mem, valid, fp, 0, suppress + MAX_BACKTRACE_ADDRESSES);
      Walk(mem, valid, fp, suppress, 0, []) == Trace(if |c| <= suppress then [] else c[suppress..])
  {
    if suppress == 0 {
      WalkRecords(mem, valid, fp, 0, []);
      var c := Chain(mem, valid, fp, 0, MAX_BACKTRACE_ADDRESSES);
      assert [] + c == c[0..];
    } else {
      WalkSkipsSuppressed(mem, valid, fp, suppress, 0);
    }
  }

  /** Addresses none of which is zero and no two consecutive ones equal. */
  ghost predicate Distinctive(s: seq<nat>)
  {
    (forall i :: 0 <= i < |s| ==> s[i] != 0) && (forall i :: 0 < i < |s| ==> s[i] != s[i - 1])
  }

  /** Dropping a prefix keeps Distinctive. */
  lemma DropDistinctive(c: seq<nat>, n: nat)
    requires Distinctive(c) && n < |c|
    ensures Distinctive(c[n..])
  {
    var d := c[n..];
    forall i | 0 < i < |d| ensures d[i] != d[i - 1] {
      assert d[i] == c[n + i] && d[i - 1] == c[n + i - 1];
    }
  }

  /**
   * With `suppress >= 0` the walk never panics, and it records at most ten
   * addresses, none zero and no two consecutive ones equal.
   */
  lemma BacktraceShape(mem: int -> uint64, valid: int -> bool, fp: int, suppress: int)
    requires 0 <= suppress
    ensures var t := Walk(mem, valid, fp, suppress, 0, []);
      && t.Trace?
      && |t.addrs| <= MAX_BACKTRACE_ADDRESSES
      && (forall i :: 0 <= i < |t.addrs| ==> t.addrs[i] != 0)
      && (forall i :: 0 < i < |t.addrs| ==> t.addrs[i] != t.addrs[i - 1])
  {
    var c := Chain(mem, valid, fp, 0, suppress + MAX_BACKTRACE_ADDRESSES);
    var d := if |c| <= suppress then [] else c[suppress..];
    assert Walk(mem, valid, fp, suppress, 0, []) == Trace(d) by { WalkFromTop(mem, valid, fp, suppress); }
    assert |c| <= suppress + MAX_BACKTRACE_ADDRESSES && Distinctive(c) by {
      ChainShape(mem, valid, fp, 0, suppress + MAX_BACKTRACE_ADDRESSES);
    }
    if |c| > suppress {
      DropDistinctive(c, suppress);
    }
  }
}
