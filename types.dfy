/** Fixed-width integer ranges and the `Option` wrapper shared by the modules of this model. */
module Types {

  /** Rust's `Option<T>`; `None` also stands for a null raw pointer. */
  datatype Option<+T> = None | Some(value: T)

  const U8_LIMIT: int := 0x100
  const U16_LIMIT: int := 0x1_0000
  const U32_LIMIT: int := 0x1_0000_0000
  const U64_LIMIT: int := 0x1_0000_0000_0000_0000

  type uint8 = x: int | 0 <= x < U8_LIMIT
  type uint16 = x: int | 0 <= x < U16_LIMIT
  type uint32 = x: int | 0 <= x < U32_LIMIT
  type uint64 = x: int | 0 <= x < U64_LIMIT
  type int32 = x: int | -0x8000_0000 <= x < 0x8000_0000

  /** Position of x in s. */
  ghost function IndexOf<T>(s: seq<T>, x: T): (i: nat)
    requires x in s
    ensures i < |s| && s[i] == x
  {
    if s[0] == x then 0 else 1 + IndexOf(s[1..], x)
  }

  // Sequence identities the verifier applies only when asked: calling them
  // keeps the proofs that need them cheap.

  lemma AppendAssoc<T>(a: seq<T>, b: seq<T>, c: seq<T>)
    ensures a + b + c == a + (b + c)
  {
  }

  lemma SliceAppend<T>(a: seq<T>, b: seq<T>)
    ensures (a + b)[|a|..|a| + |b|] == b
  {
  }

  lemma DropAppend<T>(a: seq<T>, b: seq<T>)
    ensures (a + b)[|a|..] == b
  {
  }

  lemma TakeSnoc<T>(s: seq<T>, i: nat)
    requires i < |s|
    ensures s[..i + 1] == s[..i] + [s[i]]
  {
  }

  lemma DropDrop<T>(s: seq<T>, a: nat, b: nat)
    requires a + b <= |s|
    ensures s[a..][b..] == s[a + b..]
  {
  }
}
