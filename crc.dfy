/**
 * The table-driven CRC-32 of kernel/crc.rs: reflected polynomial 0xEDB88320,
 * register preset to all ones and complemented at the end, one table lookup
 * per byte. A `u32` is a natural number below 2^32 and the operators are those
 * of the BitIndex module. The table-driven loop is proved equal to the
 * bit-at-a-time definition of the same checksum.
 */
module Crc {
  import opened Types
  import opened BitIndex

  /** The reflected CRC-32 generator polynomial. */
  const POLY: nat := 0xEDB8_8320

  /** The width of `u32`. */
  const W: nat := 32

  /** The number of register shifts per byte. */
  const K: nat := 8

  /** A value of type `u32`. */
  predicate IsU32(x: nat)
  {
    x < 0x1_0000_0000
  }

  /**
   * One line of `table_fn`, one shift of the bit-serial register: if a one
   * falls out of the low end, the polynomial is xored into what remains.
   */
  function Round(out: nat): (r: nat)
    ensures IsU32(out) ==> IsU32(r)
  {
    Widths();
    if And(out, 1, W) == 1 then Xor(0xedb88320, Shr(out, 1), W) else Shr(out, 1)
  }

  /** k rounds, the first applied first. */
  function Rounds(x: nat, k: nat): (r: nat)
    ensures IsU32(x) ==> IsU32(r)
    decreases k
  {
    if k == 0 then x else Rounds(Round(x), k - 1)
  }

  /** Feeding one byte into the bit-serial register: xor it into the low end, then eight rounds. */
  function Step(crc: nat, b: uint8): nat
  {
    Rounds(Xor(crc, b, W), K)
  }

  /** A byte-at-a-time fold: `step` applied to the bytes of `buf` in order, starting from `init`. */
  function Fold(step: (nat, uint8) -> nat, init: nat, buf: seq<uint8>): nat
    decreases |buf|
  {
    if |buf| == 0 then init else step(Fold(step, init, buf[..|buf| - 1]), buf[|buf| - 1])
  }

  /** The bit-serial register after a whole buffer, its bytes fed in order. */
  function Register(init: nat, buf: seq<uint8>): nat
  {
    Fold(Step, init, buf)
  }

  /** The reference CRC-32: register preset to all ones, result complemented. */
  function Checksum(buf: seq<uint8>): (r: nat)
    ensures IsU32(r)
  {
    Widths();
    Not(Register(0xFFFF_FFFF, buf), W)
  }

  /** `table_fn`: its eight identical lines are eight rounds of the register started from i. */
  function TableFn(i: nat): (out: nat)
    ensures IsU32(i) ==> IsU32(out)
  {
    Rounds(i, K)
  }

  /** `TABLE`: entry i is `table_fn(i)`. */
  const TABLE: seq<nat> := seq(256, i requires 0 <= i < 256 => TableFn(i))

  /** `get_table`: fills a 256-entry table in a loop; `TABLE` is its result. */
  method GetTable() returns (table: seq<nat>)
    ensures |table| == 256
    ensures forall i :: 0 <= i < 256 ==> table[i] == TableFn(i)
    ensures table == TABLE
  {
    var t := new nat[256](_ => 0);
    var i := 0;
    while i < 256
      invariant 0 <= i <= 256
      invariant forall j :: 0 <= j < i ==> t[j] == TABLE[j]
    {
      TableAt(i);
      t[i] := TableFn(i);
      i := i + 1;
    }
    table := t[..];
  }

  lemma TableAt(i: nat)
    requires i < 256
    ensures |TABLE| == 256
    ensures TABLE[i] == TableFn(i)
  {
  }

  /** Every table entry is eight rounds of its index, and a `u32`. */
  lemma TableEntries()
    ensures forall i :: 0 <= i < 256 ==> TABLE[i] == Rounds(i, K) && IsU32(TABLE[i])
  {
    forall i | 0 <= i < 256 ensures IsU32(TABLE[i]) {
      Widths();
    }
  }

  /** `crc32`: the register starts at `!0`, takes one table lookup per byte and is complemented. */
  method Crc32(buf: seq<uint8>) returns (r: nat)
    ensures r == Checksum(buf)
    ensures IsU32(r)
  {
    var out := 0xFFFF_FFFF;  // `!0u32`, as AllOnes shows
    var i := 0;
    while i < |buf|
      invariant 0 <= i <= |buf|
      invariant out == Register(0xFFFF_FFFF, buf[..i])
      invariant IsU32(out)
    {
      LoopStep(out, buf, i);
      out := Xor(Shr(out, 8), TABLE[Xor(And(out, 0xff, W), buf[i], W)], W);
      i := i + 1;
    }
    assert buf[..i] == buf;
    r := Not(out, W);
    Widths();
  }

  /** One pass of the `crc32` loop extends the register by the next byte. */
  lemma LoopStep(out: nat, buf: seq<uint8>, i: nat)
    requires i < |buf| && IsU32(out) && out == Register(0xFFFF_FFFF, buf[..i])
    ensures Xor(And(out, 0xff, W), buf[i], W) < |TABLE|
    ensures Xor(Shr(out, 8), TABLE[Xor(And(out, 0xff, W), buf[i], W)], W) == Register(0xFFFF_FFFF, buf[..i + 1])
    ensures IsU32(Register(0xFFFF_FFFF, buf[..i + 1]))
  {
    var idx := Xor(And(out, 0xff, W), buf[i], W);
    TableStep(out, buf[i]);
    TableAt(idx);
    FoldNext(Step, 0xFFFF_FFFF, buf, i);
  }

  // ---------------------------------------------------------------------------
  // Properties

  /** The table index `(out & 0xff) ^ byte` always falls inside the 256-entry table. */
  lemma TableIndexInRange(out: nat, b: uint8)
    ensures Xor(And(out, 0xff, W), b, W) < 256
  {
    var idx := Xor(And(out, 0xff, W), b, W);
    forall i: nat | 8 <= i ensures !TestBit(idx, i) {
      if i < W {
        BitwiseBits(XorOp, And(out, 0xff, W), b, W, i);
        BitwiseBits(AndOp, out, 0xff, W, i);
        Widths();
        HighBitsZero(0xff, 8, i);
        HighBitsZero(b, 8, i);
      } else {
        HighBitsZero(idx, W, i);
      }
    }
    Widths();
    FitsBelow(idx, 8, W);
  }

  /** Rounds are linear over xor: CRC arithmetic is over GF(2). */
  lemma {:induction false} RoundsXor(x: nat, y: nat, k: nat)
    requires IsU32(x) && IsU32(y)
    ensures Rounds(Xor(x, y, W), k) == Xor(Rounds(x, k), Rounds(y, k), W)
    decreases k
  {
    if k > 0 {
      var z := Xor(x, y, W);
      assert Rounds(z, k) == Rounds(Round(z), k - 1);
      RoundXor(x, y);
      RoundsXor(Round(x), Round(y), k - 1);
    }
  }

  /** If the low k bits are clear, k rounds are a plain right shift by k. */
  lemma {:induction false} RoundsOfHigh(hi: nat, k: nat)
    requires IsU32(hi)
    requires forall j: nat :: j < k ==> !TestBit(hi, j)
    ensures Rounds(hi, k) == Shr(hi, k)
    decreases k
  {
    if k > 0 {
      assert !TestBit(hi, 0);
      LowBitAnd(hi);
      var h := Shr(hi, 1);
      assert h == Shr(hi / 2, 0) == hi / 2;
      forall j: nat | j < k - 1 ensures !TestBit(h, j) {
        ShrBits(hi, 1, j);
        assert !TestBit(hi, j + 1);
      }
      RoundsOfHigh(h, k - 1);
    }
  }

  /** One iteration of the `crc32` loop feeds one byte into the bit-serial register. */
  lemma TableStep(out: nat, b: uint8)
    requires IsU32(out)
    ensures Xor(And(out, 0xff, W), b, W) < 256
    ensures Xor(Shr(out, 8), TABLE[Xor(And(out, 0xff, W), b, W)], W) == Step(out, b)
    ensures IsU32(Step(out, b))
  {
    Widths();
    TableIndexInRange(out, b);
    var lo := Xor(And(out, 0xff, W), b, W);
    var hi := Shl(Shr(out, 8), 8, W);
    SplitByte(out, b);
    RoundsXor(lo, hi, K);
    RoundsOfHigh(hi, K);
    XorComm(Rounds(lo, K), Shr(hi, K));
  }

  /** The CRC of the empty buffer is zero: `!!0`. */
  lemma ChecksumEmpty()
    ensures Checksum([]) == 0
  {
    Widths();
    var ones := Pow2(W) - 1;
    forall i: nat | i < W ensures !TestBit(Not(ones, W), i) {
      BitwiseBits(NotOp, ones, 0, W, i);
      OnesBits(W, i);
    }
    ZeroBits(0);
    forall i: nat | i < W ensures TestBit(Not(ones, W), i) == TestBit(0, i) {
      ZeroBits(i);
    }
    Extensionality(Not(ones, W), 0, W);
  }

  /** The register after a concatenation continues from the register after the prefix. */
  lemma RegisterAppend(init: nat, a: seq<uint8>, b: seq<uint8>)
    ensures Register(init, a + b) == Register(Register(init, a), b)
  {
    FoldAppend(Step, init, a, b);
  }

  // ---------------------------------------------------------------------------
  // Helpers

  lemma {:induction false} FoldAppend(step: (nat, uint8) -> nat, init: nat, a: seq<uint8>, b: seq<uint8>)
    ensures Fold(step, init, a + b) == Fold(step, Fold(step, init, a), b)
    decreases |b|
  {
    if |b| == 0 {
      assert a + b == a;
    } else {
      var c := a + b;
      assert c[..|c| - 1] == a + b[..|b| - 1];
      FoldAppend(step, init, a, b[..|b| - 1]);
    }
  }

  lemma FoldNext(step: (nat, uint8) -> nat, init: nat, buf: seq<uint8>, i: nat)
    requires i < |buf|
    ensures Fold(step, init, buf[..i + 1]) == step(Fold(step, init, buf[..i]), buf[i])
  {
    assert buf[..i + 1][..i] == buf[..i];
  }

  /** `table_fn(i)` is the eight source lines applied in turn, each one `Round`. */
  lemma TableFnUnrolled(i: nat)
    ensures TableFn(i) == Round(Round(Round(Round(Round(Round(Round(Round(i))))))))
  {
    var x1 := Round(i);
    var x2 := Round(x1);
    var x3 := Round(x2);
    var x4 := Round(x3);
    var x5 := Round(x4);
    var x6 := Round(x5);
    var x7 := Round(x6);
    assert Rounds(x7, 1) == Round(x7);
    assert Rounds(x6, 2) == Rounds(x7, 1);
    assert Rounds(x5, 3) == Rounds(x6, 2);
    assert Rounds(x4, 4) == Rounds(x5, 3);
    assert Rounds(x3, 5) == Rounds(x4, 4);
    assert Rounds(x2, 6) == Rounds(x3, 5);
    assert Rounds(x1, 7) == Rounds(x2, 6);
    assert Rounds(i, 8) == Rounds(x1, 7);
  }

  lemma Widths()
    ensures Pow2(8) == 0x100 && Pow2(W) == 0x1_0000_0000
  {
    Pow2Values();
  }

  /** `!0u32` is 2^32 - 1. */
  lemma AllOnes()
    ensures Not(0, W) == 0xFFFF_FFFF
  {
    NotZero(W);
    Widths();
  }

  /** `x & 1` is 1 exactly when the low bit is set, and 0 otherwise. */
  lemma LowBitAnd(x: nat)
    ensures And(x, 1, W) == if TestBit(x, 0) then 1 else 0
  {
    Widths();
    var v := if TestBit(x, 0) then 1 else 0;
    forall i: nat | i < W ensures TestBit(And(x, 1, W), i) == TestBit(v, i) {
      BitwiseBits(AndOp, x, 1, W, i);
      OneBits(i);
      ZeroBits(i);
    }
    Extensionality(And(x, 1, W), v, W);
  }

  /** Bits of an xor of two u32 values, at every position. */
  lemma XorBitsU32(x: nat, y: nat, i: nat)
    requires IsU32(x) && IsU32(y)
    ensures TestBit(Xor(x, y, W), i) == (TestBit(x, i) != TestBit(y, i))
  {
    Widths();
    if i < W {
      BitwiseBits(XorOp, x, y, W, i);
    } else {
      HighBitsZero(x, W, i);
      HighBitsZero(y, W, i);
      HighBitsZero(Xor(x, y, W), W, i);
    }
  }

  /** Bit i of a round: bit i + 1 of the register, flipped by the polynomial when bit 0 is set. */
  lemma RoundBits(x: nat, i: nat)
    requires IsU32(x) && i < W
    ensures TestBit(Round(x), i) == ((TestBit(x, 0) && TestBit(POLY, i)) != TestBit(x, i + 1))
  {
    LowBitAnd(x);
    ShrBits(x, 1, i);
    if TestBit(x, 0) {
      BitwiseBits(XorOp, POLY, Shr(x, 1), W, i);
    }
  }

  lemma RoundXor(x: nat, y: nat)
    requires IsU32(x) && IsU32(y)
    ensures Round(Xor(x, y, W)) == Xor(Round(x), Round(y), W)
  {
    Widths();
    var z := Xor(x, y, W);
    forall i: nat | i < W ensures TestBit(Round(z), i) == TestBit(Xor(Round(x), Round(y), W), i) {
      RoundBits(z, i);
      RoundBits(x, i);
      RoundBits(y, i);
      XorBitsU32(x, y, 0);
      XorBitsU32(x, y, i + 1);
      XorBitsU32(Round(x), Round(y), i);
    }
    Extensionality(Round(z), Xor(Round(x), Round(y), W), W);
  }

  lemma XorComm(a: nat, b: nat)
    ensures Xor(a, b, W) == Xor(b, a, W)
  {
    forall i: nat | i < W ensures TestBit(Xor(a, b, W), i) == TestBit(Xor(b, a, W), i) {
      BitwiseBits(XorOp, a, b, W, i);
      BitwiseBits(XorOp, b, a, W, i);
    }
    Extensionality(Xor(a, b, W), Xor(b, a, W), W);
  }

  /**
   * The register xored with a byte splits into the table index (low byte) and
   * the high 24 bits, which eight rounds simply shift down.
   */
  lemma SplitByte(out: nat, b: uint8)
    requires IsU32(out)
    ensures IsU32(Xor(And(out, 0xff, W), b, W))
    ensures IsU32(Shl(Shr(out, 8), 8, W))
    ensures Xor(Xor(And(out, 0xff, W), b, W), Shl(Shr(out, 8), 8, W), W) == Xor(out, b, W)
    ensures forall j: nat :: j < 8 ==> !TestBit(Shl(Shr(out, 8), 8, W), j)
    ensures Shr(Shl(Shr(out, 8), 8, W), 8) == Shr(out, 8)
  {
    Widths();
    var lo := Xor(And(out, 0xff, W), b, W);
    var hi := Shl(Shr(out, 8), 8, W);
    forall i: nat | i < W ensures TestBit(Xor(lo, hi, W), i) == TestBit(Xor(out, b, W), i) {
      BitwiseBits(XorOp, lo, hi, W, i);
      BitwiseBits(XorOp, out, b, W, i);
      BitwiseBits(XorOp, And(out, 0xff, W), b, W, i);
      BitwiseBits(AndOp, out, 0xff, W, i);
      ShlBits(Shr(out, 8), 8, W, i);
      if i < 8 {
        OnesBits(8, i);
      } else {
        HighBitsZero(0xff, 8, i);
        HighBitsZero(b, 8, i);
        ShrBits(out, 8, i - 8);
      }
    }
    Extensionality(Xor(lo, hi, W), Xor(out, b, W), W);
    forall j: nat | j < 8 ensures !TestBit(hi, j) {
      ShlLowBits(Shr(out, 8), 8, W, j);
    }
    assert Shr(out, 8) <= out;
    forall i: nat | i < W ensures TestBit(Shr(hi, 8), i) == TestBit(Shr(out, 8), i) {
      ShrBits(hi, 8, i);
      ShrBits(out, 8, i);
      ShlBits(Shr(out, 8), 8, W, i + 8);
      ShrBits(out, 8, i);
      if i + 8 >= 32 {
        HighBitsZero(out, W, i + 8);
      }
    }
    assert Shr(hi, 8) <= hi;
    Extensionality(Shr(hi, 8), Shr(out, 8), W);
  }
}
