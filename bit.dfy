/**
 * The `BitIndex` operations of kernel/bit.rs, which the source instantiates for
 * u8, u16, u32, u64 and usize. A value of an n-bit type is a natural number below
 * 2^n; Rust's `<<` truncates to n bits and `>>` divides by a power of two, and
 * the bitwise operators are defined bit by bit on n-bit words.
 */
module BitIndex {

  /** The integer types `bitindex_num_impl!` is applied to. */
  datatype IntType = U8 | U16 | U32 | U64 | Usize

  /** `size_of::<T>()` on riscv64, where `usize` is 8 bytes wide. */
  function SizeOf(t: IntType): nat
  {
    match t
    case U8 => 1
    case U16 => 2
    case U32 => 4
    case U64 => 8
    case Usize => 8
  }

  /** `T::max_value()`, written out as the source's types define it. */
  function MaxValue(t: IntType): nat
  {
    match t
    case U8 => 0xFF
    case U16 => 0xFFFF
    case U32 => 0xFFFF_FFFF
    case U64 => 0xFFFF_FFFF_FFFF_FFFF
    case Usize => 0xFFFF_FFFF_FFFF_FFFF
  }

  /** The bit widths that occur. */
  type Width = w: nat | w == 8 || w == 16 || w == 32 || w == 64 witness 8

  function Pow2(n: nat): (r: nat)
    ensures r >= 1
  {
    if n == 0 then 1 else 2 * Pow2(n - 1)
  }

  /** `bit_length()`: the width of the type, which also spans exactly its value range. */
  function BitLength(t: IntType): (len: nat)
    ensures Pow2(len) == MaxValue(t) + 1
  {
    WidthOf(t);
    SizeOf(t) * 8
  }

  lemma WidthOf(t: IntType)
    ensures SizeOf(t) * 8 == 8 || SizeOf(t) * 8 == 16 || SizeOf(t) * 8 == 32 || SizeOf(t) * 8 == 64
    ensures Pow2(SizeOf(t) * 8) == MaxValue(t) + 1
  {
    Pow2Values();
    match t
    case U8 =>
    case U16 =>
    case U32 =>
    case U64 =>
    case Usize =>
  }

  /** Bit i of x, counting from 0 at the least significant end: the reference meaning of a bit. */
  predicate TestBit(x: nat, i: nat)
  {
    if i == 0 then x % 2 == 1 else TestBit(x / 2, i - 1)
  }

  // ---------------------------------------------------------------------------
  // Fixed-width operators, as Rust evaluates them on an n-bit unsigned type.

  /** The one-bit operators the word operators are built from (`Keep` copies its first operand). */
  datatype BitOp = AndOp | OrOp | XorOp | NotOp | KeepOp

  function ApplyOp(op: BitOp, p: bool, q: bool): bool
  {
    match op
    case AndOp => p && q
    case OrOp => p || q
    case XorOp => p != q
    case NotOp => !p
    case KeepOp => p
  }

  /** A bitwise operator applied to the low n bits of a and b. */
  function Bitwise(op: BitOp, a: nat, b: nat, n: nat): (r: nat)
    ensures r < Pow2(n)
  {
    if n == 0 then 0
    else 2 * Bitwise(op, a / 2, b / 2, n - 1) + (if ApplyOp(op, a % 2 == 1, b % 2 == 1) then 1 else 0)
  }

  function And(a: nat, b: nat, n: nat): nat { Bitwise(AndOp, a, b, n) }
  function Or(a: nat, b: nat, n: nat): nat { Bitwise(OrOp, a, b, n) }
  function Xor(a: nat, b: nat, n: nat): nat { Bitwise(XorOp, a, b, n) }
  function Not(a: nat, n: nat): nat { Bitwise(NotOp, a, 0, n) }

  /** The low n bits of y: what an n-bit register keeps of it. */
  function Low(y: nat, n: nat): nat { Bitwise(KeepOp, y, 0, n) }

  /** `x << k` on an n-bit type: x doubled k times, the bits shifted past the top lost. */
  function Shl(x: nat, k: nat, n: nat): (r: nat)
    ensures r < Pow2(n)
    decreases k
  {
    if k == 0 then Low(x, n) else Shl(2 * x, k - 1, n)
  }

  /** `x >> k` on an unsigned type: x halved k times. */
  function Shr(x: nat, k: nat): (r: nat)
    ensures r <= x
  {
    if k == 0 then x else Shr(x / 2, k - 1)
  }

  /** `a.wrapping_sub(b)` on an n-bit type: a - b, taken modulo 2^n. */
  function WrappingSub(a: nat, b: nat, n: nat): (r: nat)
    requires a < Pow2(n) && b < Pow2(n)
    ensures r < Pow2(n)
  {
    Low(a + (Pow2(n) - b), n)
  }

  // ---------------------------------------------------------------------------
  // The four BitIndex operations. Each panics (assert!) outside its precondition.

  /** `bit(pos)`: `*self & 1 << pos != 0`; it reads bit `pos`. */
  function Bit(x: nat, pos: nat, len: nat): (b: bool)
    requires x < Pow2(len) && pos < len
    ensures b == TestBit(x, pos)
  {
    BitProbe(x, pos, len);
    And(x, Shl(1, pos, len), len) != 0
  }

  /** The assertion of `bit_range`: a non-empty range that ends within the type. */
  predicate BitRangeOk(s: nat, e: nat, len: nat)
  {
    s < e <= len
  }

  /**
   * `bit_range(s..e)`: `*self << len - e >> len - e + s`. Shifting left drops the
   * bits from e up; the result is the e - s low bits of x >> s.
   */
  function BitRange(x: nat, s: nat, e: nat, len: nat): (r: nat)
    requires x < Pow2(len) && BitRangeOk(s, e, len)
    ensures r == Low(Shr(x, s), e - s)
  {
    BitRangeMeaning(x, s, e, len);
    Shr(Shl(x, len - e, len), len - e + s)
  }

  /** `set_bit(pos, val)`: `*self ^= (T::min_value().wrapping_sub(val as T) ^ *self) & 1 << pos`. */
  function SetBit(x: nat, pos: nat, v: bool, len: nat): (r: nat)
    requires x < Pow2(len) && pos < len
    ensures r < Pow2(len)
  {
    Xor(x, And(Xor(Fill(v, len), x, len), Shl(1, pos, len), len), len)
  }

  /** `T::min_value().wrapping_sub(val as T)`: all ones for true, zero for false. */
  function Fill(v: bool, len: nat): nat
    requires len > 0
  {
    WrappingSub(0, if v then 1 else 0, len)
  }

  /**
   * The assertions of `set_bit_range`: the range itself, and the fit check
   * `val.bit_range((e - s)..len) == 0`, which is itself a `bit_range` call and
   * therefore needs `e - s < len`.
   */
  predicate SetBitRangeOk(s: nat, e: nat, v: nat, len: nat)
    requires v < Pow2(len)
  {
    BitRangeOk(s, e, len) && BitRangeOk(e - s, len, len) && BitRange(v, e - s, len, len) == 0
  }

  /** `set_bit_range(s..e, val)`: `*self & !(max.bit_range(s..e) << s) | val << s`. */
  function SetBitRange(x: nat, s: nat, e: nat, v: nat, len: nat): (r: nat)
    requires x < Pow2(len) && v < Pow2(len) && SetBitRangeOk(s, e, v, len)
    ensures r < Pow2(len)
  {
    Or(And(x, RangeMask(s, e, len), len), Shl(v, s, len), len)
  }

  /** The mask `!(T::max_value().bit_range(s..e) << s)`: every bit except s..e. */
  function RangeMask(s: nat, e: nat, len: nat): (r: nat)
    requires BitRangeOk(s, e, len)
    ensures r < Pow2(len)
  {
    Not(Shl(BitRange(Pow2(len) - 1, s, e, len), s, len), len)
  }

  // ---------------------------------------------------------------------------
  // Properties relating several calls, and the arithmetic meaning of each operation.

  /** `bit_range(s..e)` is (x >> s) mod 2^(e - s). */
  lemma BitRangeValue(x: nat, s: nat, e: nat, len: nat)
    requires x < Pow2(len) && BitRangeOk(s, e, len)
    ensures BitRange(x, s, e, len) == (x / Pow2(s)) % Pow2(e - s)
  {
    ShrMeaning(x, s);
    LowMeaning(Shr(x, s), e - s);
  }

  /** The fit check of `set_bit_range` accepts exactly the values that fit in e - s bits. */
  lemma SetBitRangeFit(s: nat, e: nat, v: nat, len: nat)
    requires v < Pow2(len) && BitRangeOk(s, e, len)
    ensures SetBitRangeOk(s, e, v, len) <==> e - s < len && v < Pow2(e - s)
  {
    var w := e - s;
    if w < len {
      var high := BitRange(v, w, len, len);
      Pow2Mono(len - w, len);
      if v < Pow2(w) {
        forall i: nat | i < len ensures !TestBit(high, i) {
          LowBits(Shr(v, w), len - w, i);
          ShrBits(v, w, i);
          HighBitsZero(v, w, i + w);
        }
        ZeroBitsOnly(high, len);
      }
      if high == 0 {
        forall i: nat | w <= i ensures !TestBit(v, i) {
          if i < len {
            LowBits(Shr(v, w), len - w, i - w);
            ShrBits(v, w, i - w);
            ZeroBits(i - w);
          } else {
            HighBitsZero(v, len, i);
          }
        }
        FitsBelow(v, w, len);
      }
    }
  }

  /**
   * `set_bit_range` over the whole width (`0..len`) always panics, whatever
   * the value: its fit check calls `bit_range(len..len)`, an empty range that
   * `bit_range`'s own assert rejects.
   */
  lemma FullWidthSetBitRangePanics(v: nat, len: nat)
    requires v < Pow2(len)
    ensures !SetBitRangeOk(0, len, v, len)
  {
  }

  /** After `set_bit(pos, v)`, `bit(pos)` reads v and every other bit reads as before. */
  lemma SetBitThenBit(x: nat, pos: nat, v: bool, i: nat, len: nat)
    requires x < Pow2(len) && pos < len && i < len
    ensures Bit(SetBit(x, pos, v, len), i, len) == if i == pos then v else Bit(x, i, len)
  {
    SetBitBits(x, pos, v, len, i);
  }

  /** After `set_bit_range(s..e, v)`, `bit_range(s..e)` reads v back. */
  lemma SetBitRangeThenBitRange(x: nat, s: nat, e: nat, v: nat, len: nat)
    requires x < Pow2(len) && v < Pow2(len) && SetBitRangeOk(s, e, v, len)
    ensures BitRange(SetBitRange(x, s, e, v, len), s, e, len) == v
  {
    var r := SetBitRange(x, s, e, v, len);
    var got := BitRange(r, s, e, len);
    SetBitRangeFit(s, e, v, len);
    forall i: nat | i < len ensures TestBit(got, i) == TestBit(v, i) {
      LowBits(Shr(r, s), e - s, i);
      ShrBits(r, s, i);
      if i < e - s {
        SetBitRangeBits(x, s, e, v, len, s + i);
      }
      if e - s <= i {
        HighBitsZero(v, e - s, i);
      }
    }
    Pow2Mono(e - s, len);
    Extensionality(got, v, len);
  }

  /** Bits outside s..e are the same before and after `set_bit_range(s..e, v)`. */
  lemma SetBitRangeFrame(x: nat, s: nat, e: nat, v: nat, len: nat, i: nat)
    requires x < Pow2(len) && v < Pow2(len) && SetBitRangeOk(s, e, v, len)
    requires i < len && !(s <= i < e)
    ensures Bit(SetBitRange(x, s, e, v, len), i, len) == Bit(x, i, len)
  {
    SetBitRangeBits(x, s, e, v, len, i);
  }

  /** Writing back the value a range already holds leaves the word unchanged. */
  lemma SetBitRangeSame(x: nat, s: nat, e: nat, len: nat)
    requires x < Pow2(len) && BitRangeOk(s, e, len) && e - s < len
    ensures BitRange(x, s, e, len) < Pow2(len)
    ensures SetBitRangeOk(s, e, BitRange(x, s, e, len), len)
    ensures SetBitRange(x, s, e, BitRange(x, s, e, len), len) == x
  {
    var v := BitRange(x, s, e, len);
    Pow2Mono(e - s, len);
    SetBitRangeFit(s, e, v, len);
    var r := SetBitRange(x, s, e, v, len);
    forall i: nat | i < len ensures TestBit(r, i) == TestBit(x, i) {
      SetBitRangeBits(x, s, e, v, len, i);
      if s <= i < e {
        LowBits(Shr(x, s), e - s, i - s);
        ShrBits(x, s, i - s);
      }
    }
    Extensionality(r, x, len);
  }

  // ---------------------------------------------------------------------------
  // Proofs of the per-call contracts.

  lemma BitProbe(x: nat, pos: nat, len: nat)
    requires x < Pow2(len) && pos < len
    ensures (And(x, Shl(1, pos, len), len) != 0) == TestBit(x, pos)
  {
    var one := Shl(1, pos, len);
    var a := And(x, one, len);
    forall i: nat | i < len ensures TestBit(a, i) == (i == pos && TestBit(x, pos)) {
      BitwiseBits(AndOp, x, one, len, i);
      ShlBits(1, pos, len, i);
      if i >= pos { OneBits(i - pos); }
    }
    if TestBit(x, pos) {
      ZeroBits(pos);
    } else {
      ZeroBitsOnly(a, len);
    }
  }

  lemma BitRangeMeaning(x: nat, s: nat, e: nat, len: nat)
    requires x < Pow2(len) && BitRangeOk(s, e, len)
    ensures Shr(Shl(x, len - e, len), len - e + s) == Low(Shr(x, s), e - s)
  {
    var y := Shl(x, len - e, len);
    var got := Shr(y, len - e + s);
    var want := Low(Shr(x, s), e - s);
    forall i: nat | i < len ensures TestBit(got, i) == TestBit(want, i) {
      ShrBits(y, len - e + s, i);
      ShlBits(x, len - e, len, i + (len - e + s));
      LowBits(Shr(x, s), e - s, i);
      ShrBits(x, s, i);
    }
    Pow2Mono(e - s, len);
    Extensionality(got, want, len);
  }

  /** The bits of `min_value().wrapping_sub(val as T)`. */
  lemma FillBits(v: bool, len: nat, i: nat)
    requires i < len
    ensures TestBit(Fill(v, len), i) == v
  {
    LowBits(0 + (Pow2(len) - (if v then 1 else 0)), len, i);
    if v {
      OnesBits(len, i);
    } else {
      Pow2Bits(len, i);
    }
  }

  /** `set_bit(pos, v)` gives bit pos the value v and leaves every other bit as it was. */
  lemma SetBitBits(x: nat, pos: nat, v: bool, len: nat, i: nat)
    requires x < Pow2(len) && pos < len && i < len
    ensures TestBit(SetBit(x, pos, v, len), i) == if i == pos then v else TestBit(x, i)
  {
    var fill := Fill(v, len);
    var one := Shl(1, pos, len);
    var d := Xor(fill, x, len);
    var m := And(d, one, len);
    BitwiseBits(XorOp, x, m, len, i);
    BitwiseBits(AndOp, d, one, len, i);
    BitwiseBits(XorOp, fill, x, len, i);
    ShlBits(1, pos, len, i);
    if i >= pos { OneBits(i - pos); }
    FillBits(v, len, i);
  }

  lemma RangeMaskBit(s: nat, e: nat, len: nat, i: nat)
    requires BitRangeOk(s, e, len) && i < len
    ensures TestBit(RangeMask(s, e, len), i) == !(s <= i < e)
  {
    var max := Pow2(len) - 1;
    var ones := BitRange(max, s, e, len);
    var sh := Shl(ones, s, len);
    BitwiseBits(NotOp, sh, 0, len, i);
    ShlBits(ones, s, len, i);
    if s <= i {
      LowBits(Shr(max, s), e - s, i - s);
      ShrBits(max, s, i - s);
      OnesBits(len, i);
    }
  }

  /** `set_bit_range(s..e, v)` puts v in bits s..e and leaves every other bit as it was. */
  lemma SetBitRangeBits(x: nat, s: nat, e: nat, v: nat, len: nat, i: nat)
    requires x < Pow2(len) && v < Pow2(len) && SetBitRangeOk(s, e, v, len) && i < len
    ensures TestBit(SetBitRange(x, s, e, v, len), i) == if s <= i < e then TestBit(v, i - s) else TestBit(x, i)
  {
    var mask := RangeMask(s, e, len);
    var lo := And(x, mask, len);
    var hi := Shl(v, s, len);
    SetBitRangeFit(s, e, v, len);
    BitwiseBits(OrOp, lo, hi, len, i);
    BitwiseBits(AndOp, x, mask, len, i);
    RangeMaskBit(s, e, len, i);
    ShlBits(v, s, len, i);
    if e <= i {
      HighBitsZero(v, e - s, i - s);
    }
  }

  // ---------------------------------------------------------------------------
  // Arithmetic of powers of two and of bits.

  lemma Pow2Values()
    ensures Pow2(8) == 0x100 && Pow2(16) == 0x1_0000
    ensures Pow2(32) == 0x1_0000_0000 && Pow2(64) == 0x1_0000_0000_0000_0000
  {
    assert Pow2(4) == 16 by {
      assert Pow2(1) == 2;
      assert Pow2(2) == 4;
      assert Pow2(3) == 8;
    }
    Pow2Add(4, 4);
    Pow2Add(8, 8);
    Pow2Add(16, 16);
    Pow2Add(32, 32);
  }

  lemma {:induction false} Pow2Add(a: nat, b: nat)
    ensures Pow2(a + b) == Pow2(a) * Pow2(b)
  {
    if a > 0 {
      Pow2Add(a - 1, b);
    }
  }

  lemma {:induction false} Pow2Mono(a: nat, b: nat)
    requires a <= b
    ensures Pow2(a) <= Pow2(b)
  {
    if a < b {
      Pow2Mono(a, b - 1);
    }
  }

  lemma MulPosMono(a: int, d: int)
    requires a >= 1 && d > 0
    ensures a * d >= d
  {
  }

  lemma DivModUnique(x: int, d: int, q: int, r: int)
    requires d > 0 && 0 <= r < d && x == q * d + r
    ensures x / d == q && x % d == r
  {
    var q', r' := x / d, x % d;
    assert (q - q') * d == r' - r;
    if q > q' {
      MulPosMono(q - q', d);
    } else if q < q' {
      MulPosMono(q' - q, d);
    }
  }

  lemma MulMonoLe(x: int, y: int, a: int)
    requires x <= y && a >= 0
    ensures x * a <= y * a
  {
  }

  /** x < a * b implies x / a < b. */
  lemma DivBelow(x: nat, a: nat, b: nat)
    requires a > 0 && x < a * b
    ensures x / a < b
  {
    assert x == (x / a) * a + x % a;
    if x / a >= b {
      MulMonoLe(b, x / a, a);
    }
  }

  lemma DivDiv(x: nat, a: nat, b: nat)
    requires a > 0 && b > 0
    ensures x / (a * b) == (x / a) / b
    ensures x % (a * b) == a * ((x / a) % b) + x % a
  {
    var q, r := x / a, x % a;
    var q2, r2 := q / b, q % b;
    assert x == a * q + r;
    assert q == b * q2 + r2;
    MulSplit(a, b, q2, r2);
    MulMonoLe(r2, b - 1, a);
    MulMonoLe(0, r2, a);
    MulPred(a, b);
    DivModUnique(x, a * b, q2, a * r2 + r);
  }

  lemma MulSplit(a: int, b: int, q: int, r: int)
    ensures a * (b * q + r) == (a * b) * q + a * r
  {
  }

  lemma MulPred(a: int, b: int)
    ensures (b - 1) * a == a * b - a
  {
  }

  /** The bits of 2q + r are r followed by the bits of q. */
  lemma BitOfDouble(q: nat, r: nat, i: nat)
    requires r < 2
    ensures TestBit(2 * q + r, 0) == (r == 1)
    ensures TestBit(2 * q + r, i + 1) == TestBit(q, i)
  {
    assert (2 * q + r) / 2 == q;
  }

  lemma {:induction false} ZeroBits(i: nat)
    ensures !TestBit(0, i)
  {
    if i > 0 {
      ZeroBits(i - 1);
    }
  }

  lemma {:induction false} OneBits(i: nat)
    ensures TestBit(1, i) == (i == 0)
  {
    if i > 0 {
      ZeroBits(i - 1);
    }
  }

  /** All n low bits of 2^n - 1 are set. */
  lemma {:induction false} OnesBits(n: nat, i: nat)
    requires i < n
    ensures TestBit(Pow2(n) - 1, i)
  {
    var m := Pow2(n - 1) - 1;
    assert Pow2(n) - 1 == 2 * m + 1;
    if i == 0 {
      BitOfDouble(m, 1, 0);
    } else {
      BitOfDouble(m, 1, i - 1);
      OnesBits(n - 1, i - 1);
    }
  }

  lemma {:induction false} HighBitsZero(x: nat, n: nat, i: nat)
    requires x < Pow2(n) && n <= i
    ensures !TestBit(x, i)
  {
    if n == 0 {
      ZeroBits(i);
    } else {
      DivBelow(x, 2, Pow2(n - 1));
      HighBitsZero(x / 2, n - 1, i - 1);
    }
  }

  /** Two n-bit words with the same n low bits are equal. */
  lemma {:induction false} Extensionality(a: nat, b: nat, n: nat)
    requires a < Pow2(n) && b < Pow2(n)
    requires forall i: nat :: i < n ==> TestBit(a, i) == TestBit(b, i)
    ensures a == b
  {
    if n > 0 {
      DivBelow(a, 2, Pow2(n - 1));
      DivBelow(b, 2, Pow2(n - 1));
      forall i: nat | i < n - 1 ensures TestBit(a / 2, i) == TestBit(b / 2, i) {
        assert TestBit(a, i + 1) == TestBit(b, i + 1);
      }
      Extensionality(a / 2, b / 2, n - 1);
      assert TestBit(a, 0) == TestBit(b, 0);
    }
  }

  /** A word whose n low bits are all clear is zero. */
  lemma ZeroBitsOnly(a: nat, n: nat)
    requires a < Pow2(n)
    requires forall i: nat :: i < n ==> !TestBit(a, i)
    ensures a == 0
  {
    forall i: nat | i < n ensures TestBit(a, i) == TestBit(0, i) {
      ZeroBits(i);
    }
    Extensionality(a, 0, n);
  }

  /** The n-bit complement of zero has all n bits set. */
  lemma NotZero(n: nat)
    ensures Not(0, n) == Pow2(n) - 1
  {
    forall i: nat | i < n ensures TestBit(Not(0, n), i) == TestBit(Pow2(n) - 1, i) {
      BitwiseBits(NotOp, 0, 0, n, i);
      ZeroBits(i);
      OnesBits(n, i);
    }
    Extensionality(Not(0, n), Pow2(n) - 1, n);
  }

  /** An n-bit word with no bit set from w up is below 2^w. */
  lemma FitsBelow(v: nat, w: nat, n: nat)
    requires v < Pow2(n) && w <= n
    requires forall i: nat :: w <= i ==> !TestBit(v, i)
    ensures v < Pow2(w)
  {
    forall i: nat | i < n ensures TestBit(v, i) == TestBit(Low(v, w), i) {
      LowBits(v, w, i);
    }
    Pow2Mono(w, n);
    Extensionality(v, Low(v, w), n);
  }

  lemma {:induction false} Pow2Bits(n: nat, i: nat)
    ensures TestBit(Pow2(n), i) == (i == n)
  {
    if n == 0 {
      OneBits(i);
    } else {
      BitOfDouble(Pow2(n - 1), 0, if i == 0 then 0 else i - 1);
      if i > 0 {
        Pow2Bits(n - 1, i - 1);
      }
    }
  }

  /** Keeping the n low bits is reduction modulo 2^n. */
  lemma LowMeaning(y: nat, n: nat)
    ensures Low(y, n) == y % Pow2(n)
  {
    forall i: nat | i < n ensures TestBit(Low(y, n), i) == TestBit(y % Pow2(n), i) {
      LowBits(y, n, i);
      ModPow2Bits(y, n, i);
    }
    Extensionality(Low(y, n), y % Pow2(n), n);
  }

  /** `wrapping_sub` is subtraction modulo 2^n. */
  lemma WrappingSubMeaning(a: nat, b: nat, n: nat)
    requires a < Pow2(n) && b < Pow2(n)
    ensures WrappingSub(a, b, n) == (a - b) % Pow2(n)
  {
    LowMeaning(a + (Pow2(n) - b), n);
    AddModulus(a, b, Pow2(n));
  }

  /** Adding the modulus does not change a difference modulo p. */
  lemma AddModulus(a: int, b: int, p: int)
    requires 0 <= a < p && 0 <= b < p
    ensures (a + (p - b)) % p == (a - b) % p
  {
    if a >= b {
      DivModUnique(a + (p - b), p, 1, a - b);
      DivModUnique(a - b, p, 0, a - b);
    } else {
      DivModUnique(a + (p - b), p, 0, a + (p - b));
      DivModUnique(a - b, p, -1, a + (p - b));
    }
  }

  lemma {:induction false} BitwiseBits(op: BitOp, a: nat, b: nat, n: nat, i: nat)
    requires i < n
    ensures TestBit(Bitwise(op, a, b, n), i) == ApplyOp(op, TestBit(a, i), TestBit(b, i))
  {
    var low := if ApplyOp(op, a % 2 == 1, b % 2 == 1) then 1 else 0;
    var rest := Bitwise(op, a / 2, b / 2, n - 1);
    BitOfDouble(rest, low, if i == 0 then 0 else i - 1);
    if i > 0 {
      BitwiseBits(op, a / 2, b / 2, n - 1, i - 1);
    }
  }

  lemma {:induction false} MulPow2Bits(x: nat, k: nat, i: nat)
    ensures TestBit(x * Pow2(k), i) == (k <= i && TestBit(x, i - k))
  {
    if k > 0 {
      var y := x * Pow2(k - 1);
      assert x * Pow2(k) == 2 * y + 0;
      BitOfDouble(y, 0, if i == 0 then 0 else i - 1);
      if i > 0 {
        MulPow2Bits(x, k - 1, i - 1);
      }
    }
  }

  lemma {:induction false} ModPow2Bits(y: nat, n: nat, i: nat)
    ensures TestBit(y % Pow2(n), i) == (i < n && TestBit(y, i))
  {
    if n == 0 {
      ZeroBits(i);
    } else {
      var q := y / 2 / Pow2(n - 1);
      var h := (y / 2) % Pow2(n - 1);
      assert y / 2 == q * Pow2(n - 1) + h;
      assert y == q * Pow2(n) + (2 * h + y % 2);
      DivModUnique(y, Pow2(n), q, 2 * h + y % 2);
      BitOfDouble(h, y % 2, if i == 0 then 0 else i - 1);
      if i > 0 {
        ModPow2Bits(y / 2, n - 1, i - 1);
      }
    }
  }

  lemma LowBits(y: nat, n: nat, i: nat)
    ensures TestBit(Low(y, n), i) == (i < n && TestBit(y, i))
  {
    if i < n {
      BitwiseBits(KeepOp, y, 0, n, i);
    } else {
      HighBitsZero(Low(y, n), n, i);
    }
  }

  lemma {:induction false} ShlBits(x: nat, k: nat, n: nat, i: nat)
    ensures TestBit(Shl(x, k, n), i) == (k <= i < n && TestBit(x, i - k))
    decreases k
  {
    if k == 0 {
      LowBits(x, n, i);
    } else {
      ShlBits(2 * x, k - 1, n, i);
      BitOfDouble(x, 0, if i >= k then i - k else 0);
    }
  }

  /** The shift is multiplication by 2^k reduced modulo 2^n. */
  lemma ShlMeaning(x: nat, k: nat, n: nat)
    ensures Shl(x, k, n) == (x * Pow2(k)) % Pow2(n)
  {
    forall i: nat | i < n ensures TestBit(Shl(x, k, n), i) == TestBit((x * Pow2(k)) % Pow2(n), i) {
      ShlBits(x, k, n, i);
      ModPow2Bits(x * Pow2(k), n, i);
      MulPow2Bits(x, k, i);
    }
    Extensionality(Shl(x, k, n), (x * Pow2(k)) % Pow2(n), n);
  }

  lemma ShlLowBits(x: nat, k: nat, n: nat, i: nat)
    requires i < k
    ensures !TestBit(Shl(x, k, n), i)
  {
    ShlBits(x, k, n, i);
  }

  lemma {:induction false} ShrBits(x: nat, k: nat, i: nat)
    ensures TestBit(Shr(x, k), i) == TestBit(x, i + k)
  {
    if k > 0 {
      ShrBits(x / 2, k - 1, i);
    }
  }

  /** The shift is division by 2^k. */
  lemma {:induction false} ShrMeaning(x: nat, k: nat)
    ensures Shr(x, k) == x / Pow2(k)
  {
    if k > 0 {
      ShrMeaning(x / 2, k - 1);
      DivDiv(x, 2, Pow2(k - 1));
    }
  }

}
