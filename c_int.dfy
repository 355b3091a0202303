/**
  The parts of C99 integer semantics that the timer relies on, stated on
  mathematical integers.

  - `uint64_t` values are the integers 0 .. 2^64-1; unsigned arithmetic is
    reduced modulo 2^64 (ISO C99 section 6.2.5 paragraph 9).
  - `~E` flips every one of the 64 bits of E.  It is written bit by bit
    below and proved to be `UINT64_MAX - E`, the value ISO C99 section
    6.5.3.3 paragraph 4 gives for an unsigned operand.
  - `int64_t` holds -2^63 .. 2^63-1 in two's complement (ISO C99 section
    7.18.1.1).  Converting an out-of-range `uint64_t` to it is
    implementation-defined (ISO C99 section 6.3.1.3 paragraph 3); it is
    modelled as reinterpretation of the 64-bit pattern, which is what a
    two's-complement `int64_t` gives on the compilers this code targets.
*/
module CInt {

  const TWO_63: int := 0x8000_0000_0000_0000
  const TWO_64: int := 0x1_0000_0000_0000_0000

  /** The values of C's `uint64_t`. */
  type UInt64 = x: int | 0 <= x < TWO_64

  /** The values of C's `int64_t`. */
  type Int64 = x: int | -TWO_63 <= x < TWO_63

  function Pow2(n: nat): (p: nat)
    ensures p >= 1
  {
    if n == 0 then 1 else 2 * Pow2(n - 1)
  }

  lemma {:induction false} Pow2Add(m: nat, n: nat)
    ensures Pow2(m + n) == Pow2(m) * Pow2(n)
  {
    if n > 0 {
      Pow2Add(m, n - 1);
      assert Pow2(m + n) == 2 * Pow2(m + n - 1);
    }
  }

  /** A 64-bit word spans exactly 2^64 values. */
  lemma Pow2Is64()
    ensures Pow2(64) == TWO_64
  {
    assert Pow2(1) == 2;
    Pow2Add(1, 1);
    Pow2Add(2, 2);
    Pow2Add(4, 4);
    Pow2Add(8, 8);
    Pow2Add(16, 16);
    Pow2Add(32, 32);
  }

  /** The number whose low `width` bits are those of `x`, each flipped. */
  function BitComplement(x: nat, width: nat): nat
  {
    if width == 0 then 0 else (1 - x % 2) + 2 * BitComplement(x / 2, width - 1)
  }

  /** Flipping every bit of a `width`-bit number subtracts it from the all-ones word. */
  lemma {:induction false} BitComplementValue(x: nat, width: nat)
    requires x < Pow2(width)
    ensures BitComplement(x, width) == Pow2(width) - 1 - x
  {
    if width > 0 {
      BitComplementValue(x / 2, width - 1);
    }
  }

  /** C's `~b` on a `uint64_t`. */
  function Not64(b: UInt64): (r: UInt64)
    ensures r == TWO_64 - 1 - b
  {
    Pow2Is64();
    BitComplementValue(b, 64);
    BitComplement(b, 64)
  }

  /** C's `a + b` on two `uint64_t` operands. */
  function AddU64(a: UInt64, b: UInt64): (r: UInt64)
    ensures r == a + b || r == a + b - TWO_64
  {
    (a + b) % TWO_64
  }

  /** Conversion of a `uint64_t` value to `int64_t`: same bit pattern. */
  function ToInt64(r: UInt64): (v: Int64)
    ensures (v - r) % TWO_64 == 0
    ensures v < 0 <==> r >= TWO_63
  {
    if r < TWO_63 then r else r - TWO_64
  }

  /** Conversion of an `int64_t` value to `uint64_t`: the value modulo 2^64 (ISO C99 section 6.3.1.3 paragraph 2). */
  function FromInt64(v: Int64): (r: UInt64)
    ensures (r - v) % TWO_64 == 0
  {
    if v >= 0 then v else v + TWO_64
  }

  /** The two conversions are inverse to each other: reinterpretation loses nothing. */
  lemma ConversionsInverse(r: UInt64, v: Int64)
    ensures FromInt64(ToInt64(r)) == r
    ensures ToInt64(FromInt64(v)) == v
  {
  }
}
