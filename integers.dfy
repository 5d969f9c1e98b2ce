/**
 * Fixed-width unsigned integers and the two C operators the version interface
 * uses on them: a left shift of a uint64_t and a bitwise or.
 */
module Integers {

  type uint16 = x: int | 0 <= x < 0x1_0000
  type uint32 = x: int | 0 <= x < 0x1_0000_0000
  type uint64 = x: int | 0 <= x < 0x1_0000_0000_0000_0000

  const Two32: nat := 0x1_0000_0000
  const Two64: nat := 0x1_0000_0000_0000_0000

  function Pow2(n: nat): (r: nat)
    ensures r >= 1
  {
    if n == 0 then 1 else 2 * Pow2(n - 1)
  }

  lemma {:induction false} Pow2Add(a: nat, b: nat)
    ensures Pow2(a + b) == Pow2(a) * Pow2(b)
  {
    if a > 0 {
      Pow2Add(a - 1, b);
      assert Pow2(a + b) == 2 * Pow2(a - 1 + b);
    }
  }

  lemma Pow2Of32()
    ensures Pow2(32) == Two32
  {
    assert Pow2(8) == 256;
    Pow2Add(8, 8);
    Pow2Add(16, 16);
  }

  /** C's `x << n` on a uint64_t: the bits shifted past bit 63 are lost. */
  function ShiftLeft64(x: uint64, n: nat): (r: uint64)
    requires n < 64
    ensures x * Pow2(n) < Two64 ==> r == x * Pow2(n)
  {
    (x * Pow2(n)) % Two64
  }

  /** C's `a | b` on unsigned integers, taken bit by bit from the least significant end. */
  function BitOr(a: nat, b: nat): (r: nat)
    ensures a <= r && b <= r && r <= a + b
    decreases a + b
  {
    if a == 0 then b
    else if b == 0 then a
    else (if a % 2 == 1 || b % 2 == 1 then 1 else 0) + 2 * BitOr(a / 2, b / 2)
  }

  /** A bitwise or of two values with no set bit in common is their sum. */
  lemma {:induction false} BitOrOfDisjointBits(a: nat, b: nat, n: nat)
    requires b < Pow2(n)
    ensures BitOr(a * Pow2(n), b) == a * Pow2(n) + b
  {
    if n == 0 {
      assert b == 0;
    } else if a == 0 || b == 0 {
    } else {
      var hi := a * Pow2(n - 1);
      assert a * Pow2(n) == 2 * hi;
      assert (2 * hi) / 2 == hi && (2 * hi) % 2 == 0;
      assert b / 2 < Pow2(n - 1);
      BitOrOfDisjointBits(a, b / 2, n - 1);
      assert BitOr(2 * hi, b) == b % 2 + 2 * BitOr(hi, b / 2);
    }
  }

  /** `(uint64_t)high << 32 | low`: two 32-bit halves joined into one 64-bit value. */
  function Join32(high: uint32, low: uint32): (r: uint64)
    ensures r == high * Two32 + low
    ensures r / Two32 == high && r % Two32 == low
  {
    Pow2Of32();
    BitOrOfDisjointBits(high, low, 32);
    BitOr(ShiftLeft64(high, 32), low)
  }

  /** Joining is injective: different halves never give the same 64-bit value. */
  lemma Join32Injective(h1: uint32, l1: uint32, h2: uint32, l2: uint32)
    requires Join32(h1, l1) == Join32(h2, l2)
    ensures h1 == h2 && l1 == l2
  {
  }

  /** Every 64-bit value is the join of its high and low halves. */
  lemma Join32Surjective(x: uint64)
    ensures Join32(x / Two32, x % Two32) == x
  {
  }
}
