/**
 * The leading-zero count the UTF-8 decoder uses to size a sequence from its
 * lead byte (`frog_utf_lzcnt`). Only the portable shift-and-count branch is
 * modelled; the compiler-intrinsic branches compute the same function.
 */
module Bits {

  /**
   * The portable leading-zero count: 32 for zero, otherwise the `r` for
   * which bit `31 - r` is the highest set bit, that is
   * 2^(31-r) <= n < 2^(32-r).
   */
  function Lzcnt(n: bv32): (r: bv32)
    ensures n == 0 ==> r == 32
    ensures n != 0 ==> r < 32 && (1 as bv32) << (31 - r) <= n
    ensures n != 0 && r != 0 ==> n < (1 as bv32) << (32 - r)
  {
    if n == 0 then 32
    else
      // Each step tests whether the top half of the remaining window is
      // clear and, if so, counts it and shifts it out.
      var r1: bv32 := if n <= 0x0000FFFF then 16 else 0;
      var n1 := if n <= 0x0000FFFF then n << 16 else n;
      var r2 := if n1 <= 0x00FFFFFF then r1 + 8 else r1;
      var n2 := if n1 <= 0x00FFFFFF then n1 << 8 else n1;
      var r3 := if n2 <= 0x0FFFFFFF then r2 + 4 else r2;
      var n3 := if n2 <= 0x0FFFFFFF then n2 << 4 else n2;
      var r4 := if n3 <= 0x3FFFFFFF then r3 + 2 else r3;
      var n4 := if n3 <= 0x3FFFFFFF then n3 << 2 else n3;
      if n4 <= 0x7FFFFFFF then r4 + 1 else r4
  }

  /**
   * The sequence length the UTF-8 decoder derives from a lead byte: the
   * number of leading one bits, counted as the leading zeros of the
   * complemented byte shifted into the top of a 32-bit word.
   */
  function LeadLength(first: bv8): (n: nat)
    ensures first < 0x80 ==> n == 0
    ensures 0x80 <= first < 0xC0 ==> n == 1
    ensures 0xC0 <= first < 0xE0 ==> n == 2
    ensures 0xE0 <= first < 0xF0 ==> n == 3
    ensures 0xF0 <= first < 0xF8 ==> n == 4
    ensures 0xF8 <= first < 0xFC ==> n == 5
    ensures 0xFC <= first < 0xFE ==> n == 6
    ensures first == 0xFE ==> n == 7
    ensures first == 0xFF ==> n == 32
  {
    Lzcnt((!(first as bv32)) << 24) as nat
  }
}
