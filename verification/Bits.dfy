/** Bits of natural numbers. */
module Bits {
  /** x & (1 << j), as a truth value. */
  predicate Bit(x: nat, j: nat) {
    if j == 0 then x % 2 == 1 else Bit(x / 2, j - 1)
  }

  /** x | (1 << j). */
  function WithBit(x: nat, j: nat): nat {
    if j == 0 then (if x % 2 == 1 then x else x + 1) else 2 * WithBit(x / 2, j - 1) + x % 2
  }

  lemma {:induction false} WithBitSets(x: nat, j: nat, i: nat)
    ensures Bit(WithBit(x, j), i) <==> i == j || Bit(x, i)
  {
    if i > 0 && j > 0 { WithBitSets(x / 2, j - 1, i - 1); }
  }

  function Pow2(n: nat): (r: nat)
    ensures r > 0
  {
    if n == 0 then 1 else 2 * Pow2(n - 1)
  }

  lemma WithBitStep(x: nat, j: nat)
    requires j > 0
    ensures WithBit(x, j) == 2 * WithBit(x / 2, j - 1) + x % 2
  {}

  lemma PowTwice(n: nat)
    requires n > 0
    ensures Pow2(n) == 2 * Pow2(n - 1)
  {}

  lemma {:induction false} WithBitFits(x: nat, j: nat, n: nat)
    requires j < n && x < Pow2(n)
    ensures WithBit(x, j) < Pow2(n)
  {
    PowTwice(n);
    var p := Pow2(n - 1);
    hide Pow2;
    if j > 0 {
      WithBitStep(x, j);
      hide WithBit;
      Halves(x, WithBit(x / 2, j - 1), p);
      WithBitFits(x / 2, j - 1, n - 1);
    }
  }

  lemma Halves(x: nat, half: nat, p: nat)
    requires x < 2 * p
    ensures x / 2 < p && (half < p ==> 2 * half + x % 2 < 2 * p)
  {}

  lemma {:induction false} NoBit(j: nat)
    ensures !Bit(0, j)
  {
    if j > 0 { NoBit(j - 1); }
  }
}
