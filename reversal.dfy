/** `ReverseBits` of lib/viterbi.cpp: the low `numBits` bits of a number in
    the opposite order. The codec applies it to each generator polynomial so
    that the polynomial's least significant tap (the current input, in the
    lsb-current convention) lines up with the top bit of the output-table
    index. */
module Reversal {
  import opened BitMath

  /** The low `numBits` bits of `x`, reversed: bit 0 of `x` becomes bit
      `numBits - 1` of the result, and the remaining bits are reversed below it. */
  function BitReversal(numBits: nat, x: nat): nat
  {
    if numBits == 0 then 0
    else (if x % 2 == 1 then Pow2(numBits - 1) else 0) + BitReversal(numBits - 1, x / 2)
  }

  /** The accumulator loop of the source: shift the output left and move
      the input's low bit into it, `numBits` times. */
  method ReverseBits(numBits: nat, input: nat) returns (output: nat)
    requires input < Pow2(numBits)
    ensures output == BitReversal(numBits, input)
    ensures output < Pow2(numBits)
  {
    output := 0;
    var remaining, rest := numBits, input;
    while remaining > 0
      invariant output * Pow2(remaining) + BitReversal(remaining, rest) == BitReversal(numBits, input)
    {
      var bit := rest % 2;
      assert output * Pow2(remaining) == 2 * output * Pow2(remaining - 1);
      assert (2 * output + bit) * Pow2(remaining - 1)
          == 2 * output * Pow2(remaining - 1) + bit * Pow2(remaining - 1);
      output := 2 * output + bit;
      rest := rest / 2;
      remaining := remaining - 1;
    }
    ReversalBound(numBits, input);
  }

  /** The reversal of `numBits` bits fits in `numBits` bits. */
  lemma {:induction false} ReversalBound(numBits: nat, x: nat)
    ensures BitReversal(numBits, x) < Pow2(numBits)
  {
    if numBits > 0 {
      ReversalBound(numBits - 1, x / 2);
    }
  }

  /** The top bit of `x` (bit `numBits - 1`) becomes bit 0 of the reversal,
      and the bits below it are reversed above it. */
  lemma {:induction false} ReversalOfTop(numBits: nat, x: nat)
    requires numBits >= 1 && x < Pow2(numBits)
    ensures BitReversal(numBits, x)
         == 2 * BitReversal(numBits - 1, x % Pow2(numBits - 1)) + x / Pow2(numBits - 1)
  {
    if numBits == 1 {
      assert x < 2;
    } else {
      var k := numBits - 2;
      var p := Pow2(k);
      var bit := x % 2;
      var middle := BitReversal(k, (x / 2) % p);
      // x / 2 has numBits - 1 bits
      assert x / 2 < Pow2(k + 1);
      ReversalOfTop(k + 1, x / 2);
      assert BitReversal(k + 1, x / 2) == 2 * middle + (x / 2) / p;
      SplitLowBit(x, k);
      var low := x % Pow2(k + 1);
      assert BitReversal(k + 1, low) == (if bit == 1 then p else 0) + middle;
      assert Pow2(k + 1) == 2 * p;
    }
  }

  /** Reversing twice with the same width gives back the input. */
  lemma {:induction false} ReversalInvolution(numBits: nat, x: nat)
    requires x < Pow2(numBits)
    ensures BitReversal(numBits, BitReversal(numBits, x)) == x
  {
    if numBits > 0 {
      var k := numBits - 1;
      var y := BitReversal(numBits, x);
      var tail := BitReversal(k, x / 2);
      assert y / Pow2(k) == x % 2 && y % Pow2(k) == tail by {
        ReversalBound(k, x / 2);
        assert y == (x % 2) * Pow2(k) + tail;
        DivModUnique(y, Pow2(k), x % 2, tail);
      }
      assert BitReversal(numBits, y) == 2 * BitReversal(k, tail) + x % 2 by {
        ReversalBound(numBits, x);
        ReversalOfTop(numBits, y);
      }
      assert BitReversal(k, tail) == x / 2 by {
        assert Pow2(numBits) == 2 * Pow2(k);
        ReversalInvolution(k, x / 2);
      }
    }
  }

  /** Lsb-current convention: the polynomial's least significant bit, which
      taps the current input, lands on bit `numBits - 1` of the reversal. */
  lemma LsbBecomesTop(numBits: nat, poly: nat)
    requires numBits >= 1
    ensures Bit(BitReversal(numBits, poly), numBits - 1) == Bit(poly, 0)
  {
    var k := numBits - 1;
    var p, rest := Pow2(k), BitReversal(k, poly / 2);
    ReversalBound(k, poly / 2);
    assert BitReversal(numBits, poly) == (if poly % 2 == 1 then p else 0) + rest;
    if poly % 2 == 1 {
      DivModUnique(p + rest, p, 1, rest);
    } else {
      DivModUnique(rest, p, 0, rest);
    }
    assert poly / Pow2(0) == poly;
  }
}
