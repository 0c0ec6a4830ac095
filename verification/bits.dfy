/** Binary cells and little-endian binary expansions of natural numbers.
    Shared by the elementary automaton (rule decoding) and the life-like
    automaton (cell values). */
module Bits {

  /** A cell value: dead (0) or live (1). */
  type Bit = b: int | 0 <= b <= 1

  /** `x >> n` on a non-negative integer: halve `n` times, rounding down. */
  function ShiftRight(x: nat, n: nat): nat
  {
    if n == 0 then x else ShiftRight(x / 2, n - 1)
  }

  /** The first `len` binary digits of `n`, least significant first. */
  function ToBits(n: nat, len: nat): (bits: seq<Bit>)
    ensures |bits| == len
  {
    if len == 0 then [] else [n % 2] + ToBits(n / 2, len - 1)
  }

  /** The number whose binary digits, least significant first, are `bits`. */
  function FromBits(bits: seq<Bit>): nat
  {
    if |bits| == 0 then 0 else bits[0] + 2 * FromBits(bits[1..])
  }

  function Pow2(n: nat): (p: nat)
    ensures p >= 1
  {
    if n == 0 then 1 else 2 * Pow2(n - 1)
  }

  /** Shifting right by `k` and masking with 1 reads digit `k` of the expansion. */
  lemma {:induction false} ShiftReadsDigit(n: nat, k: nat, len: nat)
    requires k < len
    ensures ShiftRight(n, k) % 2 == ToBits(n, len)[k]
  {
    if k > 0 {
      ShiftReadsDigit(n / 2, k - 1, len - 1);
    }
  }

  /** Reading back an expansion of a number below `2^len` gives the number. */
  lemma {:induction false} FromToBits(n: nat, len: nat)
    requires n < Pow2(len)
    ensures FromBits(ToBits(n, len)) == n
  {
    if len > 0 {
      FromToBits(n / 2, len - 1);
      assert ToBits(n, len)[1..] == ToBits(n / 2, len - 1);
    }
  }

  /** Expanding the number a digit string denotes gives the digit string back. */
  lemma {:induction false} ToFromBits(bits: seq<Bit>)
    ensures ToBits(FromBits(bits), |bits|) == bits
  {
    if |bits| > 0 {
      ToFromBits(bits[1..]);
      var n := FromBits(bits);
      assert n % 2 == bits[0] && n / 2 == FromBits(bits[1..]);
    }
  }

  /** A digit string of length `len` denotes a number below `2^len`. */
  lemma {:induction false} FromBitsBound(bits: seq<Bit>)
    ensures FromBits(bits) < Pow2(|bits|)
  {
    if |bits| > 0 {
      FromBitsBound(bits[1..]);
    }
  }

  /** Every digit of 0 is 0. */
  lemma {:induction false} ZeroDigits(len: nat)
    ensures forall k :: 0 <= k < len ==> ToBits(0, len)[k] == 0
  {
    if len > 0 {
      ZeroDigits(len - 1);
      assert forall k :: 1 <= k < len ==> ToBits(0, len)[k] == ToBits(0, len - 1)[k - 1];
    }
  }

  /** Every digit of `2^len - 1` is 1. */
  lemma {:induction false} OnesDigits(n: nat, len: nat)
    requires n == Pow2(len) - 1
    ensures forall k :: 0 <= k < len ==> ToBits(n, len)[k] == 1
  {
    if len > 0 {
      OnesDigits(n / 2, len - 1);
      assert forall k :: 1 <= k < len ==> ToBits(n, len)[k] == ToBits(n / 2, len - 1)[k - 1];
    }
  }
}
