/** barr_lo for a modulus that is a power of two.

    The entry point computes barr_lo as the low word of floor(2^L / q) with
    L = 63 + N. For q = 2^(N-1) that quotient is exactly 2^64, whose low word
    is 0; the quotient estimate c3 is then 0 and the kernel returns the
    low word of the product, reduced by at most 3q, instead of its residue.
    The entry checks admit such a modulus (for instance q = 2^51 with
    InputModFactor 1). The rest of the model uses BarrLo, which takes the
    quotient of 2^L - 1 instead: it equals the as-written constant for every
    other modulus (Barrett.BarrLoAgreesOffPowersOfTwo) and keeps the kernel
    exact for powers of two too (IntDispatch.KernelLaneCorrect). */
module PowerOfTwoModulus {
  import opened Word
  import opened SmallModulus
  import opened Barrett
  import opened IntDispatch

  /** 2^51, a modulus the entry checks accept with InputModFactor 1. */
  const Q51: nat := 0x8_0000_0000_0000

  lemma Q51Facts()
    ensures Pow2(51) == Q51 && Pow2(52) == 2 * Q51 && Pow2(115) == WORD * Q51
    ensures BitLength(Q51) == 52 && IsPowerOfTwo(Q51)
  {
    ShiftConstants();
    assert Pow2(51) == 2 * Pow2(50);
    Pow2Word();
    Pow2Add(64, 51);
    MsbUnique(Q51, 51);
  }

  /** The kernel instantiated with the as-written barr_lo. */
  function AsWrittenKernel(q: nat, h: (nat, nat) -> nat): IntKernel
    requires q > 0
  {
    IntKernel(q, BitLength(q), 1, BarrLoAsWritten(q), h)
  }

  /** With q = 2^51 and both operands 2^51 - 1 the as-written lane stores a
      value far above q, while x * y mod q is 1: the candidate is the whole
      low word of the product, and small_mod<4> removes only 3q from it. */
  lemma AsWrittenPowerOfTwoLane(h: (nat, nat) -> nat)
    requires UnderestimatesHighWord(h)
    ensures EntryChecks(Q51, 1) && PathFor(Q51, 1) == Specialized(52, 1)
    ensures BarrLoAsWritten(Q51) == 0
    ensures IntLane(AsWrittenKernel(Q51, h), Q51 - 1, Q51 - 1) == 0xFFD8_0000_0000_0001
    ensures IntLane(AsWrittenKernel(Q51, h), Q51 - 1, Q51 - 1) >= Q51
    ensures (Q51 - 1) * (Q51 - 1) % Q51 == 1
  {
    Q51Facts();
    var x := Q51 - 1;
    var k := AsWrittenKernel(Q51, h);
    assert BarrLoAsWritten(Q51) == WORD * Q51 / Q51 % WORD;
    assert WORD * Q51 / Q51 == WORD;
    assert PreReduce(k, x) == x;
    var c1 := ShiftRightDouble(MulLo(x, x), MulHi(x, x), 51);
    assert c1 < WORD;
    assert h(c1, 0) <= MulHi(c1, 0) == 0;
    assert MulLo(h(c1, 0), Q51) == 0;
    var lo := MulLo(x, x);
    assert lo == 0xFFF0_0000_0000_0001;
    assert Candidate(k, x, x) == lo;
    ModShift(1, Q51 - 2, Q51);
    assert x * x == 1 + (Q51 - 2) * Q51;
  }

  /** The corrected constant is exact on the same input. */
  lemma CorrectedPowerOfTwoLane(h: (nat, nat) -> nat)
    requires UnderestimatesHighWord(h)
    ensures IntLane(PathKernel(Q51, 1, h), Q51 - 1, Q51 - 1) == 1
  {
    Q51Facts();
    KernelLaneCorrect(Q51, 1, h, Q51 - 1, Q51 - 1);
    ModShift(1, Q51 - 2, Q51);
    assert (Q51 - 1) * (Q51 - 1) == 1 + (Q51 - 2) * Q51;
  }
}
