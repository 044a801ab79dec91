/** The per-lane step of the fixed-point kernel: Algorithm 1 of
    hal-01215845 as EltwiseMultModAVX512IntLoopDefault, the unrolled loop and
    the runtime-shift loop of EltwiseMultModAVX512Int all run it on every
    lane.

    For a modulus q of bit length N the kernel multiplies two lanes into a
    128-bit product, shifts it right by N - 1, multiplies the top word by the
    precomputed constant barr_lo and keeps the high word as a quotient
    estimate c3, then subtracts c3*q from the low word of the product with
    64-bit wrap-around. The difference lies in [0, 4q) and one small_mod<4>
    brings it into [0, q). */
module Barrett {
  import opened Word
  import opened SmallModulus

  /** A bit length; the kernel shifts by BitShift - 1, so it is at least 1. */
  type BitWidth = n: nat | 1 <= n witness 1

  /** N = MSB(q) + 1, the bit length of q: 2^(N-1) <= q < 2^N. */
  function BitLength(q: nat): (n: BitWidth)
    requires q > 0
    ensures Pow2(n - 1) <= q < Pow2(n)
  {
    Msb(q) + 1
  }

  /** barr_lo as the entry point computes it: with L = 63 + N, so that
      L - N + 1 = 64, it divides the 128-bit value (1 << (L - 64)):0 by q and
      keeps the low word of the quotient. */
  function BarrLoAsWritten(q: nat): (r: nat)
    requires q > 0
    ensures r == Pow2(63 + BitLength(q)) / q % WORD
  {
    var n := BitLength(q);
    var l := 63 + n;
    Pow2Word();
    Pow2Add(l - 64, 64);
    DivideUInt128Lo(Pow2(l - 64), 0, q)
  }

  /** barr_lo computed from 2^L - 1 instead of 2^L. The quotient then always
      fits in one word, and it is the same number whenever q is not a power
      of two (see BarrLoAgreesOffPowersOfTwo). The kernel needs exactly the
      three bounds below. */
  function BarrLo(q: nat): (r: nat)
    requires q > 0
    ensures r < WORD
    ensures r * q < Pow2(BitLength(q) - 1) * WORD
    ensures Pow2(BitLength(q) - 1) * WORD <= (r + 1) * q
    ensures r == (Pow2(63 + BitLength(q)) - 1) / q
  {
    var n := BitLength(q);
    var l := 63 + n;
    Pow2Word();
    Pow2Add(l - 64, 64);
    ReciprocalBounds(Pow2(l - 64), WORD, q);
    DivideUInt128Lo(Pow2(l - 64) - 1, WORD - 1, q)
  }

  /** The bounds of floor((s*w - 1) / q) for s <= q, written over an
      arbitrary word size w. */
  lemma ReciprocalBounds(s: nat, w: nat, q: nat)
    requires 0 < s <= q && w > 0
    ensures ((s - 1) * w + (w - 1)) / q % w == (s * w - 1) / q
    ensures (s * w - 1) / q < w
    ensures (s * w - 1) / q * q < s * w
    ensures s * w <= ((s * w - 1) / q + 1) * q
  {
    var x := s * w - 1;
    assert (s - 1) * w + (w - 1) == x;
    var d := x / q;
    MulLeMono(s, q, w, w);
    DivBelow(x, q, w);
    ModOfSmall(d, w);
    Reassemble(x, q);
    assert (d + 1) * q == d * q + q;
  }

  /** The as-written and the corrected constant agree for every modulus that
      is not a power of two, so the correction changes nothing for them. */
  lemma BarrLoAgreesOffPowersOfTwo(q: nat)
    requires q > 0 && !IsPowerOfTwo(q)
    ensures BarrLo(q) == BarrLoAsWritten(q)
  {
    var x := Pow2(63 + BitLength(q));
    if x % q == 0 {
      DivisorOfPow2(q, 63 + BitLength(q));
      assert false;
    }
    PredecessorSameQuotient(x, q);
    var d := x / q;
    assert d == BarrLo(q);
    ModOfSmall(d, WORD);
  }

  /** floor((x - 1) / q) == floor(x / q) when q does not divide x. */
  lemma PredecessorSameQuotient(x: nat, q: nat)
    requires q > 0 && x % q != 0
    ensures (x - 1) / q == x / q
  {
    Reassemble(x, q);
    ModUnique(x - 1, q, x / q, x % q - 1);
  }

  /** Every divisor of 2^e is a power of two. */
  lemma {:induction false} DivisorOfPow2(q: nat, e: nat)
    requires q > 0 && Pow2(e) % q == 0
    ensures IsPowerOfTwo(q)
  {
    if q == 1 {
      assert Pow2(Msb(1)) == 1;
    } else if e == 0 {
      assert false;
    } else if q % 2 == 0 {
      var h := q / 2;
      HalfDivides(q, e);
      DivisorOfPow2(h, e - 1);
      assert Msb(q) == 1 + Msb(h);
    } else {
      OddDivides(q, e);
      DivisorOfPow2(q, e - 1);
    }
  }

  /** An even divisor q of 2^e leaves q / 2 dividing 2^(e-1). */
  lemma HalfDivides(q: nat, e: nat)
    requires q > 0 && e > 0 && q % 2 == 0 && Pow2(e) % q == 0
    ensures Pow2(e - 1) % (q / 2) == 0
  {
    var h := q / 2;
    var c := Pow2(e) / q;
    Reassemble(Pow2(e), q);
    assert Pow2(e) == 2 * Pow2(e - 1);
    assert 2 * (c * h) == c * q;
    assert Pow2(e - 1) == c * h;
    ModShift(0, c, h);
  }

  /** An odd divisor of 2^e also divides 2^(e-1). */
  lemma OddDivides(q: nat, e: nat)
    requires q > 0 && e > 0 && q % 2 == 1 && Pow2(e) % q == 0
    ensures Pow2(e - 1) % q == 0
  {
    var c := Pow2(e) / q;
    Reassemble(Pow2(e), q);
    assert c * q == Pow2(e);
    assert Pow2(e) == 2 * Pow2(e - 1);
    ModShift(0, Pow2(e - 1), 2);
    assert Pow2(e) % 2 == 0;
    MulMod(c, q, 2);
    assert c % 2 == 0;
    var c2 := c / 2;
    assert c2 * q == Pow2(e - 1);
    ModShift(0, c2, q);
  }

  // ---------------------------------------------------------------------
  // The kernel and its lane step.

  /** The parameters one instantiation of the integer kernel runs with: the
      modulus, the template arguments BitShift (= N) and InputModFactor, the
      broadcast constant barr_lo, and the approximate high-word multiply
      _mm512_hexl_mulhi_approx_epi<64>, whose code is not part of this model. */
  datatype IntKernel = IntKernel(
    modulus: nat,
    bitShift: BitWidth,
    inputModFactor: nat,
    barrLo: nat,
    mulHiApprox: (nat, nat) -> nat)

  /** The assumption the kernel makes of the approximate high-word multiply:
      for word-sized inputs it never exceeds the exact high word and falls
      short of it by at most one. */
  ghost predicate UnderestimatesHighWord(h: (nat, nat) -> nat)
  {
    forall a: nat, b: nat :: a < WORD && b < WORD ==> h(a, b) <= MulHi(a, b) <= h(a, b) + 1
  }

  /** The exact high word meets the assumption trivially. */
  lemma ExactHighWordUnderestimates()
    ensures UnderestimatesHighWord(MulHi)
  {
  }

  /** A kernel set up the way the entry point sets it up. */
  ghost predicate ValidKernel(k: IntKernel)
  {
    && 1 < k.modulus < TwoTo62
    && k.bitShift == BitLength(k.modulus)
    && k.barrLo == BarrLo(k.modulus)
    && UnderestimatesHighWord(k.mulHiApprox)
  }

  /** small_mod<InputModFactor> of one operand lane. */
  function PreReduce(k: IntKernel, x: nat): nat
  {
    SmallMod(k.inputModFactor, x, k.modulus)
  }

  /** The shift by N - 1 keeps every high bit of the product. */
  predicate ShiftFits(k: IntKernel, x: nat, y: nat)
  {
    PreReduce(k, x) * PreReduce(k, y) < WORD * Pow2(k.bitShift - 1)
  }

  /** The lane value before the final reduction:
      prod_lo - (c3 * q mod 2^64), wrapped to 64 bits. */
  function Candidate(k: IntKernel, x: nat, y: nat): (r: nat)
    ensures r < WORD
  {
    var a := PreReduce(k, x);
    var b := PreReduce(k, y);
    var prodHi := MulHi(a, b);
    var prodLo := MulLo(a, b);
    var c1 := ShiftRightDouble(prodLo, prodHi, k.bitShift - 1);
    var c3 := k.mulHiApprox(c1, k.barrLo);
    SubWrap(prodLo, MulLo(c3, k.modulus))
  }

  /** The value the kernel stores for one lane. */
  function IntLane(k: IntKernel, x: nat, y: nat): (r: nat)
    ensures r <= Candidate(k, x, y)
    ensures Candidate(k, x, y) < 4 * k.modulus ==> r < k.modulus
    ensures k.modulus > 0 ==> r % k.modulus == Candidate(k, x, y) % k.modulus
  {
    SmallMod(4, Candidate(k, x, y), k.modulus)
  }

  /** The lane step as the function a loop applies to each lane. */
  function KernelLane(k: IntKernel): (nat, nat) -> nat
  {
    (x: nat, y: nat) => IntLane(k, x, y)
  }

  /** The quotient estimate of Algorithm 1, over an arbitrary word size w:
      with c1 = floor(p / s), floor(c1 * barr / w) lies within two below the
      true quotient floor(p / q). */
  lemma BarrettQuotient(p: nat, q: nat, s: nat, w: nat, barr: nat)
    requires q > 0 && s > 0 && w > 0
    requires p < w * s
    requires barr < w && barr * q < s * w && s * w <= (barr + 1) * q
    ensures (p / s) * barr / w <= p / q
    ensures p / q <= (p / s) * barr / w + 2
  {
    var c1 := p / s;
    Reassemble(p, s);
    DivBelow(p, s, w);
    QuotientUpper(p, q, s, w, c1, barr);
    QuotientLower(p, q, s, w, c1, barr);
  }

  /** The estimate never exceeds the quotient: m * q <= p. */
  lemma QuotientUpper(p: nat, q: nat, s: nat, w: nat, c1: nat, barr: nat)
    requires q > 0 && s > 0 && w > 0
    requires c1 * s <= p && barr * q < s * w
    ensures c1 * barr / w <= p / q
  {
    var t := c1 * barr;
    var m := t / w;
    Reassemble(t, w);
    MulLeMono(m * w, t, q * s, q * s);
    Rearrange(c1, barr, q, s);
    MulLeMono(c1 * s, p, barr * q, s * w);
    Rearrange(m, w, q, s);
    MulLeCancel(m * q, p, s * w);
    DivAtLeast(p, q, m);
  }

  /** The estimate falls short of the quotient by at most two. */
  lemma QuotientLower(p: nat, q: nat, s: nat, w: nat, c1: nat, barr: nat)
    requires q > 0 && s > 0 && w > 0
    requires p < (c1 + 1) * s && c1 < w
    requires barr < w && s * w <= (barr + 1) * q
    ensures p / q <= c1 * barr / w + 2
  {
    QuotientTimesWord(p, q, s, w, c1, barr);
    ProductNonNegative(c1, barr);
    LowerCore(p / q, w, c1 * barr, c1, barr);
  }

  lemma QuotientTimesWord(p: nat, q: nat, s: nat, w: nat, c1: nat, barr: nat)
    requires q > 0 && s > 0 && w > 0
    requires p < (c1 + 1) * s && s * w <= (barr + 1) * q
    ensures (p / q) * w < c1 * barr + c1 + barr + 1
  {
    Reassemble(p, q);
    ProductBound(p, q, s, w, c1, barr, p / q);
    Distribute(c1, barr);
  }

  lemma LowerCore(qt: nat, w: nat, t: nat, c1: nat, barr: nat)
    requires w > 0 && c1 < w && barr < w && qt * w < t + c1 + barr + 1
    ensures qt <= t / w + 2
  {
    if qt >= 2 {
      DropTwo(qt, w, t, c1, barr);
      DivAtLeast(t, w, qt - 2);
    }
  }

  /** (c1 + 1) * (barr + 1) exceeds qt * w for every qt with qt * q <= p. */
  lemma ProductBound(p: nat, q: nat, s: nat, w: nat, c1: nat, barr: nat, qt: nat)
    requires q > 0 && s > 0 && w > 0
    requires p < (c1 + 1) * s && s * w <= (barr + 1) * q && qt * q <= p
    ensures qt * w < (c1 + 1) * (barr + 1)
  {
    var big := (c1 + 1) * (barr + 1);
    var sw := s * w;
    Rearrange(c1 + 1, barr + 1, q, s);
    MulLeMono(p + 1, (c1 + 1) * s, sw, (barr + 1) * q);
    MulLeMono(qt * q, p, sw, sw);
    assert (p + 1) * sw == p * sw + sw;
    Rearrange2(qt, w, q, s);
    MulLtCancel(qt * w, big, q * s);
  }

  lemma Distribute(a: nat, b: nat)
    ensures (a + 1) * (b + 1) == a * b + a + b + 1
  {
  }

  lemma DropTwo(qt: nat, w: nat, t: nat, c1: nat, barr: nat)
    requires qt >= 2 && c1 < w && barr < w && qt * w < t + c1 + barr + 1
    ensures (qt - 2) * w <= t
  {
    assert (qt - 2) * w == qt * w - 2 * w;
  }

  lemma Rearrange2(a: nat, b: nat, c: nat, d: nat)
    ensures (a * b) * (c * d) == (a * c) * (d * b)
  {
  }

  lemma Rearrange(a: nat, b: nat, c: nat, d: nat)
    ensures (a * b) * (c * d) == (a * d) * (b * c)
  {
  }

  lemma MulLtCancel(a: nat, b: nat, c: nat)
    requires a * c < b * c
    ensures a < b
  {
    if a >= b {
      MulLeMono(b, a, c, c);
      assert false;
    }
  }

  /** The Barrett step up to the subtraction: the wrapped difference
      prod_lo - c3*q lies in [0, 4q) and is congruent to the product of the
      pre-reduced operands. */
  lemma CandidateInRange(k: IntKernel, x: nat, y: nat)
    requires ValidKernel(k)
    requires ShiftFits(k, x, y)
    ensures Candidate(k, x, y) < 4 * k.modulus
    ensures Candidate(k, x, y) % k.modulus == PreReduce(k, x) * PreReduce(k, y) % k.modulus
  {
    var q := k.modulus;
    var a, b := PreReduce(k, x), PreReduce(k, y);
    var s := Pow2(k.bitShift - 1);
    var c1 := ShiftRightDouble(MulLo(a, b), MulHi(a, b), k.bitShift - 1);
    assert c1 == a * b / s && c1 < WORD by {
      ShiftOfProduct(a * b, k.bitShift - 1);
      DivBelow(a * b, s, WORD);
    }
    var c3 := k.mulHiApprox(c1, k.barrLo);
    assert c3 <= c1 * k.barrLo / WORD <= c3 + 1;
    assert 4 * q < WORD;
    var p := a * b;
    var cand := Candidate(k, x, y);
    assert cand == (p % WORD - (c3 * q) % WORD) % WORD;
    LaneCore(p, q, s, WORD, k.barrLo, c3);
    assert cand < 4 * q && cand % q == p % q;
  }

  /** The arithmetic of the Barrett step (product, shift, quotient estimate,
      wrapped subtraction) over an arbitrary word size w. */
  lemma LaneCore(p: nat, q: nat, s: nat, w: nat, barr: nat, c3: nat)
    requires q > 0 && s > 0 && 4 * q < w && p < w * s
    requires barr < w && barr * q < s * w && s * w <= (barr + 1) * q
    requires c3 <= (p / s) * barr / w <= c3 + 1
    ensures (p % w - (c3 * q) % w) % w < 4 * q
    ensures (p % w - (c3 * q) % w) % w % q == p % q
  {
    BarrettQuotient(p, q, s, w, barr);
    WrappedRemainder(p, q, c3, w);
  }

  /** With c3 within three below floor(p / q), subtracting the wrapped words
      of p and c3*q yields p - c3*q exactly, a value below 4q congruent to p. */
  lemma WrappedRemainder(p: nat, q: nat, c3: nat, w: nat)
    requires q > 0 && 4 * q < w
    requires c3 <= p / q <= c3 + 3
    ensures (p % w - (c3 * q) % w) % w == p - c3 * q
    ensures p - c3 * q < 4 * q
    ensures (p - c3 * q) % q == p % q
  {
    RemainderBounds(p, q, c3);
    WrapExact(p, c3 * q, w);
  }

  /** p - c3*q lies in [0, 4q) and is congruent to p. */
  lemma RemainderBounds(p: nat, q: nat, c3: nat)
    requires q > 0
    requires c3 <= p / q <= c3 + 3
    ensures c3 * q <= p && p - c3 * q < 4 * q
    ensures (p - c3 * q) % q == p % q
  {
    var qt := p / q;
    var cq := c3 * q;
    assert cq <= qt * q <= p < qt * q + q by {
      Reassemble(p, q);
      MulLeMono(c3, qt, q, q);
    }
    assert qt * q <= cq + 3 * q by {
      MulLeMono(qt, c3 + 3, q, q);
      assert (c3 + 3) * q == c3 * q + 3 * q;
    }
    ModShift(p - cq, c3, q);
  }

  /** Subtracting wrapped words is exact when the true difference fits in
      one word. */
  lemma WrapExact(p: nat, c: nat, w: nat)
    requires w > 0 && c <= p < c + w
    ensures (p % w - c % w) % w == p - c
  {
    var d := p - c;
    var k := p / w - c / w;
    assert p % w - c % w == d - k * w by {
      Reassemble(p, w);
      Reassemble(c, w);
    }
    ModSub(d, k, w);
    ModOfSmall(d, w);
  }

  /** After the final small_mod<4>, under the same conditions, the stored
      lane is the residue of the pre-reduced product. */
  lemma IntLaneReduces(k: IntKernel, x: nat, y: nat)
    requires ValidKernel(k)
    requires ShiftFits(k, x, y)
    ensures IntLane(k, x, y) < k.modulus
    ensures IntLane(k, x, y) == PreReduce(k, x) * PreReduce(k, y) % k.modulus
  {
    CandidateInRange(k, x, y);
    SmallModReduces(4, Candidate(k, x, y), k.modulus);
  }
}
