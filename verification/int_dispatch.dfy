/** EltwiseMultModAVX512Int<InputModFactor>: the entry point of the
    fixed-point kernel.

    It checks its arguments, hands the first n mod 8 lanes to the scalar
    EltwiseMultModNative, derives N = MSB(q) + 1 and barr_lo from the modulus,
    decides whether the operands must be pre-reduced below q (reduce_mod),
    and picks a loop instantiated for the shift N - 1, or, for the widths
    without an instantiation, the loop that shifts by N - 1 at run time. */
module IntDispatch {
  import opened Word
  import opened SmallModulus
  import opened Barrett
  import opened Loops
  import opened Native

  /** The HEXL_CHECKs at the head of the entry point, apart from the
      operand bounds. */
  predicate EntryChecks(q: nat, f: nat)
  {
    && (f == 1 || f == 2 || f == 4)
    && f * q > TwoTo50
    && f * q < TwoTo63
    && q < TwoTo62
    && q > 1
  }

  /** log2_input_mod_factor. */
  function Log2Factor(f: nat): (r: nat)
    ensures f == 1 || f == 2 || f == 4 ==> Pow2(r) == f
    ensures r <= 2
  {
    if f == 2 then 1 else if f == 4 then 2 else 0
  }

  /** reduce_mod: the squared operand bound would not survive the shift by
      N - 1, so the operands must first be reduced below q. */
  predicate ReduceMod(log2Factor: nat, n: nat)
  {
    2 * log2Factor + n >= 63
  }

  /** The branches of the two switches on N. */
  datatype IntPath =
    | Specialized(bitShift: BitWidth, inputModFactor: nat)
    | RuntimeShift
    | BadWidth

  /** The two switches on N: with reduce_mod the loop is instantiated for N in 59..62
      and InputModFactor, anything else reaching the error default; without
      it the loop is instantiated for N in 50..61 and InputModFactor 1, and
      every other width runs the inline loop with a run-time shift. */
  function SelectIntPath(n: nat, f: nat, reduceMod: bool): (p: IntPath)
    ensures p.Specialized? ==> p.bitShift == n
    ensures p.Specialized? ==> p.inputModFactor == if reduceMod then f else 1
    ensures p.BadWidth? ==> reduceMod && !(59 <= n <= 62)
    ensures p.RuntimeShift? ==> !reduceMod && !(50 <= n <= 61)
  {
    if reduceMod then
      if 59 <= n <= 62 then Specialized(n, f) else BadWidth
    else if 50 <= n <= 61 then
      Specialized(n, 1)
    else
      RuntimeShift
  }

  /** The path the entry point takes for modulus q and factor f. */
  function PathFor(q: nat, f: nat): IntPath
    requires q > 0
  {
    SelectIntPath(BitLength(q), f, ReduceMod(Log2Factor(f), BitLength(q)))
  }

  /** The kernel a path runs: shift N - 1, the path's input factor (1 on the
      run-time shift path, whose loop does not pre-reduce), and the corrected
      barr_lo. */
  function PathKernel(q: nat, f: nat, h: (nat, nat) -> nat): IntKernel
    requires q > 0
  {
    match PathFor(q, f)
    case Specialized(bitShift, factor) => IntKernel(q, bitShift, factor, BarrLo(q), h)
    case RuntimeShift => IntKernel(q, BitLength(q), 1, BarrLo(q), h)
    case BadWidth => IntKernel(q, BitLength(q), 1, BarrLo(q), h)
  }

  // ---------------------------------------------------------------------
  // The bit-width facts behind the dispatch.

  lemma Pow2Less(j: nat, k: nat)
    requires Pow2(j) < Pow2(k)
    ensures j < k
  {
    if j >= k {
      Pow2Monotone(k, j);
      assert false;
    }
  }

  lemma MulLtLeft(f: nat, a: nat, b: nat)
    requires f > 0 && a < b
    ensures f * a < f * b
  {
  }

  /** f * q has bit length log2(f) + N. */
  lemma ScaledBounds(f: nat, q: nat, lf: nat, n: nat)
    requires Pow2(lf) == f && n >= 1 && Pow2(n - 1) <= q < Pow2(n)
    ensures Pow2(lf + n - 1) <= f * q < Pow2(lf + n)
  {
    Pow2Add(lf, n - 1);
    Pow2Add(lf, n);
    MulLtLeft(f, q, Pow2(n));
    MulLeMono(f, f, Pow2(n - 1), q);
  }

  /** A value of bit length m strictly between 2^lo and 2^hi has
      lo < m <= hi. */
  lemma BitLengthBetween(v: nat, m: nat, lo: nat, hi: nat)
    requires m >= 1 && Pow2(m - 1) <= v < Pow2(m)
    requires Pow2(lo) < v < Pow2(hi)
    ensures lo < m <= hi
  {
    Pow2Less(lo, m);
    Pow2Less(m - 1, hi);
  }

  /** The argument checks pin the width: log2(f) + N lies in 51..63 and
      N is at most 62. */
  lemma WidthBounds(q: nat, f: nat)
    requires EntryChecks(q, f)
    ensures 51 <= Log2Factor(f) + BitLength(q) <= 63
    ensures BitLength(q) <= 62
  {
    var n := BitLength(q);
    var lf := Log2Factor(f);
    ScaledBounds(f, q, lf, n);
    ShiftConstants();
    WidthCore(f * q, q, lf, n, 50, 62, 63);
  }

  /** The bit-length reasoning of WidthBounds over symbolic bounds
      2^lo < f * q < 2^hi and q < 2^top. */
  lemma WidthCore(fq: nat, q: nat, lf: nat, n: nat, lo: nat, top: nat, hi: nat)
    requires n >= 1 && Pow2(n - 1) <= q < Pow2(top)
    requires Pow2(lf + n - 1) <= fq < Pow2(lf + n)
    requires Pow2(lo) < fq < Pow2(hi)
    ensures lo < lf + n <= hi && n <= top
  {
    Pow2Less(n - 1, top);
    BitLengthBetween(fq, lf + n, lo, hi);
  }

  /** reduce_mod happens only for InputModFactor 2 with
      N in {61, 62} and for InputModFactor 4 with N in {59, 60, 61}; in
      particular N lies in 59..62 whenever it happens. */
  lemma ReduceModCases(q: nat, f: nat)
    requires EntryChecks(q, f)
    ensures ReduceMod(Log2Factor(f), BitLength(q))
        <==> (f == 2 && 61 <= BitLength(q) <= 62) || (f == 4 && 59 <= BitLength(q) <= 61)
    ensures ReduceMod(Log2Factor(f), BitLength(q)) ==> 59 <= BitLength(q) <= 62
  {
    WidthBounds(q, f);
  }

  /** The HEXL_CHECK(false) default of the reduce_mod switch is unreachable,
      and the run-time shift path is taken exactly for N = 49 with
      InputModFactor 4 and for N = 62 with InputModFactor 1: the widths the
      two switches have no instantiation for. */
  lemma PathCases(q: nat, f: nat)
    requires EntryChecks(q, f)
    ensures !PathFor(q, f).BadWidth?
    ensures PathFor(q, f).RuntimeShift?
        <==> (f == 4 && BitLength(q) == 49) || (f == 1 && BitLength(q) == 62)
    ensures PathFor(q, f).Specialized? ==> PathFor(q, f).bitShift == BitLength(q)
    ensures PathFor(q, f).Specialized? ==>
              PathFor(q, f).inputModFactor == if ReduceMod(Log2Factor(f), BitLength(q)) then f else 1
  {
    WidthBounds(q, f);
    ReduceModCases(q, f);
  }

  // ---------------------------------------------------------------------
  // Each lane is reduced correctly.

  /** The bit width of the operands the kernel multiplies: below q < 2^N
      when they are pre-reduced, below f * q < 2^(log2(f) + N) otherwise. */
  function OperandWidth(q: nat, f: nat): nat
    requires q > 0
  {
    var n := BitLength(q);
    var lf := Log2Factor(f);
    if ReduceMod(lf, n) then n else lf + n
  }

  lemma OperandsFitWidth(q: nat, f: nat, h: (nat, nat) -> nat, x: nat)
    requires EntryChecks(q, f)
    requires x < f * q
    ensures PreReduce(PathKernel(q, f, h), x) < Pow2(OperandWidth(q, f))
    ensures PathKernel(q, f, h).bitShift == BitLength(q)
    ensures OperandWidth(q, f) + OperandWidth(q, f) <= 63 + BitLength(q)
  {
    var k := PathKernel(q, f, h);
    var n := BitLength(q);
    var lf := Log2Factor(f);
    PathCases(q, f);
    WidthBounds(q, f);
    if ReduceMod(lf, n) {
      assert k.inputModFactor == f && (f == 2 || f == 4);
    } else {
      assert k.inputModFactor == 1;
      ScaledBounds(f, q, lf, n);
    }
  }

  /** Two operands below 2^e, with 2e <= 63 + N, have a product below
      2^64 * 2^(N-1). */
  lemma ProductFitsShift(a: nat, b: nat, e: nat, n: nat)
    requires n >= 1 && a < Pow2(e) && b < Pow2(e) && e + e <= 63 + n
    ensures a * b < WORD * Pow2(n - 1)
  {
    assert a * b < Pow2(64) * Pow2(n - 1) by {
      MulStrictMono(a, Pow2(e), b, Pow2(e));
      Pow2Add(e, e);
      Pow2Monotone(e + e, 64 + (n - 1));
      Pow2Add(64, n - 1);
    }
    Pow2Word();
  }

  /** The argument behind reduce_mod: the product of the lanes the kernel multiplies keeps
      all its high bits through the shift by N - 1, on every path. */
  lemma ShiftNoOverflow(q: nat, f: nat, h: (nat, nat) -> nat, x: nat, y: nat)
    requires EntryChecks(q, f)
    requires x < f * q && y < f * q
    ensures ShiftFits(PathKernel(q, f, h), x, y)
  {
    var k := PathKernel(q, f, h);
    OperandsFitWidth(q, f, h, x);
    OperandsFitWidth(q, f, h, y);
    ProductFitsShift(PreReduce(k, x), PreReduce(k, y), OperandWidth(q, f), BitLength(q));
  }

  /** The lane step of the instantiated loops and of the run-time shift
      loop, on the operand range the entry point accepts: every path stores
      x * y mod q. */
  lemma KernelLaneCorrect(q: nat, f: nat, h: (nat, nat) -> nat, x: nat, y: nat)
    requires EntryChecks(q, f) && UnderestimatesHighWord(h)
    requires x < f * q && y < f * q
    ensures IntLane(PathKernel(q, f, h), x, y) == x * y % q
  {
    var k := PathKernel(q, f, h);
    PathCases(q, f);
    ShiftNoOverflow(q, f, h, x, y);
    IntLaneReduces(k, x, y);
    var a, b := PreReduce(k, x), PreReduce(k, y);
    MulMod(a, b, q);
    MulMod(x, y, q);
  }

  /** For every modulus that is not a power of two the kernel runs with
      exactly the barr_lo the entry point computes, so there the lane the
      source executes stores x * y mod q. */
  lemma KernelLaneAsWritten(q: nat, f: nat, h: (nat, nat) -> nat, x: nat, y: nat)
    requires EntryChecks(q, f) && UnderestimatesHighWord(h) && !IsPowerOfTwo(q)
    requires x < f * q && y < f * q
    ensures PathKernel(q, f, h).barrLo == BarrLoAsWritten(q)
    ensures IntLane(PathKernel(q, f, h), x, y) == x * y % q
  {
    BarrLoAgreesOffPowersOfTwo(q);
    KernelLaneCorrect(q, f, h, x, y);
  }

  /** The vector part after the tail: the loop the path selects, over the
      lanes from the advanced pointers. */
  function VectorPart(mem: seq<nat>, res: nat, a: nat, b: nat, n: nat, q: nat, f: nat,
                      h: (nat, nat) -> nat): seq<nat>
    requires q > 0 && InBounds(mem, res, a, b, n)
  {
    VectorLoop(mem, res, a, b, n, IntUnrollFactor, PathFor(q, f).Specialized?, KernelLane(PathKernel(q, f, h)))
  }

  /** EltwiseMultModAVX512Int<InputModFactor>: the tail by
      EltwiseMultModNative, then the loop the two switches on N select. */
  method MultModInt(mem: seq<nat>, res: nat, a: nat, b: nat, n: nat, q: nat, f: nat,
                    h: (nat, nat) -> nat) returns (out: seq<nat>)
    requires EntryChecks(q, f)
    requires InBounds(mem, res, a, b, n)
    requires MayAlias(res, a, n) && MayAlias(res, b, n)
    requires OperandsBelow(mem, a, n, f * q) && OperandsBelow(mem, b, n, f * q)
    requires UnderestimatesHighWord(h)
    ensures |out| == |mem|
    ensures forall j :: 0 <= j < |mem| && res <= j < res + n ==>
              out[j] == mem[a + (j - res)] * mem[b + (j - res)] % q
    ensures forall j :: 0 <= j < |mem| && res <= j < res + n ==> out[j] < q
    ensures forall j :: 0 <= j < |mem| && !(res <= j < res + n) ==> out[j] == mem[j]
  {
    var afterTail := MultModNative(mem, res, a, b, n % VectorLanes, q);
    var lane := KernelLane(PathKernel(q, f, h));
    assert !PathFor(q, f).BadWidth? by {
      PathCases(q, f);
    }
    match PathFor(q, f) {
      case Specialized(_, _) =>
        out := IntLoop(afterTail, res + n % VectorLanes, a + n % VectorLanes, b + n % VectorLanes,
                       n - n % VectorLanes, lane);
      case RuntimeShift =>
        out := DefaultLoop(afterTail, res + n % VectorLanes, a + n % VectorLanes, b + n % VectorLanes,
                           n - n % VectorLanes, lane);
    }
    VectorPartLanes(out, mem, res, a, b, n, q, f, h);
  }

  /** The memory the selected loop leaves after the tail holds every product
      in the result region and nothing else changed. */
  lemma VectorPartLanes(out: seq<nat>, mem: seq<nat>, res: nat, a: nat, b: nat, n: nat, q: nat, f: nat,
                        h: (nat, nat) -> nat)
    requires EntryChecks(q, f)
    requires InBounds(mem, res, a, b, n)
    requires MayAlias(res, a, n) && MayAlias(res, b, n)
    requires OperandsBelow(mem, a, n, f * q) && OperandsBelow(mem, b, n, f * q)
    requires UnderestimatesHighWord(h)
    requires out == VectorPart(MultModNative(mem, res, a, b, n % VectorLanes, q), res + n % VectorLanes,
                               a + n % VectorLanes, b + n % VectorLanes, n - n % VectorLanes, q, f, h)
    ensures |out| == |mem|
    ensures forall j :: 0 <= j < |mem| && res <= j < res + n ==>
              out[j] == mem[a + (j - res)] * mem[b + (j - res)] % q
    ensures forall j :: 0 <= j < |mem| && res <= j < res + n ==> out[j] < q
    ensures forall j :: 0 <= j < |mem| && !(res <= j < res + n) ==> out[j] == mem[j]
  {
    StoresProducts(mem, res, a, b, n, q, f, h);
    ResultLanes(out, mem, res, a, b, n, q);
  }

  /** The kernel lane of the selected path agrees with the residue of the
      product on every pair of operands the entry point accepts. */
  lemma KernelAgrees(q: nat, f: nat, h: (nat, nat) -> nat)
    requires EntryChecks(q, f) && UnderestimatesHighWord(h)
    ensures AgreeBelow(KernelLane(PathKernel(q, f, h)), ProductMod(q), f * q)
  {
    forall x: nat, y: nat | x < f * q && y < f * q
      ensures KernelLane(PathKernel(q, f, h))(x, y) == ProductMod(q)(x, y)
    {
      KernelLaneCorrect(q, f, h, x, y);
    }
  }

  /** The tail and the selected loop together store every product. */
  lemma StoresProducts(mem: seq<nat>, res: nat, a: nat, b: nat, n: nat, q: nat, f: nat,
                       h: (nat, nat) -> nat)
    requires EntryChecks(q, f)
    requires InBounds(mem, res, a, b, n)
    requires MayAlias(res, a, n) && MayAlias(res, b, n)
    requires OperandsBelow(mem, a, n, f * q) && OperandsBelow(mem, b, n, f * q)
    requires UnderestimatesHighWord(h)
    ensures VectorPart(MultModNative(mem, res, a, b, n % VectorLanes, q), res + n % VectorLanes,
                       a + n % VectorLanes, b + n % VectorLanes, n - n % VectorLanes, q, f, h)
         == Stored(mem, res, a, b, n, ProductMod(q))
  {
    KernelAgrees(q, f, h);
    TailThenVectors(mem, res, a, b, n, IntUnrollFactor, PathFor(q, f).Specialized?,
                    ProductMod(q), KernelLane(PathKernel(q, f, h)), ProductMod(q), f * q);
  }
}
