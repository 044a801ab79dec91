# Element-wise modular multiplication, AVX-512 kernels

A Dafny model of the AVX-512 element-wise modular multiplication of Intel HEXL
(`hexl/eltwise/eltwise-mult-mod-avx512.cpp`). The kernel computes
`result[i] = operand1[i] * operand2[i] mod modulus` for unsigned 64-bit lanes.
Its operands may be pre-reduced only up to `InputModFactor * modulus`, with
`InputModFactor` in {1, 2, 4}.

What the model covers:

- **`EltwiseMultModAVX512Int`** (module `IntDispatch`):
  - the argument checks;
  - the scalar tail of `n mod 8` lanes;
  - `N = MSB(q) + 1`, `L = 63 + N` and `barr_lo`. The constant as the source computes it is `Barrett.BarrLoAsWritten`, but the kernel runs with the corrected `Barrett.BarrLo`. The two differ only when q is a power of two (see Findings);
  - the `reduce_mod` decision;
  - the two switches on `N`, which pick a loop instantiated for shift `N - 1` or the inline loop that shifts at run time.
- **The per-lane Barrett step** (module `Barrett`):
  - 64x64 -> 128-bit product, shift by `N - 1`, approximate high-word multiply by `barr_lo`;
  - wrapped subtraction of `c3 * q`;
  - a final `small_mod<4>`.
- **The loops** (module `Loops`):
  - the default loop of one 512-bit vector (8 lanes) per iteration;
  - the unrolled loops: 16 vectors per iteration for the integer kernel, 4 for the float kernel;
  - the switch on `n` between them.
- **`EltwiseMultModAVX512Float`** (module `FloatDispatch`): the integer skeleton of the double-precision entry point. The per-lane rounding arithmetic is a parameter.
- **`_mm512_hexl_small_mod_epu64`** (module `SmallModulus`) and the 64-bit lane helpers (module `Word`).

How memory is modelled:

- Memory is one flat `seq<nat>` of 64-bit lanes. `result`, `operand1` and `operand2` are offsets into it.
- A region may coincide with an operand (in-place use) or be disjoint from it.
- A loop iteration loads all its operand vectors before it stores any result vector.
- `Loops.Stored` is what the kernel must leave behind: each result lane holds the residue of the product of the original operands, and every other lane is unchanged.
- Every loop, and both entry points, are proved to produce exactly `Stored`.

## Model

| member | source | states |
|---|---|---|
| Word.Msb | hexl/eltwise/eltwise-mult-mod-avx512.cpp:425 | MSB(x) is the index of the highest set bit: 2^r <= x < 2^(r+1) |
| Word.ShiftRightDouble | hexl/eltwise/eltwise-mult-mod-avx512.cpp:333 | the double-word shift yields one word, and that word is floor((hi * 2^64 + lo) / 2^s) whenever the quotient fits in a word |
| Word.ShiftOfProduct | hexl/eltwise/eltwise-mult-mod-avx512.cpp:333 | shifting the 128-bit product hi:lo right by s gives floor(p / 2^s), as long as that quotient fits in one word |
| SmallModulus.SmallMod | hexl/eltwise/eltwise-mult-mod-avx512.cpp:324-328 | small_mod<k> never increases a lane and keeps it congruent mod q; for k in {2, 4} and a lane below k*q it returns a value below q |
| SmallModulus.SmallModReduces | hexl/eltwise/eltwise-mult-mod-avx512.cpp:340 | for k in {1, 2, 4} and a lane below k*q, small_mod<k> returns exactly the lane mod q |
| Barrett.BitLength | hexl/eltwise/eltwise-mult-mod-avx512.cpp:425-434 | N = MSB(q) + 1 satisfies 2^(N-1) <= q < 2^N |
| Barrett.BarrLoAsWritten | hexl/eltwise/eltwise-mult-mod-avx512.cpp:435-438 | barr_lo as computed is the low word of floor(2^(63+N) / q), where L - N + 1 = 64 |
| Barrett.BarrLo | hexl/eltwise/eltwise-mult-mod-avx512.cpp:435-438 | the corrected constant floor((2^L - 1) / q) fits in a word and brackets the reciprocal: barr*q < 2^(N-1)*2^64 <= (barr+1)*q |
| Barrett.BarrLoAgreesOffPowersOfTwo | hexl/eltwise/eltwise-mult-mod-avx512.cpp:435-438 | for every q that is not a power of two, the corrected and the as-written barr_lo are the same number |
| Barrett.BarrettQuotient | hexl/eltwise/eltwise-mult-mod-avx512.cpp:333-334 | with c1 = floor(p / 2^(N-1)), floor(c1 * barr_lo / 2^64) is at most the true quotient floor(p / q) and at least that quotient minus 2 |
| Barrett.CandidateInRange | hexl/eltwise/eltwise-mult-mod-avx512.cpp:330-337 | the wrapped difference prod_lo - c3*q lies in [0, 4q) and is congruent to the product of the pre-reduced operands |
| Barrett.Candidate | hexl/eltwise/eltwise-mult-mod-avx512.cpp:330-337 | the wrapped difference prod_lo - c3*q is a single 64-bit word |
| Barrett.IntLane | hexl/eltwise/eltwise-mult-mod-avx512.cpp:321-341 | the final small_mod<4> never raises the candidate, keeps it congruent mod q, and brings it below q whenever the candidate is below 4q |
| Barrett.IntLaneReduces | hexl/eltwise/eltwise-mult-mod-avx512.cpp:321-341 | one lane of the kernel stores a value below q, and that value is the residue of the product of its pre-reduced operands |
| IntDispatch.Log2Factor | hexl/eltwise/eltwise-mult-mod-avx512.cpp:426-431 | log2_input_mod_factor is the base-2 logarithm of InputModFactor for 1, 2 and 4 |
| IntDispatch.WidthBounds | hexl/eltwise/eltwise-mult-mod-avx512.cpp:403-414 | the argument checks force 51 <= log2(InputModFactor) + N <= 63 and N <= 62 |
| IntDispatch.ReduceModCases | hexl/eltwise/eltwise-mult-mod-avx512.cpp:446-456 | reduce_mod holds exactly for InputModFactor 2 with N in {61, 62} and InputModFactor 4 with N in {59, 60, 61}; in particular N is in 59..62 whenever it holds |
| IntDispatch.SelectIntPath | hexl/eltwise/eltwise-mult-mod-avx512.cpp:455-591 | an instantiated loop shifts by N - 1 and uses InputModFactor under reduce_mod and 1 otherwise; the error default is reached only under reduce_mod with N outside 59..62; the run-time shift loop only without reduce_mod with N outside 50..61 |
| IntDispatch.PathCases | hexl/eltwise/eltwise-mult-mod-avx512.cpp:455-591 | the error default of the reduce_mod switch is unreachable; the run-time shift loop runs exactly for (InputModFactor 4, N 49) and (InputModFactor 1, N 62); every instantiated loop shifts by N - 1 and pre-reduces with InputModFactor only under reduce_mod |
| IntDispatch.ShiftNoOverflow | hexl/eltwise/eltwise-mult-mod-avx512.cpp:440-446 | on every path the product of the multiplied lanes is below 2^64 * 2^(N-1), so the shift by N - 1 drops no high bit |
| IntDispatch.KernelLaneCorrect | hexl/eltwise/eltwise-mult-mod-avx512.cpp:560-583 | for operands below InputModFactor * q, the lane step of whichever path runs (the run-time shift loop included) stores x * y mod q |
| IntDispatch.KernelLaneAsWritten | hexl/eltwise/eltwise-mult-mod-avx512.cpp:435-438 | for every modulus that is not a power of two the kernel runs with the barr_lo the source computes, and each lane stores x * y mod q |
| IntDispatch.KernelAgrees | hexl/eltwise/eltwise-mult-mod-avx512.cpp:555-591 | the lane function of the selected path agrees with x * y mod q on every pair of operands below InputModFactor * q |
| IntDispatch.StoresProducts | hexl/eltwise/eltwise-mult-mod-avx512.cpp:415-423 | the scalar tail followed by the loop that the switches pick leaves exactly the products mod q in the result region and nothing else changed |
| IntDispatch.VectorPartLanes | hexl/eltwise/eltwise-mult-mod-avx512.cpp:415-591 | the memory the selected loop leaves after the tail holds operand1 * operand2 mod q, below q, in every result lane and is unchanged elsewhere |
| IntDispatch.MultModInt | hexl/eltwise/eltwise-mult-mod-avx512.cpp:400-596 | under the argument checks, and with result equal to or disjoint from each operand, every result lane holds operand1 * operand2 mod q and is below q; all other memory is unchanged |
| Loops.BlockStep | hexl/eltwise/eltwise-mult-mod-avx512.cpp:320-345 | one iteration keeps the memory length and writes no lane outside the result lanes it covers |
| Loops.BlockStepExtends | hexl/eltwise/eltwise-mult-mod-avx512.cpp:321-345 | one iteration, loading before storing, extends the correctly stored prefix by its width, whether the regions are disjoint or coincide |
| Loops.BlockRun | hexl/eltwise/eltwise-mult-mod-avx512.cpp:318-346 | a run of iterations keeps the memory length (what it stores is Loops.BlockRunStored) |
| Loops.BlockRunStored | hexl/eltwise/eltwise-mult-mod-avx512.cpp:318-346 | a run of iterations stores every lane it covers, as the element-wise result prescribes, for disjoint regions and for in-place use alike |
| Loops.DefaultLoop | hexl/eltwise/eltwise-mult-mod-avx512.cpp:313-347 | the default loop keeps the memory length (what it stores is Loops.DefaultLoopStores) |
| Loops.DefaultLoopStores | hexl/eltwise/eltwise-mult-mod-avx512.cpp:313-347 | the default loop stores exactly the first floor(n / 8) * 8 lanes and changes nothing else |
| Loops.UnrolledLoop | hexl/eltwise/eltwise-mult-mod-avx512.cpp:54-308 | the unrolled loop keeps the memory length (what it stores is Loops.UnrolledMatchesDefault) |
| Loops.UnrolledMatchesDefault | hexl/eltwise/eltwise-mult-mod-avx512.cpp:54-308 | the unrolled loop produces the same memory as the default loop over CoeffCount lanes |
| Loops.UnrolledSizesFit | hexl/eltwise/eltwise-mult-mod-avx512.cpp:62-68 | every size the switch unrolls meets both static_asserts for unroll factors 16 and 4 |
| Loops.SelectedLoopStores | hexl/eltwise/eltwise-mult-mod-avx512.cpp:350-396 | whichever loop the length switch picks, the first floor(n / 8) * 8 lanes are stored and nothing else changes |
| Loops.SelectLoop | hexl/eltwise/eltwise-mult-mod-avx512.cpp:354-395 | the switch picks an unrolled loop only with CoeffCount = n, and only for 1024 <= n <= 32768 with n a multiple of 16 * 8 |
| Loops.SelectLoopUnrollsPowersOfTwo | hexl/eltwise/eltwise-mult-mod-avx512.cpp:354-390 | the switch unrolls n exactly when n is a power of two from 2^10 to 2^15 |
| Loops.WholeVectors | hexl/eltwise/eltwise-mult-mod-avx512.cpp:350-396 | over a whole number of vectors, the default loop and the loop the length switch picks both store every lane |
| Loops.TailThenVectors | hexl/eltwise/eltwise-mult-mod-avx512.cpp:415-423 | the n mod 8 tail followed by the vector loop from the advanced pointers stores all n lanes, given that both lane functions agree with the intended one on in-range operands |
| Loops.TailThenBody | hexl/eltwise/eltwise-mult-mod-avx512.cpp:415-423 | storing the first n mod 8 lanes and then the rest from the advanced pointers gives the same memory as one element-wise pass over all n lanes |
| FloatDispatch.FloatFactor | hexl/eltwise/eltwise-mult-mod-avx512.cpp:833-840 | the float loop runs with InputModFactor 1 or the entry point's own factor, and drops to 1 only when InputModFactor * q < MaximumValue(50) |
| FloatDispatch.FloatOperandsInDomain | hexl/eltwise/eltwise-mult-mod-avx512.cpp:833-840 | whichever instantiation the no_reduce_mod test picks, the values passed to the float arithmetic are below MaximumValue(50) and congruent to the operands |
| FloatDispatch.FloatLaneCorrect | hexl/eltwise/eltwise-mult-mod-avx512.cpp:602-640 | each lane of the float loop stores x * y mod q, given the lane arithmetic's own promise |
| FloatDispatch.FloatAgrees | hexl/eltwise/eltwise-mult-mod-avx512.cpp:602-640 | the float lane of the chosen instantiation agrees with x * y mod q on every pair of operands below InputModFactor * q |
| FloatDispatch.FloatStoresProducts | hexl/eltwise/eltwise-mult-mod-avx512.cpp:810-818 | the scalar tail followed by the float loop leaves exactly the products mod q in the result region |
| FloatDispatch.MultModFloat | hexl/eltwise/eltwise-mult-mod-avx512.cpp:798-844 | under the argument checks, every result lane holds operand1 * operand2 mod q and is below q; all other memory is unchanged |
| PowerOfTwoModulus.AsWrittenPowerOfTwoLane | hexl/eltwise/eltwise-mult-mod-avx512.cpp:435-438 | q = 2^51 passes the argument checks with InputModFactor 1; its as-written barr_lo is 0, and the lane for x = y = 2^51 - 1 stores 0xFFD8000000000001, a value >= q, although x*y mod q = 1 |
| PowerOfTwoModulus.CorrectedPowerOfTwoLane | hexl/eltwise/eltwise-mult-mod-avx512.cpp:435-438 | with the corrected barr_lo, the same lane stores 1 |

## Left out

- The float rounding arithmetic of one lane is a parameter `core`:
  - it covers lines 617-640 and the unrolled twin in 641-750 (`_mm512_mul_pd`, `_mm512_fmsub_pd`, `_mm512_roundscale_pd`, and so on);
  - the model assumes only what `FloatDispatch.CoreReduces` states: for operands below MaximumValue(50) the lane stores x * y mod q;
  - IEEE double rounding is out of scope.
- FloatDispatch.MultModFloat: its correctness rests on the `CoreReduces` assumption above, not on a proof about the floating-point code.
- `_mm512_hexl_mulhi_approx_epi<64>` is a parameter `h`:
  - its code is not part of this model;
  - the kernel relies only on `Barrett.UnderestimatesHighWord`: `h` never exceeds the exact high word and falls short of it by at most one.
- IntDispatch.MultModInt: the entry point is modelled with the corrected `barr_lo` (`Barrett.BarrLo`), not the constant the source computes. The two differ only when q is a power of two, where the source's lane is wrong (see Findings). For every other modulus `IntDispatch.KernelLaneAsWritten` shows the kernel runs with the source's own constant.
- IntDispatch.MultModInt: correct only for an approximate multiply that meets `UnderestimatesHighWord`. The exact high word meets it (`Barrett.ExactHighWordUnderestimates`).
- Four helpers are not part of this model; each is given by the value it promises:
  - `EltwiseMultModNative`: the residue of each product;
  - `MSB`;
  - `DivideUInt128UInt64Lo`;
  - the 64-bit vector helpers (`mulhi`, `mullo`, `shrdi`).
- The runtime checks are handled as follows:
  - `HEXL_CHECK` and `HEXL_CHECK_BOUNDS` on the arguments are preconditions;
  - the bounds checks on the result are postconditions;
  - the diagnostic messages are left out.
- The template instantiations are collapsed:
  - the per-`N` loops of lines 455-554 are one parametric kernel, with `bitShift` as a field;
  - each instantiation is the kernel with its own `bitShift` and `inputModFactor`, so the loops for different `N` stay distinct (`IntDispatch.SelectIntPath`).
- Vector plumbing is left out: register broadcasts, `v_twice_mod`, pointer casts and `HEXL_LOOP_UNROLL_4`. None of them has any effect on the values stored.
- Lengths and offsets are unbounded naturals. The model does not represent pointer arithmetic overflow or misaligned pointers.
- A result region that partially overlaps an operand region is excluded by precondition (`Loops.MayAlias`). Only in-place use (result equal to an operand) and disjoint regions are modelled; with a partial overlap the stored values would depend on the vector width.
- Loops.BlockRun: its own contract states only that memory keeps its length; what a run stores is the contract of `Loops.BlockRunStored`.
- Loops.DefaultLoop: its own contract states only the length; what it stores is `Loops.DefaultLoopStores`.
- Loops.UnrolledLoop: its own contract states only the length; that it stores what the default loop stores is `Loops.UnrolledMatchesDefault`.
- Barrett.Candidate: its own contract states only that the wrapped difference is one word; its range [0, 4q) and its residue are `Barrett.CandidateInRange`.
- Loops.UnrolledMatchesDefault: the unrolled loops are modelled as `loop_count` iterations that load all `unroll` vectors before storing any. The interleaving of the per-vector steps inside one iteration is not modelled, because each vector's step reads only its own lanes.

## Findings

| source | as written | input that shows it | evidently intended | confidence | as-written member | corrected member |
|---|---|---|---|---|---|---|
| hexl/eltwise/eltwise-mult-mod-avx512.cpp:435-438 | barr_lo is the low word of floor(2^L / q) with L = 63 + N; for q = 2^(N-1) the quotient is exactly 2^64 and its low word is 0 | modulus q = 2^51 with InputModFactor 1 (passes every argument check), operands x = y = 2^51 - 1: c3 = 0, so the candidate is the whole low word 0xFFF0000000000001 and the lane stores 0xFFD8000000000001 instead of x*y mod q = 1 | barr_lo = floor((2^L - 1) / q), which is the same number for every other modulus and keeps the Barrett estimate within two of the quotient | not executed | PowerOfTwoModulus.AsWrittenPowerOfTwoLane | IntDispatch.KernelLaneCorrect |
