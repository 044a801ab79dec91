/** The vector loops that walk the operand and result arrays.

    Memory is one flat sequence of 64-bit lanes; the result and the two
    operands are offsets into it, so in-place use (result == operand1) is the
    same sequence read and written. A loop iteration loads `width` lanes of
    each operand from the memory as it stands, computes the per-lane step on
    all of them, and only then stores the `width` results: eight lanes (one
    512-bit vector) in the default loop, sixteen vectors at once in the
    unrolled integer loop, four in the unrolled float loop. The per-lane step
    itself is a parameter. */
module Loops {
  import opened Word

  /** Lanes per 512-bit vector (avx512_64bit_count). */
  const VectorLanes: nat := 8

  /** Vectors per iteration of the unrolled integer loop. */
  const IntUnrollFactor: nat := 16

  /** Vectors per iteration of the unrolled float loop. */
  const FloatUnrollFactor: nat := 4

  /** The result region may coincide with an operand or lie clear of it;
      a partial overlap is not supported. */
  predicate MayAlias(res: nat, operand: nat, n: nat)
  {
    res == operand || res + n <= operand || operand + n <= res
  }

  predicate InBounds(mem: seq<nat>, res: nat, a: nat, b: nat, n: nat)
  {
    res + n <= |mem| && a + n <= |mem| && b + n <= |mem|
  }

  /** The memory an element-wise kernel must leave behind: lane j of the
      result region holds lane(operand1[j], operand2[j]) for the operands as
      they were before the call, and every other lane is untouched. */
  function Stored(mem: seq<nat>, res: nat, a: nat, b: nat, n: nat, lane: (nat, nat) -> nat): seq<nat>
    requires InBounds(mem, res, a, b, n)
  {
    seq(|mem|, j requires 0 <= j < |mem| =>
      if res <= j < res + n then lane(mem[a + (j - res)], mem[b + (j - res)]) else mem[j])
  }

  /** One loop iteration over lanes [start, start + width): every load reads
      the memory before any of the iteration's stores. */
  function BlockStep(mem: seq<nat>, res: nat, a: nat, b: nat, start: nat, width: nat,
                     lane: (nat, nat) -> nat): (out: seq<nat>)
    requires InBounds(mem, res, a, b, start + width)
    ensures |out| == |mem|
    ensures forall j :: 0 <= j < |mem| && !(res + start <= j < res + start + width) ==> out[j] == mem[j]
  {
    seq(|mem|, j requires 0 <= j < |mem| =>
      if res + start <= j < res + start + width then lane(mem[a + (j - res)], mem[b + (j - res)])
      else mem[j])
  }

  /** `blocks` iterations in order, from lane `start` on, each one seeing the
      stores of the iterations before it. */
  function BlockRun(mem: seq<nat>, res: nat, a: nat, b: nat, start: nat, width: nat, blocks: nat,
                    lane: (nat, nat) -> nat): (out: seq<nat>)
    requires InBounds(mem, res, a, b, start + width * blocks)
    ensures |out| == |mem|
    decreases blocks
  {
    if blocks == 0 then
      mem
    else
      assert start + width + width * (blocks - 1) == start + width * blocks;
      BlockRun(BlockStep(mem, res, a, b, start, width, lane), res, a, b, start + width, width, blocks - 1, lane)
  }

  /** EltwiseMultModAVX512IntLoopDefault and its float twin: n / 8
      iterations of one vector each. */
  function DefaultLoop(mem: seq<nat>, res: nat, a: nat, b: nat, n: nat, lane: (nat, nat) -> nat): (out: seq<nat>)
    requires InBounds(mem, res, a, b, n)
    ensures |out| == |mem|
  {
    assert VectorLanes * (n / VectorLanes) <= n;
    BlockRun(mem, res, a, b, 0, VectorLanes, n / VectorLanes, lane)
  }

  /** The static_asserts of the unrolled loops: at least one iteration, and
      CoeffCount a multiple of unroll * 8 lanes. */
  predicate UnrollFits(coeffCount: nat, unroll: nat)
  {
    unroll > 0 && coeffCount / (unroll * VectorLanes) > 0 && coeffCount % (unroll * VectorLanes) == 0
  }

  /** EltwiseMultModAVX512IntLoopUnroll / FloatLoopUnroll: loop_count
      iterations, each loading `unroll` vectors of each operand before
      storing any of the `unroll` result vectors. */
  function UnrolledLoop(mem: seq<nat>, res: nat, a: nat, b: nat, coeffCount: nat, unroll: nat,
                        lane: (nat, nat) -> nat): (out: seq<nat>)
    requires UnrollFits(coeffCount, unroll)
    requires InBounds(mem, res, a, b, coeffCount)
    ensures |out| == |mem|
  {
    var width := unroll * VectorLanes;
    assert width * (coeffCount / width) == coeffCount;
    BlockRun(mem, res, a, b, 0, width, coeffCount / width, lane)
  }

  /** Which loop the length switch picks. */
  datatype LoopVariant = Unrolled(coeffCount: nat) | Default

  /** The switch on n in EltwiseMultModAVX512IntLoop / FloatLoop: the six
      common transform sizes get a fully specialised unrolled loop. */
  function SelectLoop(n: nat): (v: LoopVariant)
    ensures v.Unrolled? ==> v.coeffCount == n
    ensures v.Unrolled? ==> 1024 <= n <= 32768 && n % (IntUnrollFactor * VectorLanes) == 0
  {
    if n in {1024, 2048, 4096, 8192, 16384, 32768} then Unrolled(n) else Default
  }

  /** The length switch followed by the chosen loop. */
  function SelectedLoop(mem: seq<nat>, res: nat, a: nat, b: nat, n: nat, unroll: nat,
                        lane: (nat, nat) -> nat): seq<nat>
    requires unroll == IntUnrollFactor || unroll == FloatUnrollFactor
    requires InBounds(mem, res, a, b, n)
  {
    match SelectLoop(n)
    case Unrolled(coeffCount) =>
      UnrolledSizesFit(coeffCount, unroll);
      UnrolledLoop(mem, res, a, b, coeffCount, unroll, lane)
    case Default =>
      DefaultLoop(mem, res, a, b, n, lane)
  }

  /** EltwiseMultModAVX512IntLoop: unroll factor 16. */
  function IntLoop(mem: seq<nat>, res: nat, a: nat, b: nat, n: nat, lane: (nat, nat) -> nat): seq<nat>
    requires InBounds(mem, res, a, b, n)
  {
    SelectedLoop(mem, res, a, b, n, IntUnrollFactor, lane)
  }

  /** EltwiseMultModAVX512FloatLoop: unroll factor 4. */
  function FloatLoop(mem: seq<nat>, res: nat, a: nat, b: nat, n: nat, lane: (nat, nat) -> nat): seq<nat>
    requires InBounds(mem, res, a, b, n)
  {
    SelectedLoop(mem, res, a, b, n, FloatUnrollFactor, lane)
  }

  // ---------------------------------------------------------------------
  // What the loops store.

  /** One iteration extends the stored prefix by `width` lanes. The loads of
      the iteration still see the original operands: the earlier stores went
      to result lanes [0, start), which lie clear of operand lanes
      [start, start + width) unless the regions coincide exactly. */
  lemma BlockStepExtends(mem: seq<nat>, res: nat, a: nat, b: nat, start: nat, width: nat, n: nat,
                         lane: (nat, nat) -> nat)
    requires start + width <= n && InBounds(mem, res, a, b, n)
    requires MayAlias(res, a, n) && MayAlias(res, b, n)
    ensures BlockStep(Stored(mem, res, a, b, start, lane), res, a, b, start, width, lane)
         == Stored(mem, res, a, b, start + width, lane)
  {
    var before := Stored(mem, res, a, b, start, lane);
    var after := BlockStep(before, res, a, b, start, width, lane);
    var want := Stored(mem, res, a, b, start + width, lane);
    forall j | 0 <= j < |mem|
      ensures after[j] == want[j]
    {
      if res + start <= j < res + start + width {
        var i := j - res;
        assert !(res <= a + i < res + start);
        assert !(res <= b + i < res + start);
      }
    }
  }

  /** The loop stores exactly what the element-wise kernel promises, for
      disjoint regions and for in-place use alike. */
  lemma {:induction false} BlockRunStored(mem: seq<nat>, res: nat, a: nat, b: nat, start: nat, width: nat,
                                          blocks: nat, lane: (nat, nat) -> nat)
    requires InBounds(mem, res, a, b, start + width * blocks)
    requires MayAlias(res, a, start + width * blocks) && MayAlias(res, b, start + width * blocks)
    ensures BlockRun(Stored(mem, res, a, b, start, lane), res, a, b, start, width, blocks, lane)
         == Stored(mem, res, a, b, start + width * blocks, lane)
    decreases blocks
  {
    if blocks > 0 {
      var n := start + width * blocks;
      assert start + width + width * (blocks - 1) == n;
      BlockStepExtends(mem, res, a, b, start, width, n, lane);
      BlockRunStored(mem, res, a, b, start + width, width, blocks - 1, lane);
    }
  }

  /** Nothing is stored over zero lanes. */
  lemma StoredNothing(mem: seq<nat>, res: nat, a: nat, b: nat, lane: (nat, nat) -> nat)
    requires InBounds(mem, res, a, b, 0)
    ensures Stored(mem, res, a, b, 0, lane) == mem
  {
  }

  /** EltwiseMultModAVX512IntLoopDefault: the default loop covers the first floor(n / 8) * 8
      lanes. */
  lemma DefaultLoopStores(mem: seq<nat>, res: nat, a: nat, b: nat, n: nat, lane: (nat, nat) -> nat)
    requires InBounds(mem, res, a, b, n)
    requires MayAlias(res, a, n) && MayAlias(res, b, n)
    ensures DefaultLoop(mem, res, a, b, n, lane) == Stored(mem, res, a, b, n / VectorLanes * VectorLanes, lane)
  {
    var m := VectorLanes * (n / VectorLanes);
    StoredNothing(mem, res, a, b, lane);
    BlockRunStored(mem, res, a, b, 0, VectorLanes, n / VectorLanes, lane);
  }

  /** EltwiseMultModAVX512IntLoopUnroll: the unrolled loop stores the same lanes as the default
      loop over CoeffCount lanes, although it issues sixteen (or four) loads
      of each operand before its first store. */
  lemma UnrolledMatchesDefault(mem: seq<nat>, res: nat, a: nat, b: nat, coeffCount: nat, unroll: nat,
                               lane: (nat, nat) -> nat)
    requires UnrollFits(coeffCount, unroll)
    requires InBounds(mem, res, a, b, coeffCount)
    requires MayAlias(res, a, coeffCount) && MayAlias(res, b, coeffCount)
    ensures UnrolledLoop(mem, res, a, b, coeffCount, unroll, lane) == Stored(mem, res, a, b, coeffCount, lane)
    ensures UnrolledLoop(mem, res, a, b, coeffCount, unroll, lane) == DefaultLoop(mem, res, a, b, coeffCount, lane)
  {
    var width := unroll * VectorLanes;
    assert width * (coeffCount / width) == coeffCount;
    StoredNothing(mem, res, a, b, lane);
    BlockRunStored(mem, res, a, b, 0, width, coeffCount / width, lane);
    DefaultLoopStores(mem, res, a, b, coeffCount, lane);
    MultipleOfVector(coeffCount, unroll);
  }

  /** A multiple of unroll * 8 is a multiple of 8. */
  lemma MultipleOfVector(c: nat, unroll: nat)
    requires unroll > 0 && c % (unroll * VectorLanes) == 0
    ensures c / VectorLanes * VectorLanes == c
  {
    var k := c / (unroll * VectorLanes);
    assert c == (k * unroll) * VectorLanes;
  }

  /** EltwiseMultModAVX512IntLoop and FloatLoop: whichever loop the switch picks, the
      first floor(n / 8) * 8 lanes are stored and nothing else changes. */
  lemma SelectedLoopStores(mem: seq<nat>, res: nat, a: nat, b: nat, n: nat, unroll: nat,
                           lane: (nat, nat) -> nat)
    requires unroll == IntUnrollFactor || unroll == FloatUnrollFactor
    requires InBounds(mem, res, a, b, n)
    requires MayAlias(res, a, n) && MayAlias(res, b, n)
    ensures SelectedLoop(mem, res, a, b, n, unroll, lane) == Stored(mem, res, a, b, n / VectorLanes * VectorLanes, lane)
  {
    match SelectLoop(n)
    case Unrolled(coeffCount) =>
      UnrolledSizesFit(coeffCount, unroll);
      UnrolledMatchesDefault(mem, res, a, b, coeffCount, unroll, lane);
      MultipleOfVector(coeffCount, unroll);
    case Default =>
      DefaultLoopStores(mem, res, a, b, n, lane);
  }

  /** Every size the switch unrolls meets the static_asserts of both
      unrolled loops. */
  lemma UnrolledSizesFit(coeffCount: nat, unroll: nat)
    requires SelectLoop(coeffCount).Unrolled?
    requires unroll == IntUnrollFactor || unroll == FloatUnrollFactor
    ensures UnrollFits(coeffCount, unroll)
  {
  }

  /** Every operand lane in [base, base + n) is below `bound`
      (HEXL_CHECK_BOUNDS). */
  predicate OperandsBelow(mem: seq<nat>, base: nat, n: nat, bound: nat)
    requires base + n <= |mem|
  {
    forall p :: base <= p < base + n ==> mem[p] < bound
  }

  /** Two lane functions agree on every pair of operands below `bound`. */
  ghost predicate AgreeBelow(l: (nat, nat) -> nat, g: (nat, nat) -> nat, bound: nat)
  {
    forall x: nat, y: nat :: x < bound && y < bound ==> l(x, y) == g(x, y)
  }

  /** The n mod 8 tail of both entry points: storing the first t lanes with
      one lane
      function, then the remaining n - t lanes from the advanced pointers
      with another, stores all n lanes as one function that both agree with
      would. The second stage still reads the original operands. */
  lemma TailThenBody(mem: seq<nat>, res: nat, a: nat, b: nat, t: nat, n: nat,
                     head: (nat, nat) -> nat, body: (nat, nat) -> nat, g: (nat, nat) -> nat, bound: nat)
    requires t <= n && InBounds(mem, res, a, b, n)
    requires MayAlias(res, a, n) && MayAlias(res, b, n)
    requires OperandsBelow(mem, a, n, bound) && OperandsBelow(mem, b, n, bound)
    requires AgreeBelow(head, g, bound) && AgreeBelow(body, g, bound)
    ensures InBounds(Stored(mem, res, a, b, t, head), res + t, a + t, b + t, n - t)
    ensures MayAlias(res + t, a + t, n - t) && MayAlias(res + t, b + t, n - t)
    ensures Stored(Stored(mem, res, a, b, t, head), res + t, a + t, b + t, n - t, body)
         == Stored(mem, res, a, b, n, g)
  {
    var first := Stored(mem, res, a, b, t, head);
    var both := Stored(first, res + t, a + t, b + t, n - t, body);
    var want := Stored(mem, res, a, b, n, g);
    forall j | 0 <= j < |mem|
      ensures both[j] == want[j]
    {
      var i := j - res;
      if res + t <= j < res + n {
        assert !(res <= a + i < res + t) && !(res <= b + i < res + t);
        assert mem[a + i] < bound && mem[b + i] < bound;
      } else if res <= j < res + t {
        assert mem[a + i] < bound && mem[b + i] < bound;
      }
    }
  }

  /** The vector part of an entry point: the loop the length switch picks or,
      on a path that bypasses the switch, the default loop. */
  function VectorLoop(mem: seq<nat>, res: nat, a: nat, b: nat, n: nat, unroll: nat, switched: bool,
                      lane: (nat, nat) -> nat): seq<nat>
    requires unroll == IntUnrollFactor || unroll == FloatUnrollFactor
    requires InBounds(mem, res, a, b, n)
  {
    if switched then SelectedLoop(mem, res, a, b, n, unroll, lane) else DefaultLoop(mem, res, a, b, n, lane)
  }

  /** Both entry points: the n mod 8 tail stored by one lane function, then
      the vector loop over the rest from the advanced pointers, store all n
      lanes as the function both agree with would. */
  lemma TailThenVectors(mem: seq<nat>, res: nat, a: nat, b: nat, n: nat, unroll: nat, switched: bool,
                        head: (nat, nat) -> nat, body: (nat, nat) -> nat, g: (nat, nat) -> nat, bound: nat)
    requires unroll == IntUnrollFactor || unroll == FloatUnrollFactor
    requires InBounds(mem, res, a, b, n)
    requires MayAlias(res, a, n) && MayAlias(res, b, n)
    requires OperandsBelow(mem, a, n, bound) && OperandsBelow(mem, b, n, bound)
    requires AgreeBelow(head, g, bound) && AgreeBelow(body, g, bound)
    ensures InBounds(Stored(mem, res, a, b, n % VectorLanes, head), res + n % VectorLanes,
                     a + n % VectorLanes, b + n % VectorLanes, n - n % VectorLanes)
    ensures VectorLoop(Stored(mem, res, a, b, n % VectorLanes, head), res + n % VectorLanes,
                       a + n % VectorLanes, b + n % VectorLanes, n - n % VectorLanes, unroll, switched, body)
         == Stored(mem, res, a, b, n, g)
  {
    TailThenBody(mem, res, a, b, n % VectorLanes, n, head, body, g, bound);
    WholeVectors(Stored(mem, res, a, b, n % VectorLanes, head), res + n % VectorLanes,
                 a + n % VectorLanes, b + n % VectorLanes, n - n % VectorLanes, unroll, switched, body);
  }

  /** Over a whole number of vectors, the vector loop stores every lane. */
  lemma WholeVectors(mem: seq<nat>, res: nat, a: nat, b: nat, n: nat, unroll: nat, switched: bool,
                     lane: (nat, nat) -> nat)
    requires unroll == IntUnrollFactor || unroll == FloatUnrollFactor
    requires InBounds(mem, res, a, b, n) && n % VectorLanes == 0
    requires MayAlias(res, a, n) && MayAlias(res, b, n)
    ensures VectorLoop(mem, res, a, b, n, unroll, switched, lane) == Stored(mem, res, a, b, n, lane)
  {
    assert n / VectorLanes * VectorLanes == n;
    if switched {
      SelectedLoopStores(mem, res, a, b, n, unroll, lane);
    } else {
      DefaultLoopStores(mem, res, a, b, n, lane);
    }
  }

  /** The sizes the switch unrolls are exactly the powers of two from 2^10
      to 2^15. */
  lemma SelectLoopUnrollsPowersOfTwo(n: nat)
    ensures SelectLoop(n).Unrolled? <==> n > 0 && IsPowerOfTwo(n) && 10 <= Msb(n) <= 15
  {
    if SelectLoop(n).Unrolled? {
      UnrolledSizeIsPower(n);
    }
    if n > 0 && IsPowerOfTwo(n) && 10 <= Msb(n) <= 15 {
      PowerIsUnrolledSize(n);
    }
  }

  lemma UnrolledSizeIsPower(n: nat)
    requires SelectLoop(n).Unrolled?
    ensures n > 0 && IsPowerOfTwo(n) && 10 <= Msb(n) <= 15
  {
    PowersUpTo16();
    if n == 1024 { MsbUnique(n, 10); }
    else if n == 2048 { MsbUnique(n, 11); }
    else if n == 4096 { MsbUnique(n, 12); }
    else if n == 8192 { MsbUnique(n, 13); }
    else if n == 16384 { MsbUnique(n, 14); }
    else { MsbUnique(n, 15); }
  }

  lemma PowerIsUnrolledSize(n: nat)
    requires n > 0 && IsPowerOfTwo(n) && 10 <= Msb(n) <= 15
    ensures SelectLoop(n).Unrolled?
  {
    PowersUpTo16();
    var e := Msb(n);
    assert n == Pow2(e);
    if e == 10 { } else if e == 11 { } else if e == 12 { }
    else if e == 13 { } else if e == 14 { } else { assert e == 15; }
  }

  lemma PowersUpTo16()
    ensures Pow2(10) == 1024 && Pow2(11) == 2048 && Pow2(12) == 4096
    ensures Pow2(13) == 8192 && Pow2(14) == 16384 && Pow2(15) == 32768
    ensures Pow2(16) == 65536
  {
  }
}
