/** EltwiseMultModAVX512Float<InputModFactor>: the integer skeleton of the
    double-precision kernel.

    The entry point splits off the n mod 8 tail exactly as the fixed-point
    entry does, then decides whether the operands can be fed to the float
    arithmetic as they are (InputModFactor * q below MaximumValue(50)) or must
    first be reduced below q, and runs the float loop with the matching
    InputModFactor. The rounding arithmetic of one lane (in
    EltwiseMultModAVX512FloatLoopDefault and its unrolled twin) is a
    parameter `core`; the model assumes of it only that it returns a * b mod q
    for operands below MaximumValue(50). */
module FloatDispatch {
  import opened Word
  import opened SmallModulus
  import opened Loops
  import opened Native

  /** MaximumValue(50): the largest 50-bit value, 2^50 - 1. */
  const MaxValue50: nat := TwoTo50 - 1

  /** The HEXL_CHECKs on the modulus at the head of the entry point;
      InputModFactor is one of its three explicit instantiations. */
  predicate FloatEntryChecks(q: nat, f: nat)
  {
    (f == 1 || f == 2 || f == 4) && 1 < q < MaxValue50
  }

  /** no_reduce_mod: the operands already fit the float arithmetic. */
  predicate NoReduceMod(q: nat, f: nat)
  {
    f * q < MaxValue50
  }

  /** The InputModFactor the float loop is instantiated with: 1 when
      no_reduce_mod holds, the entry point's own factor otherwise. */
  function FloatFactor(q: nat, f: nat): (r: nat)
    ensures r == 1 || r == f
    ensures r == f || f * q < MaxValue50
  {
    if NoReduceMod(q, f) then 1 else f
  }

  /** The assumption on the rounding arithmetic of one lane. */
  ghost predicate CoreReduces(core: (nat, nat) -> nat, q: nat)
    requires q > 0
  {
    forall x: nat, y: nat :: x < MaxValue50 && y < MaxValue50 ==> core(x, y) == x * y % q
  }

  /** One lane of the float loops: small_mod<InputModFactor> of each
      operand, then the rounding arithmetic. */
  function FloatLane(core: (nat, nat) -> nat, q: nat, factor: nat): (nat, nat) -> nat
  {
    (x: nat, y: nat) => core(SmallMod(factor, x, q), SmallMod(factor, y, q))
  }

  /** Whichever instantiation the no_reduce_mod test picks, the values it hands to
      the float arithmetic are below MaximumValue(50), and they are
      congruent to the operands. */
  lemma FloatOperandsInDomain(q: nat, f: nat, x: nat)
    requires FloatEntryChecks(q, f) && x < f * q
    ensures SmallMod(FloatFactor(q, f), x, q) < MaxValue50
    ensures SmallMod(FloatFactor(q, f), x, q) % q == x % q
  {
    if !NoReduceMod(q, f) {
      assert f == 2 || f == 4;
    }
  }

  /** Each lane of the float path stores x * y mod q. */
  lemma FloatLaneCorrect(core: (nat, nat) -> nat, q: nat, f: nat, x: nat, y: nat)
    requires FloatEntryChecks(q, f) && CoreReduces(core, q)
    requires x < f * q && y < f * q
    ensures FloatLane(core, q, FloatFactor(q, f))(x, y) == x * y % q
  {
    var factor := FloatFactor(q, f);
    var a, b := SmallMod(factor, x, q), SmallMod(factor, y, q);
    FloatOperandsInDomain(q, f, x);
    FloatOperandsInDomain(q, f, y);
    assert core(a, b) == a * b % q;
    MulMod(a, b, q);
    MulMod(x, y, q);
  }

  /** The float lane agrees with the residue of the product on every pair of
      operands the entry point accepts. */
  lemma FloatAgrees(core: (nat, nat) -> nat, q: nat, f: nat)
    requires FloatEntryChecks(q, f) && CoreReduces(core, q)
    ensures AgreeBelow(FloatLane(core, q, FloatFactor(q, f)), ProductMod(q), f * q)
  {
    forall x: nat, y: nat | x < f * q && y < f * q
      ensures FloatLane(core, q, FloatFactor(q, f))(x, y) == ProductMod(q)(x, y)
    {
      FloatLaneCorrect(core, q, f, x, y);
    }
  }

  /** The tail followed by the float loop stores every product. */
  lemma FloatStoresProducts(mem: seq<nat>, res: nat, a: nat, b: nat, n: nat, q: nat, f: nat,
                            core: (nat, nat) -> nat)
    requires FloatEntryChecks(q, f) && CoreReduces(core, q)
    requires InBounds(mem, res, a, b, n)
    requires MayAlias(res, a, n) && MayAlias(res, b, n)
    requires OperandsBelow(mem, a, n, f * q) && OperandsBelow(mem, b, n, f * q)
    ensures FloatLoop(MultModNative(mem, res, a, b, n % VectorLanes, q), res + n % VectorLanes,
                      a + n % VectorLanes, b + n % VectorLanes, n - n % VectorLanes,
                      FloatLane(core, q, FloatFactor(q, f)))
         == Stored(mem, res, a, b, n, ProductMod(q))
  {
    FloatAgrees(core, q, f);
    TailThenVectors(mem, res, a, b, n, FloatUnrollFactor, true,
                    ProductMod(q), FloatLane(core, q, FloatFactor(q, f)), ProductMod(q), f * q);
  }

  /** EltwiseMultModAVX512Float<InputModFactor>, with the lane arithmetic as
      the parameter `core`. */
  method MultModFloat(mem: seq<nat>, res: nat, a: nat, b: nat, n: nat, q: nat, f: nat,
                      core: (nat, nat) -> nat) returns (out: seq<nat>)
    requires FloatEntryChecks(q, f) && CoreReduces(core, q)
    requires InBounds(mem, res, a, b, n)
    requires MayAlias(res, a, n) && MayAlias(res, b, n)
    requires OperandsBelow(mem, a, n, f * q) && OperandsBelow(mem, b, n, f * q)
    ensures |out| == |mem|
    ensures forall j :: 0 <= j < |mem| && res <= j < res + n ==>
              out[j] == mem[a + (j - res)] * mem[b + (j - res)] % q
    ensures forall j :: 0 <= j < |mem| && res <= j < res + n ==> out[j] < q
    ensures forall j :: 0 <= j < |mem| && !(res <= j < res + n) ==> out[j] == mem[j]
  {
    var tail := n % VectorLanes;
    var afterTail := MultModNative(mem, res, a, b, tail, q);
    var factor := if NoReduceMod(q, f) then 1 else f;
    out := FloatLoop(afterTail, res + tail, a + tail, b + tail, n - tail, FloatLane(core, q, factor));
    FloatStoresProducts(mem, res, a, b, n, q, f, core);
    ResultLanes(out, mem, res, a, b, n, q);
  }
}
