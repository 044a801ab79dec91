/** EltwiseMultModNative<InputModFactor>, the scalar routine both entry
    points hand their first n mod 8 lanes to. Its code is not part of this
    model; it is given by the value it promises for operands below
    InputModFactor * q: the residue of each product. */
module Native {
  import opened Loops

  /** The lane every path must agree with: the residue of the product. */
  function ProductMod(q: nat): (nat, nat) -> nat
    requires q > 0
  {
    (x: nat, y: nat) => x * y % q
  }

  /** EltwiseMultModNative, whose code is not part of this model, by the
      value it promises: the residue of each product. */
  function MultModNative(mem: seq<nat>, res: nat, a: nat, b: nat, n: nat, q: nat): seq<nat>
    requires q > 0 && InBounds(mem, res, a, b, n)
  {
    Stored(mem, res, a, b, n, ProductMod(q))
  }

  /** A result memory equal to the stored residues holds, lane by lane, the
      residue of each product and leaves the rest alone. */
  lemma ResultLanes(out: seq<nat>, mem: seq<nat>, res: nat, a: nat, b: nat, n: nat, q: nat)
    requires q > 0 && InBounds(mem, res, a, b, n)
    requires out == Stored(mem, res, a, b, n, ProductMod(q))
    ensures |out| == |mem|
    ensures forall j :: 0 <= j < |mem| && res <= j < res + n ==>
              out[j] == mem[a + (j - res)] * mem[b + (j - res)] % q
    ensures forall j :: 0 <= j < |mem| && res <= j < res + n ==> out[j] < q
    ensures forall j :: 0 <= j < |mem| && !(res <= j < res + n) ==> out[j] == mem[j]
  {
  }
}
