/** The small-modulus reducer _mm512_hexl_small_mod_epu64<k>.

    For a lane known to lie in [0, k*q) with k in {1, 2, 4}, it removes whole
    multiples of q with branch-free masked subtractions: nothing for k = 1,
    one conditional subtraction of q for k = 2, and a conditional subtraction
    of 2q followed by one of q for k = 4. */
module SmallModulus {
  import opened Word

  function SmallMod(k: nat, x: nat, q: nat): (r: nat)
    ensures r <= x
    ensures (k == 2 || k == 4) && x < k * q ==> r < q
    ensures q > 0 ==> r % q == x % q
  {
    if k == 2 then
      SubtractIfAtLeast(x, 1, q)
    else if k == 4 then
      SubtractIfAtLeast(SubtractIfAtLeast(x, 2, q), 1, q)
    else
      x
  }

  /** One masked subtraction: x - m*q in the lanes where x >= m*q. */
  function SubtractIfAtLeast(x: nat, m: nat, q: nat): (r: nat)
    ensures r <= x
    ensures x < 2 * (m * q) ==> r < m * q
    ensures q > 0 ==> r % q == x % q
  {
    if x < m * q then
      x
    else if q == 0 then
      x
    else
      ModShift(x - m * q, m, q);
      x - m * q
  }

  /** A value below k*q reduces to its residue. */
  lemma SmallModReduces(k: nat, x: nat, q: nat)
    requires k == 1 || k == 2 || k == 4
    requires x < k * q
    ensures SmallMod(k, x, q) == x % q
  {
    var r := SmallMod(k, x, q);
    assert r < q;
    ModOfSmall(r, q);
  }
}
