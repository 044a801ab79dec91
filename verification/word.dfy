/** Unsigned 64-bit lane arithmetic used by the AVX-512 kernels.

    Every lane of a 512-bit vector holds one unsigned 64-bit integer; the model
    keeps it as a `nat` below WORD and writes every wrap-around out with `% WORD`.
    The vector helpers whose code is not part of this model (the 64x64 -> 128
    product halves, the double-word shift, MSB and the 128-by-64 division) are
    given by the values their names promise. */
module Word {

  /** 2^64: one past the largest value a 64-bit lane can hold. */
  const WORD: nat := 0x1_0000_0000_0000_0000

  /** 1 << 50, 1 << 62 and 1 << 63. */
  const TwoTo50: nat := 0x4_0000_0000_0000
  const TwoTo62: nat := 0x4000_0000_0000_0000
  const TwoTo63: nat := 0x8000_0000_0000_0000

  function Pow2(k: nat): (r: nat)
    ensures r >= 1
  {
    if k == 0 then 1 else 2 * Pow2(k - 1)
  }

  lemma {:induction false} Pow2Add(j: nat, k: nat)
    ensures Pow2(j + k) == Pow2(j) * Pow2(k)
  {
    if k > 0 {
      Pow2Add(j, k - 1);
      calc {
        Pow2(j + k);
        2 * Pow2(j + k - 1);
        2 * (Pow2(j) * Pow2(k - 1));
        Pow2(j) * (2 * Pow2(k - 1));
      }
    }
  }

  lemma {:induction false} Pow2Monotone(j: nat, k: nat)
    requires j <= k
    ensures Pow2(j) <= Pow2(k)
  {
    if j < k {
      Pow2Monotone(j, k - 1);
    }
  }

  lemma Pow2Word()
    ensures Pow2(64) == WORD
    ensures Pow2(63) * 2 == WORD
  {
    assert Pow2(8) == 0x100;
    Pow2Add(8, 8);
    Pow2Add(16, 16);
    Pow2Add(32, 32);
  }

  /** The shifted constants agree with the powers of two. */
  lemma ShiftConstants()
    ensures Pow2(50) == TwoTo50 && Pow2(62) == TwoTo62 && Pow2(63) == TwoTo63
  {
    assert Pow2(2) == 4 && Pow2(14) == 0x4000 && Pow2(16) == 0x1_0000;
    Pow2Add(16, 16);
    Pow2Add(32, 16);
    Pow2Add(48, 2);
    Pow2Add(48, 14);
    assert Pow2(63) == 2 * Pow2(62);
  }

  /** MSB is the unique r with 2^r <= x < 2^(r+1). */
  lemma MsbUnique(x: nat, r: nat)
    requires Pow2(r) <= x < Pow2(r + 1)
    ensures Msb(x) == r
  {
    var m := Msb(x);
    if m < r {
      Pow2Monotone(m + 1, r);
      assert false;
    }
    if m > r {
      Pow2Monotone(r + 1, m);
      assert false;
    }
  }

  /** A value is a power of two exactly when it equals 2^MSB. */
  predicate IsPowerOfTwo(x: nat)
  {
    x > 0 && Pow2(Msb(x)) == x
  }

  /** MSB(x): the index of the highest set bit, floor(log2 x). */
  function Msb(x: nat): (r: nat)
    requires x > 0
    ensures Pow2(r) <= x < Pow2(r + 1)
  {
    if x == 1 then 0 else 1 + Msb(x / 2)
  }

  /** The exact high word of the 128-bit product (_mm512_hexl_mulhi_epi<64>). */
  function MulHi(x: nat, y: nat): nat
  {
    x * y / WORD
  }

  /** The low word of the product, wrapped modulo 2^64 (_mm512_hexl_mullo_epi<64>). */
  function MulLo(x: nat, y: nat): nat
  {
    x * y % WORD
  }

  /** The 128-bit value hi:lo shifted right by s, truncated to one word
      (_mm512_hexl_shrdi_epi64<s>(lo, hi)). */
  function ShiftRightDouble(lo: nat, hi: nat, s: nat): (r: nat)
    ensures r < WORD
    ensures hi * WORD + lo < WORD * Pow2(s) ==> r == (hi * WORD + lo) / Pow2(s)
  {
    var p := hi * WORD + lo;
    if p < WORD * Pow2(s) then
      QuotientFits(p, WORD, Pow2(s));
      p / Pow2(s) % WORD
    else
      p / Pow2(s) % WORD
  }

  /** Lane-wise subtraction a - b with unsigned wrap-around (_mm512_sub_epi64). */
  function SubWrap(a: nat, b: nat): nat
  {
    (a - b) % WORD
  }

  /** The low word of the quotient (hi:lo) / d (DivideUInt128UInt64Lo). */
  function DivideUInt128Lo(hi: nat, lo: nat, d: nat): nat
    requires d > 0
  {
    (hi * WORD + lo) / d % WORD
  }

  // ---------------------------------------------------------------------
  // Facts about the word helpers.

  lemma ProductSplit(x: nat, y: nat)
    ensures MulHi(x, y) * WORD + MulLo(x, y) == x * y
    ensures x < WORD && y < WORD ==> MulHi(x, y) < WORD
  {
    if x < WORD && y < WORD {
      HighWordBelow(x, y, WORD);
    }
  }

  lemma HighWordBelow(x: nat, y: nat, w: nat)
    requires x < w && y < w
    ensures x * y / w < w
  {
    MulStrictMono(x, w, y, w);
    DivBelow(x * y, w, w);
  }

  /** Shifting the split product by s loses no high bit when the product is
      below 2^(64+s). */
  lemma ShiftOfProduct(p: nat, s: nat)
    requires p < WORD * Pow2(s)
    ensures ShiftRightDouble(p % WORD, p / WORD, s) == p / Pow2(s)
  {
    ShiftCore(p, WORD, Pow2(s));
  }

  lemma ShiftCore(p: nat, w: nat, d: nat)
    requires w > 0 && d > 0 && p < w * d
    ensures ((p / w) * w + p % w) / d % w == p / d
  {
    Reassemble(p, w);
    QuotientFits(p, w, d);
  }

  /** A quotient below w is its own residue mod w. */
  lemma QuotientFits(p: nat, w: nat, d: nat)
    requires w > 0 && d > 0 && p < w * d
    ensures p / d % w == p / d
  {
    DivBelow(p, d, w);
    ModOfSmall(p / d, w);
  }

  // ---------------------------------------------------------------------
  // Arithmetic helpers.

  lemma MulLeMono(a: nat, b: nat, c: nat, d: nat)
    requires a <= b && c <= d
    ensures a * c <= b * d
  {
    assert a * c <= b * c;
    assert b * c <= b * d;
  }

  lemma MulStrictMono(a: nat, b: nat, c: nat, d: nat)
    requires a < b && c < d
    ensures a * c < b * d
  {
    MulLeMono(a, b, c, d);
    assert a * c <= a * d;
    assert a * d < b * d;
  }

  lemma MulLeCancel(a: nat, b: nat, c: nat)
    requires c > 0 && a * c <= b * c
    ensures a <= b
  {
    assert (b + 1) * c == b * c + c;
    if a > b {
      MulLeMono(b + 1, a, c, c);
      assert false;
    }
  }

  /** If a < b * c then a / c < b. */
  lemma DivBelow(a: nat, c: nat, b: nat)
    requires c > 0 && a < b * c
    ensures a / c < b
  {
    assert (a / c) * c + a % c == a;
    if a / c >= b {
      MulLeMono(b, a / c, c, c);
      assert false;
    }
  }

  /** If m * c <= a then m <= a / c. */
  lemma DivAtLeast(a: nat, c: nat, m: nat)
    requires c > 0 && m * c <= a
    ensures m <= a / c
  {
    assert (a / c) * c + a % c == a;
    assert (a / c + 1) * c == (a / c) * c + c;
    if m > a / c {
      MulLeMono(a / c + 1, m, c, c);
      assert false;
    }
  }

  lemma Reassemble(a: nat, c: nat)
    requires c > 0
    ensures (a / c) * c + a % c == a
  {
  }

  lemma ModOfSmall(a: nat, c: nat)
    requires a < c
    ensures a % c == a
  {
  }

  /** Adding a multiple of c does not change the remainder. */
  lemma ModShift(a: int, k: int, c: nat)
    requires c > 0
    ensures (a + k * c) % c == a % c
  {
    var r := a % c;
    var qa := a / c;
    assert a == qa * c + r;
    assert a + k * c == (qa + k) * c + r;
    ModUnique(a + k * c, c, qa + k, r);
  }

  lemma ModSub(a: int, k: int, c: nat)
    requires c > 0
    ensures (a - k * c) % c == a % c
  {
    assert (-k) * c == -(k * c);
    ModShift(a, -k, c);
  }

  lemma ProductNonNegative(a: nat, b: nat)
    ensures a * b >= 0
  {
  }

  /** Euclidean division is unique. */
  lemma ModUnique(a: int, c: nat, qt: int, r: int)
    requires c > 0 && a == qt * c + r && 0 <= r < c
    ensures a % c == r && a / c == qt
  {
    var q0, r0 := a / c, a % c;
    assert a == q0 * c + r0;
    var d := q0 - qt;
    assert d * c == q0 * c - qt * c;
    assert d * c == r - r0;
    assert (-d) * c == -(d * c);
    if d > 0 {
      MulLeMono(1, d, c, c);
      assert false;
    }
    if d < 0 {
      MulLeMono(1, -d, c, c);
      assert false;
    }
  }

  /** (a * b) % c depends only on a % c and b % c. */
  lemma MulMod(a: nat, b: nat, c: nat)
    requires c > 0
    ensures a * b % c == (a % c) * (b % c) % c
  {
    var qa, ra := a / c, a % c;
    var qb, rb := b / c, b % c;
    assert a == qa * c + ra;
    assert b == qb * c + rb;
    calc {
      a * b;
      (qa * c + ra) * (qb * c + rb);
      ra * rb + (qa * qb * c + qa * rb + ra * qb) * c;
    }
    ModShift(ra * rb, qa * qb * c + qa * rb + ra * qb, c);
  }
}
