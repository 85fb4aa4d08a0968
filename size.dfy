/**
  * Sizes and capacities (inc/size.h).
  *
  * `size_t` is an unsigned 64-bit integer, so `next_pow2` is modelled bit for
  * bit on `bv64`, where it is proved to be the least power of two that is at
  * least x, for 1 <= x <= 2^63.  The capacity arithmetic of the buffers
  * elsewhere in the model works on `nat`; it uses `CeilPow2`, which is proved
  * to have that same characterisation on the naturals.
  */
module Size {

  /** INT_MAX of a 32-bit `int`. */
  const INT_MAX: nat := 0x7FFF_FFFF

  /** 2^63: the largest power of two a `size_t` can hold. */
  const TOP_POW2: bv64 := 0x8000_0000_0000_0000

  /** `safe_int(x)`: a size forced into an `int` without overflow. */
  function SafeInt(x: nat): (r: nat)
    ensures r <= INT_MAX && r <= x
    ensures r == x || r == INT_MAX
  {
    if x <= INT_MAX then x else INT_MAX
  }

  /** `is_safe_int(x)`: the size fits in an `int`. */
  predicate IsSafeInt(x: nat)
  {
    x <= INT_MAX
  }

  lemma SafeIntExact(x: nat)
    ensures IsSafeInt(x) <==> SafeInt(x) == x
  {
  }

  // ---------------------------------------------------------------------
  // next_pow2 on bv64, bit for bit

  /** The six `x |= x >> k` steps: every bit below the highest set bit of x is set. */
  function Smear(x: bv64): bv64
  {
    var x1 := x | (x >> 1);
    var x2 := x1 | (x1 >> 2);
    var x3 := x2 | (x2 >> 4);
    var x4 := x3 | (x3 >> 8);
    var x5 := x4 | (x4 >> 16);
    x5 | (x5 >> 32)
  }

  /** `next_pow2(x)`: decrement unless zero, smear, add one (wrapping). */
  function NextPow2(x: bv64): bv64
  {
    if x != 0 then Smear(x - 1) + 1 else Smear(x) + 1
  }

  /** A power of two, in the usual bit formulation. */
  predicate IsPow2(v: bv64)
  {
    v != 0 && v & (v - 1) == 0
  }

  // The facts below are first proved for x != 0 with a bound on the
  // decremented value x - 1, which is what `next_pow2` smears; the bound on
  // x itself is then traded for one on x - 1.  Kept apart, every step stays
  // a short bit-level query for the solver.

  lemma DecrementBelow(x: bv64, p: bv64)
    requires x <= p
    ensures x == 0 || x - 1 < p
  {
  }

  lemma SmearedIsPow2(x: bv64)
    requires x != 0 && x - 1 < TOP_POW2
    ensures NextPow2(x) != 0
    ensures NextPow2(x) & (NextPow2(x) - 1) == 0
  {
  }

  lemma SmearedAtLeast(x: bv64)
    requires x != 0 && x - 1 < TOP_POW2
    ensures !(NextPow2(x) < x)
  {
    SmearCovers(x - 1);
  }

  lemma SmearCovers(y: bv64)
    ensures y <= Smear(y)
  {
  }

  lemma SmearBelowPow2(x: bv64, p: bv64)
    requires IsPow2(p) && x != 0 && x - 1 < p
    ensures Smear(x - 1) < p
  {
  }

  lemma SmearedUpTo(x: bv64, p: bv64)
    requires x != 0 && Smear(x - 1) < p
    ensures NextPow2(x) <= p
  {
  }

  lemma SmearedAllOnes(x: bv64)
    requires x != 0 && TOP_POW2 <= x - 1
    ensures NextPow2(x) == 0
  {
  }

  lemma NextPow2Zero()
    ensures NextPow2(0) == 1
  {
  }

  /** On 1 .. 2^63 the result is a power of two ... */
  lemma NextPow2IsPow2(x: bv64)
    requires 1 <= x <= TOP_POW2
    ensures IsPow2(NextPow2(x))
  {
    DecrementBelow(x, TOP_POW2);
    SmearedIsPow2(x);
  }

  /** ... that is at least x ... */
  lemma NextPow2AtLeast(x: bv64)
    requires 1 <= x <= TOP_POW2
    ensures x <= NextPow2(x)
  {
    DecrementBelow(x, TOP_POW2);
    SmearedAtLeast(x);
  }

  /** ... and at most every power of two that is at least x. */
  lemma NextPow2Smallest(x: bv64, p: bv64)
    requires 1 <= x && IsPow2(p) && x <= p
    ensures NextPow2(x) <= p
  {
    DecrementBelow(x, p);
    SmearBelowPow2(x, p);
    SmearedUpTo(x, p);
  }

  /** Powers of two are fixed points ... */
  lemma NextPow2Fixed(p: bv64)
    requires IsPow2(p) && p <= TOP_POW2
    ensures NextPow2(p) == p
  {
    NextPow2AtLeast(p);
    NextPow2Smallest(p, p);
  }

  /** ... so `next_pow2` is idempotent on 1 .. 2^63. */
  lemma NextPow2Idempotent(x: bv64)
    requires 1 <= x <= TOP_POW2
    ensures NextPow2(NextPow2(x)) == NextPow2(x)
  {
    NextPow2IsPow2(x);
    NextPow2Smallest(x, TOP_POW2);
    NextPow2Fixed(NextPow2(x));
  }

  lemma AboveTopDecrement(x: bv64)
    requires x > TOP_POW2
    ensures x != 0 && TOP_POW2 <= x - 1
  {
  }

  /** Above 2^63 every bit is smeared on and the final increment wraps to 0. */
  lemma NextPow2Wraps(x: bv64)
    requires x > TOP_POW2
    ensures NextPow2(x) == 0
  {
    AboveTopDecrement(x);
    SmearedAllOnes(x);
  }

  // ---------------------------------------------------------------------
  // The same rounding on unbounded naturals, for capacity arithmetic

  ghost predicate IsPowerOfTwo(n: nat)
    decreases n
  {
    n == 1 || (n >= 2 && n % 2 == 0 && IsPowerOfTwo(n / 2))
  }

  /** The smallest power of two that is at least n (1 for n = 0, as `next_pow2(0)`). */
  function CeilPow2(n: nat): (r: nat)
    ensures IsPowerOfTwo(r) && n <= r
    ensures n >= 1 ==> r / 2 < n
    decreases n
  {
    if n <= 1 then 1
    else
      var h := CeilPow2((n + 1) / 2);
      assert h == 1 || h % 2 == 0;
      2 * h
  }

  lemma {:induction false} CeilPow2Smallest(n: nat, p: nat)
    requires IsPowerOfTwo(p) && n <= p
    ensures CeilPow2(n) <= p
    decreases n
  {
    if n > 1 {
      CeilPow2Smallest((n + 1) / 2, p / 2);
    }
  }

  lemma CeilPow2Fixed(p: nat)
    requires IsPowerOfTwo(p)
    ensures CeilPow2(p) == p
  {
    CeilPow2Smallest(p, p);
  }
}
