/**
 * Powers of two and alignment to them: `usize::is_power_of_two`,
 * `u64::next_power_of_two`, and the `(x + a - 1) & (!a + 1)` rounding the
 * allocators use.  For a power of two `a`, `!a + 1` is `-a` in two's
 * complement, the mask that clears the bits below `a`, so `x & (!a + 1)` is
 * `x` rounded down to a multiple of `a`; that is how it is stated here.
 */
module Pow2 {

  /** Is `x` a power of two? */
  predicate IsPow2(x: nat)
    decreases x
  {
    x == 1 || (x >= 2 && x % 2 == 0 && IsPow2(x / 2))
  }

  /** The least power of two at least `x`, searching upwards from the power of two `p`. */
  function NextPow2From(x: nat, p: nat): (r: nat)
    requires IsPow2(p)
    decreases x - p
    ensures IsPow2(r) && r >= x && r >= p
    ensures r == p || r / 2 < x
  {
    if p >= x then p else NextPow2From(x, 2 * p)
  }

  /** `u64::next_power_of_two`: the least power of two at least `x` (1 for 0). */
  function NextPow2(x: nat): (r: nat)
    ensures IsPow2(r) && r >= x
    ensures r == 1 || r / 2 < x
  {
    NextPow2From(x, 1)
  }

  /** A power of two above 1 is twice a power of two. */
  lemma Pow2Half(x: nat)
    requires IsPow2(x) && x >= 2
    ensures IsPow2(x / 2) && x == 2 * (x / 2)
  {
  }

  /** No power of two lies strictly between a power of two `p` and `2p`... */
  lemma {:induction false} Pow2Between(p: nat, q: nat)
    requires IsPow2(p) && IsPow2(q) && p < q
    ensures 2 * p <= q
    decreases q
  {
    Pow2Half(q);
    if p > 1 {
      Pow2Half(p);
      Pow2Between(p / 2, q / 2);
    }
  }

  /** ...so `NextPow2(x)` is below every other power of two at least `x`. */
  lemma NextPow2Least(x: nat, q: nat)
    requires IsPow2(q) && q >= x
    ensures NextPow2(x) <= q
  {
    var r := NextPow2(x);
    if r != 1 {
      Pow2Half(r);
      Pow2Between(r / 2, q);
    }
  }

  /** Is `x` a multiple of `a`? */
  predicate IsMultiple(x: nat, a: nat)
    requires a > 0
    decreases x
  {
    x == 0 || (x >= a && IsMultiple(x - a, a))
  }

  /** `x & (!a + 1)` for a power of two `a`: `x` rounded down to a multiple of `a`. */
  function AlignDown(x: nat, a: nat): (r: nat)
    requires a > 0
    decreases x
    ensures r <= x < r + a && IsMultiple(r, a)
  {
    if x < a then 0 else a + AlignDown(x - a, a)
  }

  /** `(x + a - 1) & (!a + 1)`: `x` rounded up to a multiple of `a`. */
  function AlignUp(x: nat, a: nat): (r: nat)
    requires a > 0
    ensures x <= r < x + a && IsMultiple(r, a)
  {
    AlignDown(x + a - 1, a)
  }

  /** Rounding down is the greatest multiple of `a` not above `x`. */
  lemma {:induction false} AlignDownGreatest(x: nat, y: nat, a: nat)
    requires a > 0 && y <= x && IsMultiple(y, a)
    ensures y <= AlignDown(x, a)
    decreases x
  {
    if x >= a && y >= a {
      AlignDownGreatest(x - a, y - a, a);
    }
  }

  /** Two different multiples of `a` are at least `a` apart. */
  lemma {:induction false} MultiplesApart(y: nat, z: nat, a: nat)
    requires a > 0 && IsMultiple(y, a) && IsMultiple(z, a) && y < z
    ensures y + a <= z
    decreases y
  {
    if y > 0 {
      MultiplesApart(y - a, z - a, a);
    }
  }

  /** Rounding leaves a multiple of `a` where it is. */
  lemma AlignOfMultiple(x: nat, a: nat)
    requires a > 0 && IsMultiple(x, a)
    ensures AlignDown(x, a) == x && AlignUp(x, a) == x
  {
    AlignDownGreatest(x, x, a);
    var z := AlignUp(x, a);
    if x < z {
      MultiplesApart(x, z, a);
    }
  }

  /** The sum of two multiples of `d` is a multiple of `d`. */
  lemma {:induction false} SumOfMultiples(x: nat, y: nat, d: nat)
    requires d > 0 && IsMultiple(x, d) && IsMultiple(y, d)
    ensures IsMultiple(x + y, d)
    decreases x
  {
    if x > 0 {
      SumOfMultiples(x - d, y, d);
    }
  }

  /** A multiple of `a` is a multiple of every divisor of `a`. */
  lemma {:induction false} MultipleOfMultiple(x: nat, a: nat, d: nat)
    requires a > 0 && d > 0 && IsMultiple(x, a) && IsMultiple(a, d)
    ensures IsMultiple(x, d)
    decreases x
  {
    if x > 0 {
      MultipleOfMultiple(x - a, a, d);
      SumOfMultiples(a, x - a, d);
    }
  }
}
