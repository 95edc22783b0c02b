/** A share of a count, guarded against an empty whole: `part / whole if whole > 0
    else 0.0`. The scripts print and store these as floating-point numbers; here
    they are exact reals. */
module Ratios {
  /** `part / whole`, or `0.0` when `whole` is zero. */
  function Proportion(part: nat, whole: nat): (r: real)
    ensures 0.0 <= r
    ensures whole == 0 ==> r == 0.0
    ensures whole > 0 ==> r * whole as real == part as real
    ensures part <= whole ==> r <= 1.0
  {
    if whole == 0 then 0.0 else part as real / whole as real
  }

  /** A smaller part of the same whole is a smaller share. */
  lemma ProportionMonotone(a: nat, b: nat, whole: nat)
    requires a <= b
    ensures Proportion(a, whole) <= Proportion(b, whole)
  {
    if whole > 0 {
      var w := whole as real;
      assert (b as real - a as real) / w >= 0.0;
      assert b as real / w - a as real / w == (b as real - a as real) / w;
    }
  }
}
