/**
 * The minmod slope limiter of the second-order reconstruction and the sign
 * function it is built from.
 */
module Limiter {

  import Helpers

  function Abs(x: real): real
  {
    if x < 0.0 then -x else x
  }

  /**
   * `sign` decides by comparing x / |x| with 1 and -1.  At zero that
   * quotient is 0/0, which is NaN in the C++ `sign`: neither comparison holds
   * and the result is 0.  The model tests for zero first and returns that
   * 0 itself.
   */
  function Sign(x: real): (r: int)
    ensures x > 0.0 ==> r == 1
    ensures x < 0.0 ==> r == -1
    ensures x == 0.0 ==> r == 0
  {
    if x == 0.0 then 0
    else
      QuotientByAbs(x);
      if x / Abs(x) == 1.0 then 1
      else if x / Abs(x) == -1.0 then -1
      else 0
  }

  /** x / |x| is 1 for positive x and -1 for negative x. */
  lemma QuotientByAbs(x: real)
    requires x != 0.0
    ensures x > 0.0 ==> x / Abs(x) == 1.0
    ensures x < 0.0 ==> x / Abs(x) == -1.0
  {
    var q := x / Abs(x);
    assert q * Abs(x) == x;
    if x > 0.0 {
      assert (q - 1.0) * x == 0.0;
    } else {
      assert (q + 1.0) * -x == 0.0;
    }
  }

  /** The smallest of the three magnitudes. */
  function MinAbs(x: real, y: real, z: real): (m: real)
    ensures 0.0 <= m && m <= Abs(x) && m <= Abs(y) && m <= Abs(z)
    ensures m == Abs(x) || m == Abs(y) || m == Abs(z)
  {
    Helpers.Min(Helpers.Min(Abs(x), Abs(y)), Abs(z))
  }

  /**
   * `minmod`: a quarter of |sign x + sign y| times (sign x + sign z) times
   * the smallest magnitude.
   */
  function Minmod(x: real, y: real, z: real): (r: real)
    ensures Abs(r) <= Abs(x) && Abs(r) <= Abs(y) && Abs(r) <= Abs(z)
  {
    var sxy := Sign(x) + Sign(y);
    var sxz := Sign(x) + Sign(z);
    var m := MinAbs(x, y, z);
    var r := 0.25 * (if sxy < 0 then -sxy else sxy) as real * sxz as real * m;
    assert r == m || r == -m || r == 0.0 by {
      MinmodCases(x, y, z);
    }
    r
  }

  /**
   * The signs of x, y and z make the quarter-product +1 when all three are
   * positive, -1 when all three are negative, and 0 when one of them is
   * zero or the signs differ.
   */
  lemma MinmodCases(x: real, y: real, z: real)
    ensures var sxy, sxz := Sign(x) + Sign(y), Sign(x) + Sign(z);
      var f := 0.25 * (if sxy < 0 then -sxy else sxy) as real * sxz as real;
      && (x > 0.0 && y > 0.0 && z > 0.0 ==> f == 1.0)
      && (x < 0.0 && y < 0.0 && z < 0.0 ==> f == -1.0)
      && (!(x > 0.0 && y > 0.0 && z > 0.0) && !(x < 0.0 && y < 0.0 && z < 0.0) ==> f == 0.0 || MinAbs(x, y, z) == 0.0)
  {
  }

  /**
   * Characterisation: the smallest magnitude when all three arguments are
   * positive, its negation when all three are negative, and zero otherwise.
   */
  lemma MinmodCharacterised(x: real, y: real, z: real)
    ensures x > 0.0 && y > 0.0 && z > 0.0 ==> Minmod(x, y, z) == MinAbs(x, y, z)
    ensures x < 0.0 && y < 0.0 && z < 0.0 ==> Minmod(x, y, z) == -MinAbs(x, y, z)
    ensures !(x > 0.0 && y > 0.0 && z > 0.0) && !(x < 0.0 && y < 0.0 && z < 0.0) ==> Minmod(x, y, z) == 0.0
  {
    MinmodCases(x, y, z);
  }

  /** Negating every argument negates the limited slope. */
  lemma MinmodOdd(x: real, y: real, z: real)
    ensures Minmod(-x, -y, -z) == -Minmod(x, y, z)
  {
    MinmodCharacterised(x, y, z);
    MinmodCharacterised(-x, -y, -z);
  }

  /** The limited slope does not depend on the order of the arguments. */
  lemma MinmodSymmetric(x: real, y: real, z: real)
    ensures Minmod(x, y, z) == Minmod(y, x, z) == Minmod(x, z, y) == Minmod(z, y, x)
  {
    MinmodCharacterised(x, y, z);
    MinmodCharacterised(y, x, z);
    MinmodCharacterised(x, z, y);
    MinmodCharacterised(z, y, x);
  }
}
