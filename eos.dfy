/**
 * Equation-of-state and conserved-to-primitive formulas of the ideal-gas
 * hydro solvers, over exact reals.  Every denominator the C++ code divides
 * by is required to be non-zero.
 *
 * Relativistic notation: rho rest-mass density, p pressure, eps specific
 * internal energy, W Lorentz factor, h = 1 + eps + p / rho specific
 * enthalpy; the conserved variables are D = rho W, S = rho h W^2 v and
 * tau = rho h W^2 - p - D.
 */
module Eos {

  // ---------------------------------------------------------------------
  // Newtonian ideal gas
  // ---------------------------------------------------------------------

  /** `calc_pressure`: gas pressure from the total energy density. */
  function CalcPressure(gamma: real, rho: real, energy: real, v: real): (p: real)
    ensures gamma != 1.0 ==> energy == p / (gamma - 1.0) + 0.5 * rho * v * v
  {
    if gamma != 1.0 then
      assert (gamma - 1.0) * (energy - 0.5 * rho * v * v) / (gamma - 1.0) == energy - 0.5 * rho * v * v by {
        DivCancel((gamma - 1.0) * (energy - 0.5 * rho * v * v), gamma - 1.0);
        MulCancel((gamma - 1.0) * (energy - 0.5 * rho * v * v) / (gamma - 1.0), energy - 0.5 * rho * v * v, gamma - 1.0);
      }
      (gamma - 1.0) * (energy - 0.5 * rho * v * v)
    else
      (gamma - 1.0) * (energy - 0.5 * rho * v * v)
  }

  /** `calc_energy`: total energy density from the pressure. */
  function CalcEnergy(gamma: real, rho: real, p: real, v: real): (energy: real)
    requires gamma != 1.0
    ensures p == (gamma - 1.0) * (energy - 0.5 * rho * v * v)
  {
    p / (gamma - 1.0) + 0.5 * rho * v * v
  }

  /** Pressure to energy and back gives the pressure. */
  lemma PressureEnergyRoundTrip(gamma: real, rho: real, p: real, v: real)
    requires gamma != 1.0
    ensures CalcPressure(gamma, rho, CalcEnergy(gamma, rho, p, v), v) == p
  {
  }

  /** Energy to pressure and back gives the energy. */
  lemma EnergyPressureRoundTrip(gamma: real, rho: real, energy: real, v: real)
    requires gamma != 1.0
    ensures CalcEnergy(gamma, rho, CalcPressure(gamma, rho, energy, v), v) == energy
  {
  }

  // ---------------------------------------------------------------------
  // Relativistic ideal gas
  // ---------------------------------------------------------------------

  /** The ideal-gas specific internal energy, from p = (gamma - 1) rho eps. */
  function IdealEps(gamma: real, rho: real, p: real): real
    requires rho != 0.0 && gamma != 1.0
  {
    p / ((gamma - 1.0) * rho)
  }

  /** `calc_enthalpy`: 1 + gamma p / (rho (gamma - 1)). */
  function CalcEnthalpy(gamma: real, rho: real, p: real): (h: real)
    requires rho * (gamma - 1.0) != 0.0
    ensures h == 1.0 + IdealEps(gamma, rho, p) + p / rho
  {
    EnthalpySplit(gamma, rho, p);
    1.0 + gamma * p / (rho * (gamma - 1.0))
  }

  lemma EnthalpySplit(gamma: real, rho: real, p: real)
    requires rho * (gamma - 1.0) != 0.0
    ensures 1.0 + gamma * p / (rho * (gamma - 1.0)) == 1.0 + IdealEps(gamma, rho, p) + p / rho
  {
    var k := rho * (gamma - 1.0);
    assert p / rho == (gamma - 1.0) * p / k;
    assert IdealEps(gamma, rho, p) == p / k;
    assert gamma * p / k == p / k + (gamma - 1.0) * p / k;
  }

  /** For positive density and pressure and gamma > 1 the enthalpy exceeds 1. */
  lemma EnthalpyAboveOne(gamma: real, rho: real, p: real)
    requires rho > 0.0 && p > 0.0 && gamma > 1.0
    ensures CalcEnthalpy(gamma, rho, p) > 1.0
  {
    assert rho * (gamma - 1.0) > 0.0;
    assert gamma * p > 0.0;
  }

  /** The conserved variables D and tau of a primitive state. */
  function ConservedD(rho: real, w: real): real
  {
    rho * w
  }

  function ConservedTau(rho: real, eps: real, p: real, w: real): real
  {
    RhoHW2(rho, eps, p, w) - p - rho * w
  }

  /** rho h W^2, written with h = 1 + eps + p / rho multiplied out. */
  function RhoHW2(rho: real, eps: real, p: real, w: real): real
  {
    (rho + rho * eps + p) * w * w
  }

  /** `epsilon_rel`: the specific internal energy from D, tau, W and p. */
  function EpsilonRel(p: real, d: real, tau: real, w: real): (eps: real)
    requires d * w != 0.0
    ensures eps * d * w == tau + d * (1.0 - w) + (1.0 - w * w) * p
  {
    (tau + d * (1.0 - w) + (1.0 - w * w) * p) / (d * w)
  }

  /** `epsilon_rel` recovers eps from the conserved variables of a state. */
  lemma EpsilonRelRecovers(rho: real, eps: real, p: real, w: real)
    requires rho * w * w != 0.0
    ensures ConservedD(rho, w) * w != 0.0
    ensures EpsilonRel(p, ConservedD(rho, w), ConservedTau(rho, eps, p, w), w) == eps
  {
    var d, tau := ConservedD(rho, w), ConservedTau(rho, eps, p, w);
    assert d * w == rho * w * w;
    var num := tau + d * (1.0 - w) + (1.0 - w * w) * p;
    assert num == rho * eps * (w * w);
    assert num == eps * (d * w);
  }

  /** `rho_rel`: rest-mass density D / (W sqrt(g)). */
  function RhoRel(d: real, w: real, rootG: real): (rho: real)
    requires w * rootG != 0.0
    ensures rho * w * rootG == d
  {
    d / (w * rootG)
  }

  /** In flat space `rho_rel` recovers rho from D = rho W. */
  lemma RhoRelRecovers(rho: real, w: real)
    requires w != 0.0
    ensures RhoRel(ConservedD(rho, w), w, 1.0) == rho
  {
  }

  /** `calc_velocity`: the three-velocity S / (tau + sqrt(g) p + D). */
  function CalcVelocity(s: real, tau: real, p: real, d: real, rootG: real): (v: real)
    requires tau + rootG * p + d != 0.0
    ensures v * (tau + rootG * p + d) == s
  {
    s / (tau + rootG * p + d)
  }

  /**
   * In flat space `calc_velocity` recovers v from S = rho h W^2 v, because
   * tau + p + D is rho h W^2.
   */
  lemma CalcVelocityRecovers(rho: real, eps: real, p: real, w: real, v: real)
    requires RhoHW2(rho, eps, p, w) != 0.0
    ensures ConservedTau(rho, eps, p, w) + 1.0 * p + ConservedD(rho, w) != 0.0
    ensures CalcVelocity(RhoHW2(rho, eps, p, w) * v, ConservedTau(rho, eps, p, w), p, ConservedD(rho, w), 1.0) == v
  {
    var k := RhoHW2(rho, eps, p, w);
    assert ConservedTau(rho, eps, p, w) + 1.0 * p + ConservedD(rho, w) == k;
    DivCancel(k * v, k);
    MulCancel(k * v / k, v, k);
  }

  // ---------------------------------------------------------------------
  // HLLC intermediate pressure
  // ---------------------------------------------------------------------

  /**
   * The star state between a wave of speed a and the contact of speed
   * aStar is consistent when the jump conditions across the outer wave and
   * the contact give the same momentum: the wave gives
   * m* (a - aStar) = B + p* and E* = (A + m*) / a with A = a E - m and
   * B = m (a - u) - p, and the contact moves with the fluid, so
   * m* = (E* + p*) aStar.
   */
  predicate StarConsistent(a: real, aStar: real, energy: real, mom: real, u: real, p: real, pStar: real)
    requires a != 0.0 && a != aStar
  {
    var bigA := a * energy - mom;
    var bigB := mom * (a - u) - p;
    var mStar := (bigB + pStar) / (a - aStar);
    var eStar := (bigA + mStar) / a;
    mStar == (eStar + pStar) * aStar
  }

  /**
   * `calc_intermed_pressure` as written: (A aStar - B) / (1 + a aStar).
   * It agrees with the consistent star pressure only when a aStar = 0 or
   * the numerator vanishes.
   */
  function CalcIntermedPressure(a: real, aStar: real, energy: real, mom: real, u: real, p: real): (pStar: real)
    requires 1.0 + a * aStar != 0.0
    ensures pStar * (1.0 + a * aStar) == (a * energy - mom) * aStar - (mom * (a - u) - p)
  {
    var e := (a * energy - mom) * aStar;
    var f := mom * (a - u) - p;
    var g := 1.0 + a * aStar;
    (e - f) / g
  }

  /**
   * The star pressure the jump conditions determine:
   * (A aStar - B) / (1 - a aStar).
   */
  function IntermedPressure(a: real, aStar: real, energy: real, mom: real, u: real, p: real): (pStar: real)
    requires 1.0 - a * aStar != 0.0
    ensures pStar * (1.0 - a * aStar) == (a * energy - mom) * aStar - (mom * (a - u) - p)
  {
    var e := (a * energy - mom) * aStar;
    var f := mom * (a - u) - p;
    var g := 1.0 - a * aStar;
    (e - f) / g
  }

  /** p* is consistent with the jump conditions exactly when it is `IntermedPressure`. */
  lemma IntermedPressureConsistent(a: real, aStar: real, energy: real, mom: real, u: real, p: real, pStar: real)
    requires a != 0.0 && a != aStar && 1.0 - a * aStar != 0.0
    ensures StarConsistent(a, aStar, energy, mom, u, p, pStar) <==> pStar == IntermedPressure(a, aStar, energy, mom, u, p)
  {
    var bigA := a * energy - mom;
    var bigB := mom * (a - u) - p;
    var mStar := (bigB + pStar) / (a - aStar);
    var eStar := (bigA + mStar) / a;
    DivCancel(bigB + pStar, a - aStar);
    DivCancel(bigA + mStar, a);
    ConsistencyAlgebra(a, aStar, bigA, bigB, mStar, eStar, pStar);
    var q := IntermedPressure(a, aStar, energy, mom, u, p);
    MulCancel(pStar, q, 1.0 - a * aStar);
  }

  /** Dividing by k and multiplying back gives the dividend. */
  lemma DivCancel(x: real, k: real)
    requires k != 0.0
    ensures x / k * k == x
  {
  }

  /** A non-zero factor can be cancelled from both sides. */
  lemma MulCancel(x: real, y: real, k: real)
    requires k != 0.0
    ensures x * k == y * k <==> x == y
  {
    if x * k == y * k {
      assert (x - y) * k == 0.0;
    }
  }

  /**
   * The jump conditions with the divisions multiplied out: the contact
   * condition holds exactly when p* (1 - a aStar) = A aStar - B.
   */
  lemma ConsistencyAlgebra(a: real, aStar: real, bigA: real, bigB: real, mStar: real, eStar: real, pStar: real)
    requires a != 0.0
    requires mStar * (a - aStar) == bigB + pStar
    requires eStar * a == bigA + mStar
    ensures mStar == (eStar + pStar) * aStar <==> pStar * (1.0 - a * aStar) == bigA * aStar - bigB
  {
    MulCancel(mStar, (eStar + pStar) * aStar, a);
    assert (eStar + pStar) * aStar * a == (eStar * a) * aStar + pStar * a * aStar;
    assert (eStar + pStar) * aStar * a == (bigA + mStar) * aStar + pStar * a * aStar;
    assert mStar * a == (bigA + mStar) * aStar + pStar * a * aStar
       <==> mStar * (a - aStar) == bigA * aStar + pStar * a * aStar;
  }

  /**
   * The two pressures agree only when a aStar = 0 or the common numerator
   * A aStar - B vanishes.
   */
  lemma IntermedPressureAgreement(a: real, aStar: real, energy: real, mom: real, u: real, p: real)
    requires 1.0 + a * aStar != 0.0 && 1.0 - a * aStar != 0.0
    ensures CalcIntermedPressure(a, aStar, energy, mom, u, p) == IntermedPressure(a, aStar, energy, mom, u, p)
      <==> a * aStar == 0.0 || (a * energy - mom) * aStar - (mom * (a - u) - p) == 0.0
  {
    var x, y := CalcIntermedPressure(a, aStar, energy, mom, u, p), IntermedPressure(a, aStar, energy, mom, u, p);
    var k, n := a * aStar, (a * energy - mom) * aStar - (mom * (a - u) - p);
    SameNumerator(x, y, k, n);
  }

  lemma SameNumerator(x: real, y: real, k: real, n: real)
    requires 1.0 + k != 0.0 && 1.0 - k != 0.0
    requires x * (1.0 + k) == n && y * (1.0 - k) == n
    ensures x == y <==> k == 0.0 || n == 0.0
  {
    if x == y {
      assert x * (2.0 * k) == 0.0;
      if k != 0.0 {
        MulCancel(x, 0.0, 2.0 * k);
      }
    }
    if n == 0.0 {
      MulCancel(x, 0.0, 1.0 + k);
      MulCancel(y, 0.0, 1.0 - k);
    }
    if k == 0.0 {
      MulCancel(x, y, 1.0);
    }
  }

  /**
   * As written, `calc_intermed_pressure` violates the jump conditions: with
   * wave speeds a = 1/2 and aStar = 1/4 and a gas at rest with E = 2 and
   * p = 1 it returns 10/9, while the consistent star pressure is 10/7.
   */
  lemma IntermedPressureCounterexample()
    ensures CalcIntermedPressure(0.5, 0.25, 2.0, 0.0, 0.0, 1.0) == 10.0 / 9.0
    ensures IntermedPressure(0.5, 0.25, 2.0, 0.0, 0.0, 1.0) == 10.0 / 7.0
    ensures !StarConsistent(0.5, 0.25, 2.0, 0.0, 0.0, 1.0, CalcIntermedPressure(0.5, 0.25, 2.0, 0.0, 0.0, 1.0))
  {
    IntermedPressureConsistent(0.5, 0.25, 2.0, 0.0, 0.0, 1.0, 10.0 / 9.0);
  }
}
