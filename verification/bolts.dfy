/**
 * `BoltDesigner`: sizing a bearing-type bolted connection of grade 4.6 bolts in an Fe410
 * plate following IS 800:2007 (section 10.2.2 minimum pitch, 10.2.4 end distance,
 * 10.3.3 shear capacity of a bearing bolt, 10.3.4 bearing capacity). Lengths are in mm,
 * stresses in N/mm^2 and capacities in kN.
 */
module BoltDesign {
  import opened Base

  // The code's constants are written as numerals inside the formulas, which keeps every
  // formula linear in its variables for the verifier:
  //   fub = 400 N/mm^2 (grade 4.6; the `grade` argument is never read),
  //   gamma_mb = 1.25, fu of the Fe410 plate = 410 N/mm^2, net area factor 0.78,
  //   hole clearance 2 mm, pi = 3.141592653589793 and sqrt 3 = 1.7320508075688772
  //   (the nearest doubles, as `math.pi` and `math.sqrt(3)` give them).

  /** fub / fu: bolt strength over plate strength, the third kb candidate. */
  const StrengthRatio: real := 400.0 / 410.0

  datatype Mode = Shear | Bearing

  datatype DesignError =
    | ZeroHoleDiameter   // d + 2 == 0: ZeroDivisionError in the kb ratios
    | ZeroBoltValue      // min(shear, bearing) == 0: ZeroDivisionError in the bolt count

  datatype Design = Design(
    diameter: real,
    shearCapacity: real,
    bearingCapacity: real,
    boltValue: real,
    boltsRequired: int,
    pitch: int,
    endDistance: int,
    critical: Mode)

  // ---------------------------------------------------------------- shear (10.3.3)

  /** Design shear capacity of one bolt with one shear plane through the threads:
      (fub / sqrt 3) * 0.78 * (pi d^2 / 4) / 1.25, in kN. */
  function ShearCapacity(d: real): (v: real)
    ensures v >= 0.0
    ensures v > 0.0 <==> d != 0.0
  {
    var anb := 0.78 * (3.141592653589793 * Square(d) / 4.0);
    var vnsb := (400.0 / 1.7320508075688772) * anb;
    vnsb / 1.25 / 1000.0
  }

  /** The shear capacity is a fixed positive multiple of d^2, the capacity of a 1 mm bolt. */
  lemma ShearIsQuadratic(d: real)
    ensures ShearCapacity(d) == ShearCapacity(1.0) * Square(d)
    ensures ShearCapacity(1.0) > 0.0
  {
  }

  /** A larger bolt has a larger shear capacity. */
  lemma ShearMonotone(d: real, d': real)
    requires 0.0 <= d < d'
    ensures ShearCapacity(d) < ShearCapacity(d')
  {
    SquareMono(d, d');
    assert Square(d) < Square(d');
  }

  // ---------------------------------------------------------------- bearing (10.3.4)

  /** kb: the smallest of e / 3d0, p / 3d0 - 0.25, fub / fu and 1. */
  function Kb(d: real, e: real, p: real): (kb: real)
    requires d + 2.0 != 0.0
    ensures kb <= e / (3.0 * (d + 2.0))
    ensures kb <= p / (3.0 * (d + 2.0)) - 0.25
    ensures kb <= StrengthRatio && kb <= 1.0
    ensures kb == e / (3.0 * (d + 2.0)) || kb == p / (3.0 * (d + 2.0)) - 0.25
         || kb == StrengthRatio || kb == 1.0
  {
    var d0 := d + 2.0;
    Min(Min(Min(e / (3.0 * d0), p / (3.0 * d0) - 0.25), StrengthRatio), 1.0)
  }

  /** Design bearing capacity of one bolt: 2.5 kb d t fu / 1.25, in kN; a hole of zero
      diameter divides by zero. */
  function BearingCapacity(d: real, t: real, e: real, p: real): (r: Result<real, DesignError>)
    ensures r.Failure? <==> d + 2.0 == 0.0
    ensures r.Failure? ==> r.error == ZeroHoleDiameter
    ensures r.Success? ==> r.value == 2.0 * Kb(d, e, p) * d * t * 410.0 / 1000.0
  {
    if d + 2.0 == 0.0 then Failure(ZeroHoleDiameter)
    else
      var kb := Kb(d, e, p);
      var vnpb := 2.5 * kb * d * t * 410.0;
      Success(vnpb / 1.25 / 1000.0)
  }

  // ---------------------------------------------------------------- spacing (10.2.2, 10.2.4)

  /** Python's `math.ceil`. */
  function Ceil(x: real): (c: int)
    ensures x <= c as real < x + 1.0
  {
    -((-x).Floor)
  }

  /** `math.ceil(x / 5) * 5`: rounded up to a multiple of 5 mm. */
  function RoundUpTo5(x: real): (m: int)
    ensures m % 5 == 0
    ensures x <= m as real < x + 5.0
  {
    Ceil(x / 5.0) * 5
  }

  /** It is the least multiple of 5 at or above x. */
  lemma RoundUpTo5IsLeast(x: real, n: int)
    requires n % 5 == 0 && x <= n as real
    ensures RoundUpTo5(x) <= n
  {
    var m := RoundUpTo5(x);
    assert m == 5 * (m / 5) && n == 5 * (n / 5);
    assert m < n + 5;
    assert m / 5 <= n / 5;
  }

  /** Minimum pitch: 2.5 d, rounded up to 5 mm. */
  function Pitch(d: real): (p: int)
    ensures p % 5 == 0 && 2.5 * d <= p as real < 2.5 * d + 5.0
  {
    RoundUpTo5(2.5 * d)
  }

  /** Minimum end distance: 1.5 d0 with d0 = d + 2 (rolled edge), rounded up to 5 mm. */
  function EndDistance(d: real): (e: int)
    ensures e % 5 == 0 && 1.5 * (d + 2.0) <= e as real < 1.5 * (d + 2.0) + 5.0
  {
    RoundUpTo5(1.5 * (d + 2.0))
  }

  // ---------------------------------------------------------------- design

  /** `math.ceil(load / bolt_value)`: with a positive bolt value the bolts carry the load,
      and one bolt fewer would not. */
  function BoltCount(load: real, v: real): (n: int)
    requires v != 0.0
    ensures load / v <= n as real < load / v + 1.0
    ensures v > 0.0 ==> load <= n as real * v < load + v
  {
    var n := Ceil(load / v);
    if v > 0.0 then CeilingCovers(load, v, n); n else n
  }

  lemma CeilingCovers(load: real, v: real, n: int)
    requires v > 0.0 && load / v <= n as real < load / v + 1.0
    ensures load <= n as real * v < load + v
  {
    var a := n as real;
    ProductNonNeg(a - load / v, v);
    assert (a - load / v) * v == a * v - load;
    ScaleBelowNext(load, v, a);
  }

  /** `design_connection`: spacings, both capacities, the governing bolt value, the bolt
      count and the governing mode. Division by zero is an error. */
  function DesignConnection(load: real, d: real, t: real): (r: Result<Design, DesignError>)
    ensures r.Failure? <==> (d + 2.0 == 0.0 ||
      Min(ShearCapacity(d), BearingCapacity(d, t, EndDistance(d) as real, Pitch(d) as real).value) == 0.0)
    ensures r.Success? ==> var x := r.value;
      && x.diameter == d
      && x.pitch == Pitch(d) && x.endDistance == EndDistance(d)
      && x.shearCapacity == ShearCapacity(d)
      && BearingCapacity(d, t, x.endDistance as real, x.pitch as real) == Success(x.bearingCapacity)
      && x.boltValue <= x.shearCapacity && x.boltValue <= x.bearingCapacity
      && (x.boltValue == x.shearCapacity || x.boltValue == x.bearingCapacity)
      && (x.critical == Shear <==> x.shearCapacity < x.bearingCapacity)
      && x.boltValue != 0.0
      && x.boltsRequired == BoltCount(load, x.boltValue)
  {
    var pitch := Pitch(d);
    var endDist := EndDistance(d);
    var shear := ShearCapacity(d);
    match BearingCapacity(d, t, endDist as real, pitch as real)
    case Failure(e) => Failure(e)
    case Success(bearing) =>
      var boltValue := Min(shear, bearing);
      if boltValue == 0.0 then Failure(ZeroBoltValue)
      else
        Success(Design(d, shear, bearing, boltValue, BoltCount(load, boltValue), pitch, endDist,
                       if shear < bearing then Shear else Bearing))
  }

  /** The worked case of the module: 100 kN on M20 bolts through a 10 mm plate needs three
      bolts at 50 mm pitch and 35 mm end distance, and shear governs. */
  lemma M20Example()
    ensures DesignConnection(100.0, 20.0, 10.0).Success?
    ensures var x := DesignConnection(100.0, 20.0, 10.0).value;
      x.pitch == 50 && x.endDistance == 35 && x.boltsRequired == 3 && x.critical == Shear
  {
    assert Pitch(20.0) == 50;
    assert EndDistance(20.0) == 35;
    var kb := Kb(20.0, 35.0, 50.0);
    assert kb == 50.0 / 66.0 - 0.25;
    var shear := ShearCapacity(20.0);
    ShearIsQuadratic(20.0);
    assert 45.0 < shear < 46.0;
    var bearing := BearingCapacity(20.0, 10.0, 35.0, 50.0).value;
    assert 83.0 < bearing < 84.0;
    assert 2.0 < 100.0 / shear < 3.0;
  }
}
