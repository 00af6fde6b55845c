/**
 * Cross-section properties of a doubly symmetric I-section
 * (flange width B, overall depth D, web thickness tw, flange thickness tf).
 * The source performs no validation: every input, degenerate or not, yields a pair.
 */
module Section {

  datatype Properties = Properties(area: real, ixx: real)

  function Cube(a: real): real { a * a * a }

  /** Area and second moment of area about the strong axis (outer rectangle minus the two voids). */
  function IProperties(b: real, d: real, tw: real, tf: real): (r: Properties)
    ensures r.area == b * d - (b - tw) * (d - 2.0 * tf)
  {
    Properties(2.0 * b * tf + (d - 2.0 * tf) * tw,
               b * Cube(d) / 12.0 - (b - tw) * Cube(d - 2.0 * tf) / 12.0)
  }

  /** Second moment of area built up from its parts: two flanges moved by the parallel-axis
      theorem to the section's centroid, plus the web. */
  function PartsInertia(b: real, d: real, tw: real, tf: real): real
  {
    var arm := (d - tf) / 2.0;
    2.0 * (b * Cube(tf) / 12.0 + b * tf * arm * arm) + tw * Cube(d - 2.0 * tf) / 12.0
  }

  /** The closed form agrees with the flanges-plus-web decomposition for all inputs. */
  lemma InertiaIsSumOfParts(b: real, d: real, tw: real, tf: real)
    ensures IProperties(b, d, tw, tf).ixx == PartsInertia(b, d, tw, tf)
  {
    var h := d - 2.0 * tf;
    assert d == h + 2.0 * tf;
    assert Cube(d) == Cube(h) + 6.0 * h * h * tf + 12.0 * h * tf * tf + 8.0 * tf * tf * tf;
    assert (d - tf) / 2.0 == (h + tf) / 2.0;
  }

  lemma CubeMonotone(a: real, c: real)
    requires 0.0 <= a < c
    ensures 0.0 <= Cube(a) < Cube(c)
  {
    assert a * a <= c * c;
    assert a * a * a <= c * c * a;
    assert c * c * a < c * c * c;
  }

  /** A well-proportioned section (0 < tf < D/2, 0 < tw <= B) has positive area and inertia. */
  lemma ProperSectionIsPositive(b: real, d: real, tw: real, tf: real)
    requires 0.0 < tf && 2.0 * tf < d
    requires 0.0 < tw <= b
    ensures IProperties(b, d, tw, tf).area > 0.0
    ensures IProperties(b, d, tw, tf).ixx > 0.0
  {
    var h := d - 2.0 * tf;
    CubeMonotone(h, d);
    assert (b - tw) * Cube(h) <= b * Cube(h);
    assert b * Cube(h) < b * Cube(d);
    assert 2.0 * b * tf > 0.0;
    assert h * tw > 0.0;
  }
}
