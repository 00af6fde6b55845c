/**
 * Left-to-right mirror pairing of `initialize_structure`. A member whose midpoint lies
 * strictly left of the centre line gets, as its mirror, the FIRST member in list order
 * whose midpoint lies strictly right of the centre line and within 0.1 of the reflected
 * midpoint. This is first match under tolerance, not nearest match; members on or right
 * of the centre line get no mirror.
 */
module Symmetry {
  import opened Base
  import opened Geometry
  import opened GroundStructure
  import opened Arena

  /** Matching tolerance on the midpoint distance (compared squared: err < 0.1 iff err^2 < 0.01). */
  const Tolerance: real := 0.1

  function CenterLine(span: real): real
  {
    span / 2.0
  }

  /** Where the twin's midpoint should be: (span - mid_x, mid_y). */
  function MirrorTarget(m: Member, span: real): Point
  {
    Point(span - m.mid.x, m.mid.y)
  }

  predicate IsTwinCandidate(c: Member, span: real, target: Point)
  {
    c.mid.x > CenterLine(span) && DistSq(c.mid, target) < Tolerance * Tolerance
  }

  /** Position of the first candidate at or after `from`. */
  function FirstCandidate(ms: seq<Member>, span: real, target: Point, from: nat): (r: Option<nat>)
    decreases |ms| - from
    ensures r.Some? ==>
      && from <= r.value < |ms|
      && IsTwinCandidate(ms[r.value], span, target)
      && forall j :: from <= j < r.value ==> !IsTwinCandidate(ms[j], span, target)
    ensures r.None? ==> forall j :: from <= j < |ms| ==> !IsTwinCandidate(ms[j], span, target)
  {
    if from >= |ms| then None
    else if IsTwinCandidate(ms[from], span, target) then Some(from)
    else FirstCandidate(ms, span, target, from + 1)
  }

  /** The mirror id the source assigns to `m`. */
  function TwinId(ms: seq<Member>, span: real, m: Member): Option<nat>
  {
    if m.mid.x < CenterLine(span) then
      match FirstCandidate(ms, span, MirrorTarget(m, span), 0)
      case None => None
      case Some(j) => Some(ms[j].id)
    else None
  }

  /** Sets `mirror` on every member; nothing else changes. */
  function AssignMirrors(ms: seq<Member>, span: real): (r: seq<Member>)
    ensures |r| == |ms|
    ensures forall k :: 0 <= k < |ms| ==> r[k] == ms[k].(mirror := r[k].mirror)
    ensures forall k :: 0 <= k < |ms| && r[k].mirror.Some? ==>
      && ms[k].mid.x < CenterLine(span)
      && exists j :: 0 <= j < |ms| && ms[j].id == r[k].mirror.value
           && IsTwinCandidate(ms[j], span, MirrorTarget(ms[k], span))
           && forall i :: 0 <= i < j ==> !IsTwinCandidate(ms[i], span, MirrorTarget(ms[k], span))
    ensures forall k :: 0 <= k < |ms| && r[k].mirror.None? && ms[k].mid.x < CenterLine(span) ==>
      forall j :: 0 <= j < |ms| ==> !IsTwinCandidate(ms[j], span, MirrorTarget(ms[k], span))
  {
    seq(|ms|, k requires 0 <= k < |ms| => ms[k].(mirror := TwinId(ms, span, ms[k])))
  }

  /** On an arena with consecutive ids the pairing is well formed: a mirror names another
      member, which lies right of centre and so has no mirror itself. In particular no
      member is its own mirror. */
  lemma AssignMirrorsWellFormed(ms: seq<Member>, span: real)
    requires IdsConsecutive(ms)
    ensures IdsConsecutive(AssignMirrors(ms, span))
    ensures MirrorsWellFormed(AssignMirrors(ms, span))
  {
    var r := AssignMirrors(ms, span);
    forall k | 0 <= k < |r| && r[k].mirror.Some?
      ensures 1 <= r[k].mirror.value <= |r|
      ensures r[k].mirror.value != k + 1
      ensures r[r[k].mirror.value - 1].mirror.None?
    {
      var j :| 0 <= j < |ms| && ms[j].id == r[k].mirror.value
           && IsTwinCandidate(ms[j], span, MirrorTarget(ms[k], span));
      assert ms[j].mid.x > CenterLine(span) > ms[k].mid.x;
      assert j == r[k].mirror.value - 1;
    }
  }

  /** Two crossing diagonals share a midpoint, so both left diagonals of a panel are matched
      to the same right diagonal (the first one listed), and the second right diagonal, the
      true reflection of the first left diagonal, is nobody's mirror. */
  lemma CrossingDiagonalsShareTwin()
    ensures var ms := [
        NewMember(1, Point(0.0, 0.0), Point(1.0, 1.0), 1.0),
        NewMember(2, Point(0.0, 1.0), Point(1.0, 0.0), 1.0),
        NewMember(3, Point(3.0, 0.0), Point(4.0, 1.0), 1.0),
        NewMember(4, Point(3.0, 1.0), Point(4.0, 0.0), 1.0)];
      var r := AssignMirrors(ms, 4.0);
      r[0].mirror == Some(3) && r[1].mirror == Some(3) &&
      r[2].mirror == None && r[3].mirror == None
  {
    var ms := [
        NewMember(1, Point(0.0, 0.0), Point(1.0, 1.0), 1.0),
        NewMember(2, Point(0.0, 1.0), Point(1.0, 0.0), 1.0),
        NewMember(3, Point(3.0, 0.0), Point(4.0, 1.0), 1.0),
        NewMember(4, Point(3.0, 1.0), Point(4.0, 0.0), 1.0)];
    assert IsTwinCandidate(ms[2], 4.0, MirrorTarget(ms[0], 4.0));
    assert !IsTwinCandidate(ms[0], 4.0, MirrorTarget(ms[0], 4.0));
    assert !IsTwinCandidate(ms[1], 4.0, MirrorTarget(ms[0], 4.0));
    assert FirstCandidate(ms, 4.0, MirrorTarget(ms[0], 4.0), 0) == Some(2);
    assert FirstCandidate(ms, 4.0, MirrorTarget(ms[1], 4.0), 0) == Some(2);
  }
}
