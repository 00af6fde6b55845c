/**
 * Energy evaluation of `run_iteration`: the internal force of every active member is read
 * from the solver's per-member result, turned into the strain-energy proxy force^2 * length,
 * and the proxies of each active member and its active twin are then averaged.
 */
module Energy {
  import opened Base
  import opened GroundStructure
  import opened Arena

  /** What the solver reports under the key `N`: no key at all, `None`, a number, or the
      sampled distribution along the member (a list whose entries may be `None`). */
  datatype Reading = Absent | NoneValue | Scalar(v: real) | Samples(vs: seq<Option<real>>)

  /** One element's results: `N`, `Nmin` and `Nmax` (a missing `Nmin`/`Nmax` reads like `None`). */
  datatype ElementResult = ElementResult(n: Reading, nmin: Option<real>, nmax: Option<real>)

  /** A result with no keys at all. */
  const NoResult := ElementResult(Absent, None, None)

  /** The solver's result for member `id`; an id the solver did not report reads as no keys. */
  function ResultFor(results: map<nat, ElementResult>, id: nat): ElementResult
  {
    if id in results then results[id] else NoResult
  }

  /** `None` counts as zero. */
  function OrZero(o: Option<real>): real
  {
    match o
    case None => 0.0
    case Some(v) => v
  }

  /** The non-`None` entries of a sampled distribution, in order. */
  function Present(vs: seq<Option<real>>): (ps: seq<real>)
    ensures forall x :: x in ps <==> Some(x) in vs
  {
    if |vs| == 0 then []
    else
      var rest := Present(vs[1..]);
      assert forall o :: o in vs <==> o == vs[0] || o in vs[1..];
      (if vs[0].Some? then [vs[0].value] else []) + rest
  }

  /** The values the force is drawn from: a missing `N` counts as the number 0, `N = None`
      falls back to `Nmin` and `Nmax`, a number is itself, a list contributes its entries. */
  function Reported(r: ElementResult): seq<real>
  {
    match r.n
    case Absent => [0.0]
    case NoneValue => [OrZero(r.nmin), OrZero(r.nmax)]
    case Scalar(v) => [v]
    case Samples(vs) => Present(vs)
  }

  /** Largest magnitude among the non-`None` samples, 0 when there is none. */
  function MaxAbs(vs: seq<Option<real>>): (m: real)
    ensures m >= 0.0
    ensures forall i :: 0 <= i < |vs| && vs[i].Some? ==> Abs(vs[i].value) <= m
    ensures m == 0.0 || exists i :: 0 <= i < |vs| && vs[i].Some? && Abs(vs[i].value) == m
  {
    if |vs| == 0 then 0.0
    else
      var rest := MaxAbs(vs[1..]);
      assert forall i :: 1 <= i < |vs| ==> vs[i] == vs[1..][i - 1];
      if vs[0].Some? then Max(Abs(vs[0].value), rest) else rest
  }

  /** The force extraction of `run_iteration`: the largest magnitude reported for the member,
      or 0 when nothing is reported. */
  function ExtractForce(r: ElementResult): (f: real)
    ensures f >= 0.0
    ensures forall x :: x in Reported(r) ==> Abs(x) <= f
    ensures f == 0.0 || exists x :: x in Reported(r) && Abs(x) == f
  {
    match r.n
    case Absent => Abs(0.0)
    case NoneValue => Max(Abs(OrZero(r.nmin)), Abs(OrZero(r.nmax)))
    case Scalar(v) => Abs(v)
    case Samples(vs) =>
      var m := MaxAbs(vs);
      assert forall x :: x in Present(vs) ==> Abs(x) <= m by {
        forall x | x in Present(vs) ensures Abs(x) <= m {
          var i :| 0 <= i < |vs| && vs[i] == Some(x);
        }
      }
      assert m != 0.0 ==> exists x :: x in Present(vs) && Abs(x) == m by {
        if m != 0.0 {
          var i :| 0 <= i < |vs| && vs[i].Some? && Abs(vs[i].value) == m;
          assert vs[i].value in Present(vs);
        }
      }
      m
  }

  /** All fields other than `force` and `energy` agree. */
  predicate SameExceptReadings(ms: seq<Member>, r: seq<Member>)
  {
    |r| == |ms| && forall k :: 0 <= k < |ms| ==> r[k] == ms[k].(force := r[k].force, energy := r[k].energy)
  }

  /** All fields other than `energy` agree. */
  predicate SameExceptEnergy(ms: seq<Member>, r: seq<Member>)
  {
    |r| == |ms| && forall k :: 0 <= k < |ms| ==> r[k] == ms[k].(energy := r[k].energy)
  }

  predicate EnergiesNonNeg(ms: seq<Member>)
  {
    forall k :: 0 <= k < |ms| ==> ms[k].energy >= 0.0
  }

  /** The strain-energy proxy force^2 * length: proportional to F^2 L / (2 E A) when E A is the
      same for every active member; never negative for a non-negative length. */
  function EnergyProxy(force: real, length: real): (e: real)
    ensures length >= 0.0 ==> e >= 0.0
    ensures force == 0.0 ==> e == 0.0
  {
    SquareNonNeg(force);
    ProductNonNeg(force * force, length);
    force * force * length
  }

  /** Step B for one member: an active member stores its extracted force and the proxy
      force^2 * length; an inactive member keeps its previous values. */
  function Measure(m: Member, results: map<nat, ElementResult>): (r: Member)
    ensures r == m.(force := r.force, energy := r.energy)
    ensures !m.active ==> r == m
    ensures m.active ==> r.force == ExtractForce(ResultFor(results, m.id)) && r.energy == EnergyProxy(r.force, m.length)
    ensures m.length >= 0.0 && m.energy >= 0.0 ==> r.energy >= 0.0
  {
    if m.active then
      var f := ExtractForce(ResultFor(results, m.id));
      m.(force := f, energy := EnergyProxy(f, m.length))
    else m
  }

  /** Step B of `run_iteration` over the whole member list. */
  function Evaluate(ms: seq<Member>, results: map<nat, ElementResult>): (r: seq<Member>)
    ensures SameExceptReadings(ms, r)
    ensures forall k :: 0 <= k < |ms| ==> r[k] == Measure(ms[k], results)
    ensures (forall k :: 0 <= k < |ms| ==> ms[k].length >= 0.0) && EnergiesNonNeg(ms) ==> EnergiesNonNeg(r)
  {
    seq(|ms|, k requires 0 <= k < |ms| => Measure(ms[k], results))
  }

  /** Sum of the energy proxies of the active members (the source's total system energy). */
  function ActiveEnergy(ms: seq<Member>): real
  {
    if |ms| == 0 then 0.0
    else (if ms[0].active then ms[0].energy else 0.0) + ActiveEnergy(ms[1..])
  }

  /** Non-negative active energies give a non-negative total. */
  lemma {:induction false} ActiveEnergyNonNeg(ms: seq<Member>)
    requires forall k :: 0 <= k < |ms| && ms[k].active ==> ms[k].energy >= 0.0
    ensures ActiveEnergy(ms) >= 0.0
  {
    if |ms| > 0 {
      assert forall k :: 0 <= k < |ms[1..]| && ms[1..][k].active ==> ms[1..][k].energy >= 0.0 by {
        forall k | 0 <= k < |ms[1..]| && ms[1..][k].active ensures ms[1..][k].energy >= 0.0 {
          assert ms[1..][k] == ms[k + 1];
        }
      }
      ActiveEnergyNonNeg(ms[1..]);
    }
  }

  /** Inactive members contribute nothing: with no active member the total is zero. */
  lemma {:induction false} NoActiveNoEnergy(ms: seq<Member>)
    requires forall k :: 0 <= k < |ms| ==> !ms[k].active
    ensures ActiveEnergy(ms) == 0.0
  {
    if |ms| > 0 {
      assert forall k :: 0 <= k < |ms[1..]| ==> ms[1..][k] == ms[k + 1];
      NoActiveNoEnergy(ms[1..]);
    }
  }

  /** Changing one member's energy changes the active total by the difference, if it is active. */
  lemma {:induction false} ActiveEnergyUpdate(ms: seq<Member>, i: nat, e: real)
    requires i < |ms|
    ensures ActiveEnergy(ms[i := ms[i].(energy := e)]) ==
      ActiveEnergy(ms) + (if ms[i].active then e - ms[i].energy else 0.0)
  {
    var u := ms[i := ms[i].(energy := e)];
    if i == 0 {
      assert u[1..] == ms[1..];
    } else {
      ActiveEnergyUpdate(ms[1..], i - 1, e);
      assert u[1..] == ms[1..][i - 1 := ms[1..][i - 1].(energy := e)];
    }
  }

  /** The pair (k, its twin) is averaged: k is active, has a mirror, and the twin is active. */
  predicate Fires(ms: seq<Member>, k: nat)
    requires MirrorsWellFormed(ms) && k < |ms|
  {
    ms[k].active && ms[k].mirror.Some? && ms[TwinIndex(ms, k)].active
  }

  lemma SameShapeWellFormed(ms: seq<Member>, r: seq<Member>)
    requires MirrorsWellFormed(ms) && SameExceptEnergy(ms, r)
    ensures MirrorsWellFormed(r)
    ensures forall k :: 0 <= k < |ms| ==> Fires(r, k) == Fires(ms, k)
    ensures forall k :: 0 <= k < |ms| && ms[k].mirror.Some? ==> TwinIndex(r, k) == TwinIndex(ms, k)
  {
    assert forall k :: 0 <= k < |ms| ==> r[k].mirror == ms[k].mirror && r[k].active == ms[k].active;
  }

  /** One step of the averaging loop: member k and its twin both receive the mean of their energies. */
  function AverageWithTwin(ms: seq<Member>, k: nat): (r: seq<Member>)
    requires MirrorsWellFormed(ms) && k < |ms|
    ensures SameExceptEnergy(ms, r)
    ensures EnergiesNonNeg(ms) ==> EnergiesNonNeg(r)
    ensures ActiveEnergy(r) == ActiveEnergy(ms)
  {
    if Fires(ms, k) then
      var t := TwinIndex(ms, k);
      var avg := (ms[k].energy + ms[t].energy) / 2.0;
      var m1 := ms[k := ms[k].(energy := avg)];
      ActiveEnergyUpdate(ms, k, avg);
      ActiveEnergyUpdate(m1, t, avg);
      m1[t := m1[t].(energy := avg)]
    else ms
  }

  /** Loop C of `run_iteration` from position `from` on, in list order. */
  function SymmetrizeFrom(ms: seq<Member>, from: nat): (r: seq<Member>)
    requires MirrorsWellFormed(ms)
    decreases |ms| - from
    ensures SameExceptEnergy(ms, r)
    ensures forall k :: 0 <= k < |ms| && !ms[k].active ==> r[k] == ms[k]
    ensures EnergiesNonNeg(ms) ==> EnergiesNonNeg(r)
  {
    if from >= |ms| then ms
    else
      var ms' := AverageWithTwin(ms, from);
      SameShapeWellFormed(ms, ms');
      var r := SymmetrizeFrom(ms', from + 1);
      assert forall k :: 0 <= k < |ms| && !ms[k].active ==> ms'[k] == ms[k] by {
        forall k | 0 <= k < |ms| && !ms[k].active ensures ms'[k] == ms[k] {
          if Fires(ms, from) {
            assert k != from && k != TwinIndex(ms, from);
          }
        }
      }
      r
  }

  /** Loop C of `run_iteration` over the whole list: only energies of active members change,
      and the active total is kept. */
  function Symmetrize(ms: seq<Member>): (r: seq<Member>)
    requires MirrorsWellFormed(ms)
    ensures SameExceptEnergy(ms, r)
    ensures forall k :: 0 <= k < |ms| && !ms[k].active ==> r[k] == ms[k]
    ensures ActiveEnergy(r) == ActiveEnergy(ms)
  {
    SymmetrizeKeepsTotal(ms, 0);
    SymmetrizeFrom(ms, 0)
  }

  /** Averaging moves energy only within active pairs, so the active total is unchanged. */
  lemma {:induction false} SymmetrizeKeepsTotal(ms: seq<Member>, from: nat)
    requires MirrorsWellFormed(ms)
    decreases |ms| - from
    ensures ActiveEnergy(SymmetrizeFrom(ms, from)) == ActiveEnergy(ms)
  {
    if from < |ms| {
      var ms' := AverageWithTwin(ms, from);
      SameShapeWellFormed(ms, ms');
      SymmetrizeKeepsTotal(ms', from + 1);
    }
  }

  /** Member i is averaged at some step j >= from (as the left member or as the twin). */
  predicate TouchedFrom(ms: seq<Member>, from: nat, i: nat)
    requires MirrorsWellFormed(ms)
  {
    exists j :: from <= j < |ms| && Fires(ms, j) && (j == i || TwinIndex(ms, j) == i)
  }

  /** A member that no remaining step averages keeps its energy. */
  lemma {:induction false} SymmetrizeUntouched(ms: seq<Member>, from: nat, i: nat)
    requires MirrorsWellFormed(ms) && i < |ms|
    requires !TouchedFrom(ms, from, i)
    decreases |ms| - from
    ensures SymmetrizeFrom(ms, from)[i].energy == ms[i].energy
  {
    if from < |ms| {
      var ms' := AverageWithTwin(ms, from);
      SameShapeWellFormed(ms, ms');
      assert !TouchedFrom(ms', from + 1, i);
      SymmetrizeUntouched(ms', from + 1, i);
    }
  }

  /** No member other than k names k's twin. */
  predicate TwinUnsharedAt(ms: seq<Member>, k: nat)
    requires k < |ms|
  {
    forall j :: 0 <= j < |ms| && j != k && ms[j].mirror.Some? ==> ms[j].mirror != ms[k].mirror
  }

  /** A step leaves every member it does not average untouched. */
  lemma AverageWithTwinFrame(ms: seq<Member>, k: nat, i: nat)
    requires MirrorsWellFormed(ms) && k < |ms| && i < |ms|
    requires !(Fires(ms, k) && (i == k || i == TwinIndex(ms, k)))
    ensures AverageWithTwin(ms, k)[i] == ms[i]
  {
  }

  /** A firing step gives both members of the pair the mean of their energies. */
  lemma AverageWithTwinPair(ms: seq<Member>, k: nat)
    requires MirrorsWellFormed(ms) && k < |ms| && Fires(ms, k)
    ensures var t := TwinIndex(ms, k);
      && AverageWithTwin(ms, k)[k].energy == (ms[k].energy + ms[t].energy) / 2.0
      && AverageWithTwin(ms, k)[t].energy == (ms[k].energy + ms[t].energy) / 2.0
  {
  }

  /** The step at k gives k and its twin their mean, and when nobody else names that twin no
      later step touches either of them. */
  lemma SymmetrizePairAtStep(ms: seq<Member>, k: nat)
    requires MirrorsWellFormed(ms) && k < |ms| && Fires(ms, k) && TwinUnsharedAt(ms, k)
    ensures var r := SymmetrizeFrom(ms, k);
      var t := TwinIndex(ms, k);
      && r[k].energy == (ms[k].energy + ms[t].energy) / 2.0
      && r[t].energy == r[k].energy
  {
    var ms' := AverageWithTwin(ms, k);
    SameShapeWellFormed(ms, ms');
    var t := TwinIndex(ms, k);
    AverageWithTwinPair(ms, k);
    NotTouchedLater(ms, ms', k);
    SymmetrizeUntouched(ms', k + 1, k);
    SymmetrizeUntouched(ms', k + 1, t);
    assert SymmetrizeFrom(ms, k) == SymmetrizeFrom(ms', k + 1);
  }

  /** After the step at k, no later step touches k or its (unshared) twin. */
  lemma NotTouchedLater(ms: seq<Member>, ms': seq<Member>, k: nat)
    requires MirrorsWellFormed(ms) && k < |ms| && ms[k].mirror.Some? && TwinUnsharedAt(ms, k)
    requires SameExceptEnergy(ms, ms')
    ensures MirrorsWellFormed(ms')
    ensures !TouchedFrom(ms', k + 1, k) && !TouchedFrom(ms', k + 1, TwinIndex(ms, k))
  {
    SameShapeWellFormed(ms, ms');
    var t := TwinIndex(ms, k);
    forall j | k + 1 <= j < |ms| && Fires(ms', j)
      ensures j != k && TwinIndex(ms', j) != k
      ensures j != t && TwinIndex(ms', j) != t
    {
      assert ms[j].mirror != ms[k].mirror;
    }
  }

  /** A step before k leaves k, its twin and the conditions on them as they were. */
  lemma SkipStep(ms: seq<Member>, from: nat, k: nat)
    requires MirrorsWellFormed(ms)
    requires from < k < |ms| && Fires(ms, k) && TwinUnsharedAt(ms, k)
    ensures var ms' := AverageWithTwin(ms, from);
      && MirrorsWellFormed(ms') && Fires(ms', k) && TwinUnsharedAt(ms', k)
      && TwinIndex(ms', k) == TwinIndex(ms, k)
      && ms'[k].energy == ms[k].energy
      && ms'[TwinIndex(ms, k)].energy == ms[TwinIndex(ms, k)].energy
  {
    var ms' := AverageWithTwin(ms, from);
    SameShapeWellFormed(ms, ms');
    assert TwinUnsharedAt(ms', k) by {
      assert forall j :: 0 <= j < |ms| ==> ms'[j].mirror == ms[j].mirror;
    }
    if Fires(ms, from) {
      assert ms[from].mirror != ms[k].mirror;
    }
    AverageWithTwinFrame(ms, from, k);
    AverageWithTwinFrame(ms, from, TwinIndex(ms, k));
  }

  /** An averaged pair whose twin no other member names ends with equal energies, each the
      mean of the pair's energies before averaging. */
  lemma {:induction false} SymmetrizeEqualizesPairs(ms: seq<Member>, from: nat, k: nat)
    requires MirrorsWellFormed(ms)
    requires from <= k < |ms| && Fires(ms, k) && TwinUnsharedAt(ms, k)
    decreases |ms| - from
    ensures var r := SymmetrizeFrom(ms, from);
      var t := TwinIndex(ms, k);
      && r[k].energy == (ms[k].energy + ms[t].energy) / 2.0
      && r[t].energy == r[k].energy
  {
    if k == from {
      SymmetrizePairAtStep(ms, k);
    } else {
      var ms' := AverageWithTwin(ms, from);
      SkipStep(ms, from, k);
      SymmetrizeEqualizesPairs(ms', from + 1, k);
      assert SymmetrizeFrom(ms, from) == SymmetrizeFrom(ms', from + 1);
    }
  }

  /** With shared twins the pairs need not end equal: two left members sharing one twin. */
  lemma SharedTwinLeavesPairUnequal()
    ensures var ms := [
        Member(1, Geometry.Point(0.0, 0.0), Geometry.Point(1.0, 1.0), Geometry.Point(0.5, 0.5), 1.0, true, Some(3), 0.0, 0.0),
        Member(2, Geometry.Point(0.0, 1.0), Geometry.Point(1.0, 0.0), Geometry.Point(0.5, 0.5), 1.0, true, Some(3), 4.0, 2.0),
        Member(3, Geometry.Point(3.0, 0.0), Geometry.Point(4.0, 1.0), Geometry.Point(3.5, 0.5), 1.0, true, None, 2.0, 1.0)];
      MirrorsWellFormed(ms) &&
      var r := Symmetrize(ms);
      r[0].energy == 1.0 && r[2].energy == 2.5 && r[1].energy == 2.5
  {
    var ms := [
        Member(1, Geometry.Point(0.0, 0.0), Geometry.Point(1.0, 1.0), Geometry.Point(0.5, 0.5), 1.0, true, Some(3), 0.0, 0.0),
        Member(2, Geometry.Point(0.0, 1.0), Geometry.Point(1.0, 0.0), Geometry.Point(0.5, 0.5), 1.0, true, Some(3), 4.0, 2.0),
        Member(3, Geometry.Point(3.0, 0.0), Geometry.Point(4.0, 1.0), Geometry.Point(3.5, 0.5), 1.0, true, None, 2.0, 1.0)];
    var s0 := AverageWithTwin(ms, 0);
    assert s0[0].energy == 1.0 && s0[2].energy == 1.0 && s0[1].energy == 4.0;
    SameShapeWellFormed(ms, s0);
    var s1 := AverageWithTwin(s0, 1);
    assert s1[0].energy == 1.0 && s1[2].energy == 2.5 && s1[1].energy == 2.5;
    SameShapeWellFormed(s0, s1);
    var s2 := AverageWithTwin(s1, 2);
    assert s2 == s1;
    SameShapeWellFormed(s1, s2);
    assert SymmetrizeFrom(s2, 3) == s2;
  }
}
