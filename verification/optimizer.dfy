/**
 * `TopologyOptimizer`: building the initial arena (`initialize_structure` without the
 * solver set-up) and one BESO step (`run_iteration` without `solve` and logging), as a
 * pure function from the arena and the solver's results to the next arena.
 */
module Optimizer {
  import opened Base
  import opened Geometry
  import opened GroundStructure
  import opened Section
  import opened Symmetry
  import opened Arena
  import opened Energy
  import opened Pruner

  /** E is given in GPa and stored in Pa. */
  const PascalPerGPa: real := 1000000000.0

  // ---------------------------------------------------------------- initialisation

  /** Every member's id mapped to the same stiffness. */
  function UniformStiffness(ms: seq<Member>, st: Stiffness): (m: map<nat, Stiffness>)
    ensures forall k :: 0 <= k < |ms| ==> ms[k].id in m && m[ms[k].id] == st
    ensures forall id :: id in m ==> m[id] == st
  {
    map k | 0 <= k < |ms| :: ms[k].id := st
  }

  /** The ground structure with mirrors assigned. */
  function InitialMembers(span: real, height: real, root: real -> real): (ms: seq<Member>)
    ensures IdsConsecutive(ms) && MirrorsWellFormed(ms)
    ensures |ms| == |BuildGround(span, height, root)|
    ensures forall k :: 0 <= k < |ms| ==>
      && ms[k] == BuildGround(span, height, root)[k].(mirror := ms[k].mirror)
      && ms[k].active && ms[k].energy == 0.0 && ms[k].length > MinLength
      && (ms[k].mirror.Some? ==> ms[k].mid.x < CenterLine(span))
  {
    var ground := BuildGround(span, height, root);
    GroundMembers(span, height, root);
    AssignMirrorsWellFormed(ground, span);
    var ms := AssignMirrors(ground, span);
    assert forall k :: 0 <= k < |ms| ==> ground[k].length > MinLength by {
      forall k | 0 <= k < |ms| ensures ground[k].length > MinLength {
        GroundKeptLength(span, height, root, k);
      }
    }
    ms
  }

  /** `EA` and `EI` of an active element: E in Pa times the I-section's area and inertia,
      the inertia being the sum of the two flanges and the web. */
  function ActiveStiffness(eGPa: real, b: real, d: real, tw: real, tf: real): (st: Stiffness)
    ensures st.ea == eGPa * PascalPerGPa * (b * d - (b - tw) * (d - 2.0 * tf))
    ensures st.ei == eGPa * PascalPerGPa * PartsInertia(b, d, tw, tf)
  {
    var props := IProperties(b, d, tw, tf);
    InertiaIsSumOfParts(b, d, tw, tf);
    var e := eGPa * PascalPerGPa;
    Stiffness(e * props.area, e * props.ixx)
  }

  /** The ground structure with mirrors assigned, every member at the active stiffness. */
  function Initialize(span: real, height: real, eGPa: real, b: real, d: real, tw: real, tf: real,
                      root: real -> real): (a: Arena)
    ensures Valid(a)
    ensures a.members == InitialMembers(span, height, root)
    ensures forall k :: 0 <= k < |a.members| ==>
      a.stiffness[a.members[k].id] == ActiveStiffness(eGPa, b, d, tw, tf)
  {
    var ms := InitialMembers(span, height, root);
    Arena(ms, UniformStiffness(ms, ActiveStiffness(eGPa, b, d, tw, tf)))
  }

  /** Every member of the ground structure is longer than 1e-3 (the filter kept it). */
  lemma GroundKeptLength(span: real, height: real, root: real -> real, k: nat)
    requires k < |BuildGround(span, height, root)|
    ensures BuildGround(span, height, root)[k].length > MinLength
  {
    GroundMembers(span, height, root);
    var ks := GroundPairs(span, height, root);
    assert ks[k] in ks;
  }

  // ---------------------------------------------------------------- one iteration

  datatype IterationError = RemovalExceedsActive(count: nat, active: nat)

  /** One row of the returned display data. */
  datatype Bar = Bar(p1: Point, p2: Point, active: bool, force: real, maxForce: real)

  datatype Outcome = Outcome(arena: Arena, bars: seq<Bar>, remaining: nat, totalEnergy: real)

  /** Positions of the active members. */
  function ActiveSet(ms: seq<Member>): set<nat>
  {
    set k: nat | k < |ms| && ms[k].active
  }

  /** `max_f_active`: the largest force of an active member, or 0. */
  function MaxActiveForce(ms: seq<Member>): (f: real)
    ensures f >= 0.0
    ensures forall k :: 0 <= k < |ms| && ms[k].active ==> ms[k].force <= f
    ensures f == 0.0 || exists k :: 0 <= k < |ms| && ms[k].active && ms[k].force == f
  {
    if |ms| == 0 then 0.0
    else
      var rest := MaxActiveForce(ms[1..]);
      assert forall k :: 1 <= k < |ms| ==> ms[k] == ms[1..][k - 1];
      if ms[0].active && ms[0].force > rest then ms[0].force
      else
        assert rest != 0.0 ==> exists k :: 1 <= k < |ms| && ms[k].active && ms[k].force == rest by {
          if rest != 0.0 {
            var j :| 0 <= j < |ms[1..]| && ms[1..][j].active && ms[1..][j].force == rest;
            assert ms[j + 1] == ms[1..][j];
          }
        }
        rest
  }

  /** Step F: one bar per member, each carrying the largest active force. */
  function Bars(ms: seq<Member>): (bs: seq<Bar>)
    ensures |bs| == |ms|
    ensures forall k :: 0 <= k < |ms| ==>
      bs[k].p1 == ms[k].p1 && bs[k].p2 == ms[k].p2 && bs[k].active == ms[k].active && bs[k].force == ms[k].force
    ensures forall k, j :: 0 <= k < |ms| && 0 <= j < |ms| && ms[j].active ==> ms[j].force <= bs[k].maxForce
    ensures forall k :: 0 <= k < |ms| ==> bs[k].maxForce >= 0.0
    ensures forall k :: 0 <= k < |ms| ==> bs[k].maxForce == MaxActiveForce(ms)
  {
    var m := MaxActiveForce(ms);
    seq(|ms|, k requires 0 <= k < |ms| => Bar(ms[k].p1, ms[k].p2, ms[k].active, ms[k].force, m))
  }

  /** Step B on the whole list. */
  function Measured(a: Arena, results: map<nat, ElementResult>): (ms: seq<Member>)
    requires Valid(a)
    ensures SameExceptReadings(a.members, ms) && MirrorsWellFormed(ms)
    ensures forall k :: 0 <= k < |ms| && ms[k].active ==> ms[k].energy >= 0.0
  {
    var ms := Evaluate(a.members, results);
    assert forall k :: 0 <= k < |a.members| ==> ms[k].mirror == a.members[k].mirror;
    ms
  }

  /** `total_system_energy`: the active energy sum before averaging. */
  function TotalEnergy(a: Arena, results: map<nat, ElementResult>): (e: real)
    requires Valid(a)
    ensures e >= 0.0
  {
    var ms := Measured(a, results);
    ActiveEnergyNonNeg(ms);
    ActiveEnergy(ms)
  }

  /** Steps B and C: measure every active member, then average energies across twins. */
  function Averaged(a: Arena, results: map<nat, ElementResult>): (ms: seq<Member>)
    requires Valid(a)
    ensures Valid(Arena(ms, a.stiffness))
    ensures SameExceptReadings(a.members, ms)
    ensures ActiveSet(ms) == ActiveSet(a.members)
  {
    var measured := Measured(a, results);
    var ms := Symmetrize(measured);
    ReadingsThenEnergy(a.members, measured, ms);
    ReadingsKeepValid(a, ms);
    ms
  }

  lemma ReadingsThenEnergy(x: seq<Member>, y: seq<Member>, z: seq<Member>)
    requires SameExceptReadings(x, y) && SameExceptEnergy(y, z)
    ensures SameExceptReadings(x, z)
  {
    forall k | 0 <= k < |x| ensures z[k] == x[k].(force := z[k].force, energy := z[k].energy) {
      assert y[k] == x[k].(force := y[k].force, energy := y[k].energy);
      assert z[k] == y[k].(energy := z[k].energy);
    }
  }

  /** Readings are not part of the arena invariant, nor of the active set. */
  lemma ReadingsKeepValid(a: Arena, ms: seq<Member>)
    requires Valid(a) && SameExceptReadings(a.members, ms)
    ensures Valid(Arena(ms, a.stiffness))
    ensures ActiveSet(ms) == ActiveSet(a.members)
  {
    assert forall k :: 0 <= k < |ms| ==>
      ms[k].id == a.members[k].id && ms[k].length == a.members[k].length &&
      ms[k].active == a.members[k].active && ms[k].mirror == a.members[k].mirror;
  }

  /** `active_list` after step D's sort. */
  function Ranking(ms: seq<Member>): (order: seq<nat>)
    ensures Ranked(ms, order) && Distinct(order)
    ensures forall k: nat :: k in order <==> k in ActiveSet(ms)
    ensures |order| == |ActiveSet(ms)|
  {
    var act := ActiveIndices(ms);
    var order := SortByEnergy(ms, act);
    assert forall k :: k in order <==> k in multiset(act);
    assert |order| == |act| by {
      assert |order| == |multiset(order)| == |multiset(act)| == |act|;
    }
    DistinctCard(act);
    assert Elems(act) == ActiveSet(ms);
    RankedDistinct(ms, order);
    order
  }

  lemma RankedDistinct(ms: seq<Member>, s: seq<nat>)
    requires Ranked(ms, s)
    ensures Distinct(s)
  {
    forall i, j | 0 <= i < j < |s| ensures s[i] != s[j] {
      assert KeyLess(ms, s[i], s[j]);
    }
  }

  function Elems(s: seq<nat>): (e: set<nat>)
    ensures forall x :: x in e <==> x in s
  {
    set x | x in s
  }

  /** A sequence without repeats has as many elements as its set. */
  lemma {:induction false} DistinctCard(s: seq<nat>)
    requires Distinct(s)
    ensures |Elems(s)| == |s|
  {
    if s != [] {
      var t := s[1..];
      assert Distinct(t) by {
        forall i, j | 0 <= i < j < |t| ensures t[i] != t[j] {
          assert t[i] == s[i + 1] && t[j] == s[j + 1];
        }
      }
      DistinctCard(t);
      assert s[0] !in t by {
        forall i | 0 <= i < |t| ensures t[i] != s[0] {
          assert t[i] == s[i + 1];
        }
      }
      assert Elems(s) == Elems(t) + {s[0]} by {
        assert s == [s[0]] + t;
      }
    }
  }

  /** The number of active members before pruning, `len(active_list)`. */
  function ActiveCount(a: Arena): nat
  {
    |ActiveSet(a.members)|
  }

  /** `count_to_remove` for this arena. */
  function Count(a: Arena, ratio: real): nat
  {
    RemovalCount(ActiveCount(a), ratio)
  }

  /** The kill targets: the first c members of the ranking. */
  function Selected(a: Arena, results: map<nat, ElementResult>, c: nat): (s: seq<nat>)
    requires Valid(a) && c <= ActiveCount(a)
    ensures |s| == c
  {
    Ranking(Averaged(a, results))[..c]
  }

  /** Step E: soft-kill the first c ranked members in ranking order. */
  function Pruned(a: Arena, results: map<nat, ElementResult>, c: nat): (r: Arena)
    requires Valid(a) && c <= ActiveCount(a)
    ensures Valid(r)
    ensures SameExceptActive(Averaged(a, results), r.members)
  {
    var ms := Averaged(a, results);
    KillFirst(Arena(ms, a.stiffness), Ranking(ms), c)
  }

  /** One BESO iteration given the solver's results: measure, average, rank, prune and report.
      A removal count beyond the active list is the source's IndexError. */
  function RunIteration(a: Arena, results: map<nat, ElementResult>, ratio: real): (r: Result<Outcome, IterationError>)
    requires Valid(a)
    ensures r.Failure? <==> Count(a, ratio) > ActiveCount(a)
    ensures r.Failure? ==> r.error == RemovalExceedsActive(Count(a, ratio), ActiveCount(a))
    ensures r.Success? ==> Valid(r.value.arena) && |r.value.arena.members| == |a.members|
    ensures r.Success? ==> r.value.remaining == ActiveCount(a) - Count(a, ratio)
    ensures r.Success? ==> r.value.totalEnergy >= 0.0
    ensures r.Success? ==> |r.value.bars| == |a.members|
  {
    var c := Count(a, ratio);
    if c > ActiveCount(a) then
      Failure(RemovalExceedsActive(c, ActiveCount(a)))
    else
      var pruned := Pruned(a, results, c);
      Success(Outcome(pruned, Bars(pruned.members), ActiveCount(a) - c, TotalEnergy(a, results)))
  }

  /** A successful iteration prunes the first `Count` ranked members. */
  lemma RunIterationPrunes(a: Arena, results: map<nat, ElementResult>, ratio: real)
    requires Valid(a) && RunIteration(a, results, ratio).Success?
    ensures Count(a, ratio) <= ActiveCount(a)
    ensures RunIteration(a, results, ratio).value.arena == Pruned(a, results, Count(a, ratio))
  {
  }

  // ---------------------------------------------------------------- properties

  /** The targets are the c weakest active members: every other active member has a larger
      averaged energy, or the same energy and a later position. */
  lemma SelectedAreWeakest(a: Arena, results: map<nat, ElementResult>, c: nat, k: nat, j: nat)
    requires Valid(a) && c <= ActiveCount(a)
    requires k in Selected(a, results, c)
    requires j in ActiveSet(a.members) && j !in Selected(a, results, c)
    ensures var ms := Averaged(a, results);
      k < |ms| && j < |ms| && KeyLess(ms, k, j)
  {
    var ms := Averaged(a, results);
    var order := Ranking(ms);
    assert j in order;
    PrefixBeforeRest(ms, order, c, k, j);
  }

  /** In a ranking, whatever lies in the first c places is below whatever lies after them. */
  lemma PrefixBeforeRest(ms: seq<Member>, order: seq<nat>, c: nat, k: nat, j: nat)
    requires Ranked(ms, order) && c <= |order|
    requires k in order[..c] && j in order && j !in order[..c]
    ensures k < |ms| && j < |ms| && KeyLess(ms, k, j)
  {
    var sel := order[..c];
    assert forall i :: 0 <= i < c ==> order[i] in sel;
    var i :| 0 <= i < c && sel[i] == k;
    var m :| 0 <= m < |order| && order[m] == j;
    assert order[i] == k;
  }

  /** The targets are distinct active members. */
  lemma SelectedAreActive(a: Arena, results: map<nat, ElementResult>, c: nat)
    requires Valid(a) && c <= ActiveCount(a)
    ensures var s := Selected(a, results, c);
      Distinct(s) && forall i :: 0 <= i < |s| ==> s[i] in ActiveSet(a.members)
  {
    var ms := Averaged(a, results);
    PrefixDistinct(Ranking(ms), c);
  }

  lemma PrefixDistinct(s: seq<nat>, c: nat)
    requires Distinct(s) && c <= |s|
    ensures Distinct(s[..c])
    ensures forall i :: 0 <= i < c ==> s[..c][i] in s
  {
    assert forall i :: 0 <= i < c ==> s[..c][i] == s[i];
  }

  /** After pruning, member k is active exactly when it was active, is not a target, and is not
      the twin of a target; so nobody is reactivated and all other fields are untouched. */
  lemma PrunedActiveFlags(a: Arena, results: map<nat, ElementResult>, c: nat, k: nat)
    requires Valid(a) && c <= ActiveCount(a) && k < |a.members|
    ensures var ms := Averaged(a, results);
      var after := Pruned(a, results, c).members;
      var sel := Selected(a, results, c);
      && after[k] == ms[k].(active := after[k].active)
      && (after[k].active <==> a.members[k].active && k !in sel && !TwinOfSome(ms, sel, k))
  {
    var ms := Averaged(a, results);
    KillFirstActive(Arena(ms, a.stiffness), Ranking(ms), c, k);
    assert ms[k].active == a.members[k].active;
  }

  /** Pruning c members leaves at most `active - c` active: every target dies, and twins may
      die on top. */
  lemma SurvivorsBound(a: Arena, results: map<nat, ElementResult>, c: nat)
    requires Valid(a) && c <= ActiveCount(a)
    ensures |ActiveSet(Pruned(a, results, c).members)| <= ActiveCount(a) - c
  {
    var after := Pruned(a, results, c).members;
    var sel := Selected(a, results, c);
    var before := ActiveSet(a.members);
    SelectedAreActive(a, results, c);
    DistinctCard(sel);
    forall k | k in ActiveSet(after) ensures k in before - Elems(sel) {
      PrunedActiveFlags(a, results, c, k);
    }
    assert Elems(sel) <= before;
    SurvivorsCard(ActiveSet(after), before, Elems(sel));
  }

  /** The returned count `len(active_list) - count_to_remove` never undercounts the members
      left active. */
  lemma RemainingBoundsActive(a: Arena, results: map<nat, ElementResult>, ratio: real)
    requires Valid(a)
    requires RunIteration(a, results, ratio).Success?
    ensures var o := RunIteration(a, results, ratio).value;
      |ActiveSet(o.arena.members)| <= o.remaining
  {
    RunIterationPrunes(a, results, ratio);
    SurvivorsBound(a, results, Count(a, ratio));
  }

  /** Survivors of a removal are at most what was there minus what was removed. */
  lemma SurvivorsCard(after: set<nat>, before: set<nat>, gone: set<nat>)
    requires gone <= before && after <= before - gone
    ensures |after| <= |before| - |gone|
  {
    SubsetCard(after, before - gone);
    assert before == (before - gone) + gone;
  }

  lemma {:induction false} SubsetCard(x: set<nat>, y: set<nat>)
    requires x <= y
    ensures |x| <= |y|
  {
    if x != {} {
      var e :| e in x;
      SubsetCard(x - {e}, y - {e});
    }
  }

  /** Pruning nothing keeps every flag and every stiffness. */
  lemma PruneNothing(a: Arena, results: map<nat, ElementResult>)
    requires Valid(a)
    ensures Pruned(a, results, 0).stiffness == a.stiffness
    ensures forall k :: 0 <= k < |a.members| ==> Pruned(a, results, 0).members[k].active == a.members[k].active
  {
    var ms := Averaged(a, results);
    assert Pruned(a, results, 0) == Arena(ms, a.stiffness);
    assert forall k :: 0 <= k < |a.members| ==> ms[k].active == a.members[k].active;
  }

  /** Below the safety floor nothing is removed: every flag and every stiffness stays, and
      the returned count is the active count. */
  lemma SmallStructureUnchanged(a: Arena, results: map<nat, ElementResult>, ratio: real)
    requires Valid(a) && ActiveCount(a) < SafetyFloor
    ensures RunIteration(a, results, ratio).Success?
    ensures var o := RunIteration(a, results, ratio).value;
      && o.remaining == ActiveCount(a)
      && o.arena.stiffness == a.stiffness
      && forall k :: 0 <= k < |a.members| ==> o.arena.members[k].active == a.members[k].active
  {
    assert Count(a, ratio) == 0;
    RunIterationPrunes(a, results, ratio);
    PruneNothing(a, results);
  }

  /** The reported total energy is the active sum before averaging, which averaging keeps. */
  lemma TotalEnergyIsAveragedTotal(a: Arena, results: map<nat, ElementResult>)
    requires Valid(a)
    ensures TotalEnergy(a, results) == ActiveEnergy(Averaged(a, results))
  {
    SymmetrizeKeepsTotal(Measured(a, results), 0);
  }

  /** With a ratio in [0, 1] the iteration never fails. */
  lemma RatioInRangeSucceeds(a: Arena, results: map<nat, ElementResult>, ratio: real)
    requires Valid(a) && 0.0 <= ratio <= 1.0
    ensures RunIteration(a, results, ratio).Success?
  {
  }
}
