/**
 * `PlasticAnalyzer.run_simulation`: a fixed-fixed beam of span L with a central point load
 * is loaded in equal steps from zero to the maximum load. Each step is classified from the
 * closed-form elastic moment P L / 8 against the plastic moment Mp; plastic hinges are
 * reported at both supports and at mid-span once the moment reaches Mp. The structural
 * solve that the source performs at each step does not feed any reported value.
 */
module PlasticHinge {
  import opened Base

  datatype Status = Elastic | Yielding | Collapse

  /** The status text the source stores. */
  function StatusText(s: Status): string
  {
    match s
    case Elastic => "Elastic"
    case Yielding => "Yielding"
    case Collapse => "COLLAPSE (Mechanism Formed)"
  }

  /** Severity order of the statuses. */
  function Rank(s: Status): nat
  {
    match s
    case Elastic => 0
    case Yielding => 1
    case Collapse => 2
  }

  datatype Hinge = Hinge(x: real, y: real)

  /** One stored record: load, theoretical moment, deflection, hinges and status. */
  datatype Record = Record(load: real, maxMoment: real, deflection: real, hinges: seq<Hinge>, status: Status)

  datatype SimulationError = ZeroSteps   // max_load / steps with steps == 0

  /** Mid-span and support moment of a fixed-fixed beam under a central load. */
  function Moment(load: real, span: real): (m: real)
    ensures load >= 0.0 && span >= 0.0 ==> m >= 0.0
    ensures load == 0.0 || span == 0.0 ==> m == 0.0
  {
    ProductNonNeg(load, span);
    load * span / 8.0
  }

  /** Mid-span deflection P L^3 / (192 EI) with the fixed EI = 5000. */
  function Deflection(load: real, span: real): (w: real)
    ensures load >= 0.0 && span >= 0.0 ==> w >= 0.0
    ensures load == 0.0 || span == 0.0 ==> w == 0.0
  {
    ProductNonNeg(span, span);
    ProductNonNeg(span * span, span);
    ProductNonNeg(load, span * span * span);
    load * (span * span * span) / 960000.0
  }

  /** The three-way classification: collapse at Mp, yielding from 0.6 Mp. */
  function Classify(moment: real, mp: real): (s: Status)
    ensures s == Collapse <==> moment >= mp
    ensures s == Yielding <==> (moment < mp && moment >= mp * 0.6)
    ensures s == Elastic <==> (moment < mp && moment < mp * 0.6)
  {
    if moment >= mp then Collapse
    else if moment >= mp * 0.6 then Yielding
    else Elastic
  }

  /** The hinge list: left support, right support, centre. */
  function CollapseHinges(span: real): seq<Hinge>
  {
    [Hinge(0.0, 0.0), Hinge(span, 0.0), Hinge(span / 2.0, 0.0)]
  }

  /** One load step. A zero load is recorded as an unloaded elastic beam without asking the
      classification, so it is "Elastic" even when Mp <= 0. */
  function Step(span: real, mp: real, load: real): (r: Record)
    ensures r.load == load
    ensures load == 0.0 ==> r == Record(0.0, 0.0, 0.0, [], Elastic)
    ensures load != 0.0 ==>
      && r.maxMoment == Moment(load, span)
      && r.deflection == Deflection(load, span)
      && (r.status == Collapse <==> r.maxMoment >= mp)
      && (r.status == Yielding <==> mp * 0.6 <= r.maxMoment < mp)
    ensures r.hinges != [] <==> r.status == Collapse
    ensures r.status == Collapse ==> r.hinges == CollapseHinges(span)
  {
    if load == 0.0 then Record(0.0, 0.0, 0.0, [], Elastic)
    else
      var m := Moment(load, span);
      var hinges := if m >= mp then CollapseHinges(span) else [];
      Record(load, m, Deflection(load, span), hinges, Classify(m, mp))
  }

  /** The load of record k: k times the increment max_load / steps. */
  function LoadAt(maxLoad: real, steps: nat, k: nat): real
    requires steps > 0
  {
    k as real * (maxLoad / steps as real)
  }

  /** `run_simulation`: steps + 1 records for loads 0, P/n, ..., P. A zero step count
      divides by zero; a negative one gives an empty range. */
  function RunSimulation(span: real, mp: real, maxLoad: real, steps: int): (r: Result<seq<Record>, SimulationError>)
    ensures r.Failure? <==> steps == 0
    ensures steps < 0 ==> r == Success([])
    ensures steps > 0 ==> r.Success? && |r.value| == steps + 1
    ensures steps > 0 ==> forall k :: 0 <= k < |r.value| ==>
      r.value[k] == Step(span, mp, LoadAt(maxLoad, steps, k))
  {
    if steps == 0 then Failure(ZeroSteps)
    else if steps < 0 then Success([])
    else Success(seq(steps + 1, k requires 0 <= k <= steps => Step(span, mp, LoadAt(maxLoad, steps, k))))
  }

  // ---------------------------------------------------------------- properties

  /** The load steps start at zero and end at the maximum load. */
  lemma LoadEndpoints(span: real, mp: real, maxLoad: real, steps: int)
    requires steps > 0
    ensures var rs := RunSimulation(span, mp, maxLoad, steps).value;
      rs[0].load == 0.0 && rs[steps].load == maxLoad
  {
    var n := steps as real;
    assert n * (maxLoad / n) == maxLoad;
  }

  lemma ScaleLe(a: real, b: real, c: real)
    requires a <= b && c >= 0.0
    ensures a * c <= b * c
  {
    ProductNonNeg(b - a, c);
    assert (b - a) * c == b * c - a * c;
  }

  /** With a non-negative maximum load the step loads never decrease. */
  lemma LoadAtMonotone(maxLoad: real, steps: nat, i: nat, j: nat)
    requires maxLoad >= 0.0 && steps > 0 && i <= j
    ensures 0.0 <= LoadAt(maxLoad, steps, i) <= LoadAt(maxLoad, steps, j)
  {
    var inc := maxLoad / steps as real;
    ScaleLe(0.0, i as real, inc);
    ScaleLe(i as real, j as real, inc);
  }

  /** With a non-negative maximum load the loads never decrease from record to record. */
  lemma LoadsNondecreasing(span: real, mp: real, maxLoad: real, steps: int, i: nat, j: nat)
    requires maxLoad >= 0.0 && steps > 0
    requires i <= j <= steps
    ensures var rs := RunSimulation(span, mp, maxLoad, steps).value;
      0.0 <= rs[i].load <= rs[j].load
  {
    LoadAtMonotone(maxLoad, steps, i, j);
  }

  /** On a beam of non-negative span the moment grows with the load. */
  lemma MomentMonotone(l1: real, l2: real, span: real)
    requires l1 <= l2 && span >= 0.0
    ensures Moment(l1, span) <= Moment(l2, span)
  {
    ScaleLe(l1, l2, span);
  }

  /** On a beam of positive span the moment reaches Mp exactly when the load reaches the
      collapse load 8 Mp / L. */
  lemma CollapseLoad(load: real, span: real, mp: real)
    requires span > 0.0
    ensures Moment(load, span) >= mp <==> load >= 8.0 * mp / span
  {

  }

  /** The recorded deflection is M L^2 / (24 EI) with EI = 5000: it follows from the moment
      alone. */
  lemma DeflectionFromMoment(load: real, span: real)
    ensures 120000.0 * Deflection(load, span) == Moment(load, span) * (span * span)
  {

  }

  /** The status never recedes as the load grows: Elastic, then Yielding, then Collapse. */
  lemma StatusNeverRecedes(span: real, mp: real, l1: real, l2: real)
    requires 0.0 <= l1 <= l2 && span >= 0.0
    ensures Rank(Step(span, mp, l1).status) <= Rank(Step(span, mp, l2).status)
  {
    if l1 != 0.0 {
      MomentMonotone(l1, l2, span);
    }
  }

  /** Once a record shows a collapse mechanism, every later record does too. */
  lemma CollapsePersists(span: real, mp: real, maxLoad: real, steps: int, i: nat, j: nat)
    requires maxLoad >= 0.0 && span >= 0.0 && steps > 0
    requires i <= j <= steps
    requires RunSimulation(span, mp, maxLoad, steps).value[i].status == Collapse
    ensures RunSimulation(span, mp, maxLoad, steps).value[j].status == Collapse
    ensures RunSimulation(span, mp, maxLoad, steps).value[j].hinges == CollapseHinges(span)
  {
    var rs := RunSimulation(span, mp, maxLoad, steps).value;
    LoadsNondecreasing(span, mp, maxLoad, steps, i, j);
    StatusNeverRecedes(span, mp, rs[i].load, rs[j].load);
  }

  /** The module's own run: a 10 m beam with Mp = 150 kNm loaded to 200 kN in 20 steps gives
      21 records, the last of which has collapsed. */
  lemma DefaultRun()
    ensures var rs := RunSimulation(10.0, 150.0, 200.0, 20).value;
      |rs| == 21 && rs[20].status == Collapse && StatusText(rs[20].status) == "COLLAPSE (Mechanism Formed)"
  {
    LoadEndpoints(10.0, 150.0, 200.0, 20);
    assert Moment(200.0, 10.0) == 250.0;
  }
}
