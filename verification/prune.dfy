/**
 * Evolutionary pruning of `run_iteration` (steps D and E): rank the active members by
 * strain-energy proxy, choose how many to remove, and soft-kill them: clear `active` and
 * scale the element's EA and EI by 1e-6, killing an active twin along with each target.
 */
module Pruner {
  import opened Base
  import opened GroundStructure
  import opened Arena

  /** Below this many active members nothing is removed. */
  const SafetyFloor: nat := 15
  /** Soft-kill scale applied to EA and EI. */
  const KillFactor: real := 0.000001

  // ---------------------------------------------------------------- ranking

  predicate Distinct(s: seq<nat>)
  {
    forall i, j :: 0 <= i < j < |s| ==> s[i] != s[j]
  }

  /** Positions below n of the active members, in list order. */
  function ActiveBelow(ms: seq<Member>, n: nat): (s: seq<nat>)
    requires n <= |ms|
    ensures forall i, j :: 0 <= i < j < |s| ==> s[i] < s[j]
    ensures forall k: nat :: k in s <==> k < n && ms[k].active
  {
    if n == 0 then []
    else
      var prev := ActiveBelow(ms, n - 1);
      var s := prev + (if ms[n - 1].active then [n - 1] else []);
      assert forall i :: 0 <= i < |prev| ==> prev[i] in prev;
      assert forall i :: 0 <= i < |prev| ==> prev[i] < n - 1;
      s
  }

  /** `active_list`: the positions of the active members, in list order. */
  function ActiveIndices(ms: seq<Member>): (s: seq<nat>)
    ensures forall i, j :: 0 <= i < j < |s| ==> s[i] < s[j]
    ensures forall k: nat :: k in s <==> k < |ms| && ms[k].active
    ensures InRange(ms, s) && Distinct(s)
  {
    var s := ActiveBelow(ms, |ms|);
    assert forall i :: 0 <= i < |s| ==> s[i] in s;
    s
  }

  /** Ranking order: lower energy first; equal energies keep list order. */
  predicate KeyLess(ms: seq<Member>, a: nat, b: nat)
    requires a < |ms| && b < |ms|
  {
    ms[a].energy < ms[b].energy || (ms[a].energy == ms[b].energy && a < b)
  }

  predicate InRange(ms: seq<Member>, s: seq<nat>)
  {
    forall i :: 0 <= i < |s| ==> s[i] < |ms|
  }

  predicate Ranked(ms: seq<Member>, s: seq<nat>)
  {
    InRange(ms, s) && forall i, j :: 0 <= i < j < |s| ==> KeyLess(ms, s[i], s[j])
  }

  function Insert(ms: seq<Member>, x: nat, s: seq<nat>): (r: seq<nat>)
    requires x < |ms| && Ranked(ms, s) && x !in s
    ensures Ranked(ms, r)
    ensures multiset(r) == multiset(s) + multiset{x}
  {
    if s == [] then [x]
    else if KeyLess(ms, x, s[0]) then
      InsertFront(ms, x, s);
      [x] + s
    else
      var rest := Insert(ms, x, s[1..]);
      InsertBehind(ms, x, s, rest);
      [s[0]] + rest
  }

  lemma InsertFront(ms: seq<Member>, x: nat, s: seq<nat>)
    requires x < |ms| && Ranked(ms, s) && s != [] && KeyLess(ms, x, s[0])
    ensures Ranked(ms, [x] + s)
  {
    var r := [x] + s;
    assert forall j :: 1 <= j < |r| ==> r[j] == s[j - 1];
    assert forall j :: 1 <= j < |r| ==> KeyLess(ms, s[0], r[j]) || r[j] == s[0];
  }

  lemma InsertBehind(ms: seq<Member>, x: nat, s: seq<nat>, rest: seq<nat>)
    requires x < |ms| && Ranked(ms, s) && s != [] && x !in s && !KeyLess(ms, x, s[0])
    requires Ranked(ms, rest) && multiset(rest) == multiset(s[1..]) + multiset{x}
    ensures Ranked(ms, [s[0]] + rest)
    ensures multiset([s[0]] + rest) == multiset(s) + multiset{x}
  {
    assert multiset(s) == multiset{s[0]} + multiset(s[1..]) by {
      assert s == [s[0]] + s[1..];
    }
    forall j | 0 <= j < |rest| ensures KeyLess(ms, s[0], rest[j]) {
      assert rest[j] in multiset(rest);
      if rest[j] != x {
        assert rest[j] in multiset(s[1..]);
        var m :| 0 <= m < |s[1..]| && s[1..][m] == rest[j];
        assert s[m + 1] == rest[j];
      }
    }
    var r := [s[0]] + rest;
    assert forall j :: 1 <= j < |r| ==> r[j] == rest[j - 1];
  }

  /** Insertion sort by `KeyLess`. */
  function SortByEnergy(ms: seq<Member>, s: seq<nat>): (r: seq<nat>)
    requires InRange(ms, s) && Distinct(s)
    ensures Ranked(ms, r)
    ensures multiset(r) == multiset(s)
  {
    if s == [] then []
    else
      assert s == [s[0]] + s[1..];
      var rest := SortByEnergy(ms, s[1..]);
      assert s[0] !in multiset(rest) by {
        assert s[0] !in s[1..];
      }
      Insert(ms, s[0], rest)
  }

  /** Two rankings of the same non-empty collection start with the same member. */
  lemma RankedSameHead(ms: seq<Member>, a: seq<nat>, b: seq<nat>)
    requires Ranked(ms, a) && Ranked(ms, b) && multiset(a) == multiset(b) && a != []
    ensures b != [] && a[0] == b[0]
  {
    assert a[0] in multiset(b);
    assert b[0] in multiset(a);
    if a[0] != b[0] {
      assert false;
    }
  }

  lemma RankedTail(ms: seq<Member>, a: seq<nat>)
    requires Ranked(ms, a) && a != []
    ensures Ranked(ms, a[1..])
    ensures multiset(a[1..]) == multiset(a) - multiset{a[0]}
  {
    assert a == [a[0]] + a[1..];
    assert forall i :: 0 <= i < |a[1..]| ==> a[1..][i] == a[i + 1];
  }

  /** Two rankings of the same members are the same sequence: `KeyLess` fixes the order. */
  lemma {:induction false} RankedUnique(ms: seq<Member>, a: seq<nat>, b: seq<nat>)
    requires Ranked(ms, a) && Ranked(ms, b) && multiset(a) == multiset(b)
    ensures a == b
  {
    if a != [] {
      RankedSameHead(ms, a, b);
      RankedTail(ms, a);
      RankedTail(ms, b);
      RankedUnique(ms, a[1..], b[1..]);
      assert a == [a[0]] + a[1..] && b == [b[0]] + b[1..];
    } else if b != [] {
      RankedSameHead(ms, b, a);
    }
  }

  /** The ranking is what Python's stable `sort(key=strain_energy)` yields on the active list:
      a permutation of the active members, energies non-decreasing, and members of equal
      energy in their original list order. */
  lemma RankingIsStableSort(ms: seq<Member>)
    ensures var order := SortByEnergy(ms, ActiveIndices(ms));
      && (forall k: nat :: k in order <==> k < |ms| && ms[k].active)
      && |order| == |ActiveIndices(ms)|
      && (forall i, j :: 0 <= i < j < |order| ==> ms[order[i]].energy <= ms[order[j]].energy)
      && (forall i, j :: 0 <= i < j < |order| && ms[order[i]].energy == ms[order[j]].energy ==> order[i] < order[j])
  {
    var act := ActiveIndices(ms);
    var order := SortByEnergy(ms, act);
    assert forall k :: k in order <==> k in multiset(act);
    assert |order| == |multiset(order)| == |multiset(act)| == |act|;
  }

  // ---------------------------------------------------------------- removal count

  /** Python's `int(x)`: truncation toward zero. */
  function Trunc(x: real): (r: int)
    ensures x >= 0.0 ==> 0 <= r && r as real <= x < r as real + 1.0
    ensures x < 0.0 ==> r <= 0 && r as real - 1.0 < x <= r as real
  {
    if x >= 0.0 then x.Floor else -((-x).Floor)
  }

  /** `count_to_remove` for n active members: int(n * ratio), raised to at least 1, and
      forced to 0 when fewer than 15 members are active. */
  function RemovalCount(n: nat, ratio: real): (c: nat)
    ensures n < SafetyFloor ==> c == 0
    ensures n >= SafetyFloor ==> c >= 1
    ensures n >= SafetyFloor && c > 1 ==> c as real <= n as real * ratio < c as real + 1.0
    ensures n >= SafetyFloor && c == 1 ==> n as real * ratio < 2.0
    ensures 0.0 <= ratio <= 1.0 ==> c <= n
  {
    var x := n as real * ratio;
    var raw := Trunc(x);
    var c := if raw < 1 then 1 else raw;
    if n < SafetyFloor then 0
    else
      assert 0.0 <= ratio <= 1.0 ==> x <= n as real by {
        if 0.0 <= ratio <= 1.0 {
          ProductNonNeg(1.0 - ratio, n as real);
          assert (1.0 - ratio) * n as real == n as real - x;
        }
      }
      c
  }

  // ---------------------------------------------------------------- soft-kill

  function Pow(b: real, n: nat): real
  {
    if n == 0 then 1.0 else b * Pow(b, n - 1)
  }

  /** EA and EI after n soft-kills. */
  function ScaledBy(s: Stiffness, n: nat): Stiffness
  {
    Stiffness(s.ea * Pow(KillFactor, n), s.ei * Pow(KillFactor, n))
  }

  lemma ScaledByZero(s: Stiffness)
    ensures ScaledBy(s, 0) == s
  {
    assert Pow(KillFactor, 0) == 1.0;
  }

  /** Scaling n times and then c more times (c at most 1) is scaling n + c times. */
  lemma ScaledByAdd(s: Stiffness, n: nat, c: nat)
    requires c <= 1
    ensures ScaledBy(ScaledBy(s, n), c) == ScaledBy(s, n + c)
  {
    var p := Pow(KillFactor, n);
    if c == 0 {
      assert Pow(KillFactor, 0) == 1.0;
    } else {
      assert Pow(KillFactor, n + 1) == KillFactor * p;
      assert Pow(KillFactor, 1) == KillFactor;
      assert s.ea * p * KillFactor == s.ea * (KillFactor * p);
      assert s.ei * p * KillFactor == s.ei * (KillFactor * p);
    }
  }

  /** All fields other than `active` agree. */
  predicate SameExceptActive(ms: seq<Member>, r: seq<Member>)
  {
    |r| == |ms| && forall k :: 0 <= k < |ms| ==> r[k] == ms[k].(active := r[k].active)
  }

  lemma SameExceptActiveValid(a: Arena, r: Arena)
    requires Valid(a) && SameExceptActive(a.members, r.members)
    requires forall k :: 0 <= k < |a.members| ==> a.members[k].id in r.stiffness
    ensures Valid(r)
  {
    assert forall k :: 0 <= k < |a.members| ==>
      r.members[k].id == a.members[k].id && r.members[k].mirror == a.members[k].mirror &&
      r.members[k].length == a.members[k].length;
  }

  /** Deactivates member i and scales its stiffness once. */
  function Deactivate(a: Arena, i: nat): (r: Arena)
    requires Valid(a) && i < |a.members|
    ensures Valid(r)
    ensures SameExceptActive(a.members, r.members)
    ensures forall k :: 0 <= k < |a.members| ==> r.members[k].active == (a.members[k].active && k != i)
    ensures forall k :: 0 <= k < |a.members| ==>
      r.stiffness[a.members[k].id] ==
        if k == i then ScaledBy(a.stiffness[a.members[k].id], 1) else a.stiffness[a.members[k].id]
  {
    var id := a.members[i].id;
    var r := Arena(a.members[i := a.members[i].(active := false)],
                   a.stiffness[id := ScaledBy(a.stiffness[id], 1)]);
    SameExceptActiveValid(a, r);
    r
  }

  /** One pass of loop E: kill the target at position i and, when its twin is still active,
      the twin too. The target is scaled even if it was already inactive. */
  function KillOne(a: Arena, i: nat): (r: Arena)
    requires Valid(a) && i < |a.members|
    ensures Valid(r)
    ensures SameExceptActive(a.members, r.members)
  {
    var a1 := Deactivate(a, i);
    // `if target_el["mirror_id"]`: ids start at 1, so this is "has a mirror"
    if a1.members[i].mirror.Some? then
      var t := TwinIndex(a1.members, i);
      if a1.members[t].active then Deactivate(a1, t) else a1
    else a1
  }

  predicate OrderOk(ms: seq<Member>, order: seq<nat>)
  {
    InRange(ms, order) && Distinct(order)
  }

  /** Loop E over the first p ranked members. */
  function KillFirst(a: Arena, order: seq<nat>, p: nat): (r: Arena)
    requires Valid(a) && OrderOk(a.members, order) && p <= |order|
    ensures Valid(r)
    ensures SameExceptActive(a.members, r.members)
  {
    if p == 0 then a
    else
      var prev := KillFirst(a, order, p - 1);
      KillOne(prev, order[p - 1])
  }

  lemma KillFirstUnfold(a: Arena, order: seq<nat>, p: nat)
    requires Valid(a) && OrderOk(a.members, order) && 0 < p <= |order|
    ensures KillFirst(a, order, p) == KillOne(KillFirst(a, order, p - 1), order[p - 1])
  {
  }

  /** Some member among xs names member k as its twin. */
  predicate TwinOfSome(ms: seq<Member>, xs: seq<nat>, k: nat)
    requires InRange(ms, xs)
  {
    exists q :: 0 <= q < |xs| && ms[xs[q]].mirror == Some(k + 1)
  }

  /** Member k is still active after the first p kills. */
  predicate ActiveAfter(ms: seq<Member>, order: seq<nat>, p: nat, k: nat)
    requires InRange(ms, order) && p <= |order| && k < |ms|
  {
    ms[k].active && k !in order[..p] && !TwinOfSome(ms, order[..p], k)
  }

  /** How many times the first p kills scale member k's stiffness. */
  function Scalings(ms: seq<Member>, order: seq<nat>, p: nat, k: nat): nat
    requires InRange(ms, order) && p <= |order| && k < |ms|
  {
    if p == 0 then 0
    else
      var i := order[p - 1];
      Scalings(ms, order, p - 1, k)
        + (if i == k then 1 else 0)
        + (if ms[i].mirror == Some(k + 1) && ActiveAfter(ms, order, p - 1, k) then 1 else 0)
  }

  lemma PrefixStep(ms: seq<Member>, order: seq<nat>, p: nat, k: nat)
    requires InRange(ms, order) && p < |order| && k < |ms|
    ensures order[..p + 1] == order[..p] + [order[p]]
    ensures k in order[..p + 1] <==> k in order[..p] || k == order[p]
    ensures TwinOfSome(ms, order[..p + 1], k) <==>
      TwinOfSome(ms, order[..p], k) || ms[order[p]].mirror == Some(k + 1)
  {
    assert order[..p + 1] == order[..p] + [order[p]];
    forall q | 0 <= q < p
      ensures order[..p + 1][q] == order[..p][q]
    {
    }
    if TwinOfSome(ms, order[..p], k) {
      var q :| 0 <= q < p && ms[order[..p][q]].mirror == Some(k + 1);
      assert order[..p + 1][q] == order[..p][q];
    }
    if ms[order[p]].mirror == Some(k + 1) {
      assert order[..p + 1][p] == order[p];
    }
  }

  /** One pass of loop E: member k ends inactive if it is the target or the target's twin,
      and its stiffness is scaled once if it is the target or the still-active twin. */
  lemma KillOneEffect(a: Arena, i: nat, k: nat)
    requires Valid(a) && i < |a.members| && k < |a.members|
    ensures var r := KillOne(a, i);
      var hit := k == i || (a.members[i].mirror == Some(k + 1) && a.members[k].active);
      && r.members[k].active == (a.members[k].active && k != i && a.members[i].mirror != Some(k + 1))
      && r.stiffness[a.members[k].id] == ScaledBy(a.stiffness[a.members[k].id], if hit then 1 else 0)
  {
    var a1 := Deactivate(a, i);
    assert Pow(KillFactor, 0) == 1.0;
    if a.members[i].mirror.Some? {
      var t := TwinIndex(a.members, i);
      assert TwinIndex(a1.members, i) == t;
      assert a.members[t].id == t + 1;
    }
  }

  /** After the first p kills, member k is active exactly when it was active before, is not
      among the first p targets, and is not the twin of any of them. */
  lemma {:induction false} KillFirstActive(a: Arena, order: seq<nat>, p: nat, k: nat)
    requires Valid(a) && OrderOk(a.members, order) && p <= |order| && k < |a.members|
    ensures KillFirst(a, order, p).members[k].active == ActiveAfter(a.members, order, p, k)
  {
    if p == 0 {
      assert order[..0] == [];
    } else {
      var q := p - 1;
      var prev := KillFirst(a, order, q);
      KillFirstActive(a, order, q, k);
      PrefixStep(a.members, order, q, k);
      KillOneEffect(prev, order[q], k);
      assert prev.members[order[q]].mirror == a.members[order[q]].mirror;
    }
  }

  /** One pass of loop E adds at most one scaling to a stiffness already scaled n times. */
  lemma KillOneScales(prev: Arena, i: nat, k: nat, st: Stiffness, n: nat)
    requires Valid(prev) && i < |prev.members| && k < |prev.members|
    requires prev.stiffness[prev.members[k].id] == ScaledBy(st, n)
    ensures var hit := k == i || (prev.members[i].mirror == Some(k + 1) && prev.members[k].active);
      KillOne(prev, i).stiffness[prev.members[k].id] == ScaledBy(st, n + if hit then 1 else 0)
  {
    KillOneEffect(prev, i, k);
    var hit := k == i || (prev.members[i].mirror == Some(k + 1) && prev.members[k].active);
    ScaledByAdd(st, n, if hit then 1 else 0);
  }

  /** KillOneScales with the count written the way `Scalings` adds it up. */
  lemma KillOneStep(prev: Arena, i: nat, k: nat, st: Stiffness, n: nat, total: nat)
    requires Valid(prev) && i < |prev.members| && k < |prev.members|
    requires prev.stiffness[prev.members[k].id] == ScaledBy(st, n)
    requires total == n + (if i == k then 1 else 0)
      + (if prev.members[i].mirror == Some(k + 1) && prev.members[k].active then 1 else 0)
    ensures KillOne(prev, i).stiffness[prev.members[k].id] == ScaledBy(st, total)
  {
    KillOneScales(prev, i, k, st, n);
    assert k == i ==> prev.members[i].mirror != Some(k + 1);
  }

  lemma ScalingsUnfold(ms: seq<Member>, order: seq<nat>, p: nat, k: nat)
    requires InRange(ms, order) && 0 < p <= |order| && k < |ms|
    ensures Scalings(ms, order, p, k) == Scalings(ms, order, p - 1, k)
      + (if order[p - 1] == k then 1 else 0)
      + (if ms[order[p - 1]].mirror == Some(k + 1) && ActiveAfter(ms, order, p - 1, k) then 1 else 0)
  {
  }

  /** After the first p kills, member k's EA and EI have been scaled `Scalings` times. */
  lemma {:induction false} KillFirstStiffness(a: Arena, order: seq<nat>, p: nat, k: nat)
    requires Valid(a) && OrderOk(a.members, order) && p <= |order| && k < |a.members|
    ensures KillFirst(a, order, p).stiffness[a.members[k].id] ==
      ScaledBy(a.stiffness[a.members[k].id], Scalings(a.members, order, p, k))
  {
    var ms := a.members;
    var st := a.stiffness[ms[k].id];
    if p == 0 {
      ScaledByZero(st);
    } else {
      var q := p - 1;
      var i := order[q];
      var prev := KillFirst(a, order, q);
      KillFirstStiffness(a, order, q, k);
      KillFirstActive(a, order, q, k);
      assert prev.members[i].mirror == ms[i].mirror && prev.members[k].id == ms[k].id;
      var n := Scalings(ms, order, q, k);
      ScalingsUnfold(ms, order, p, k);
      KillOneStep(prev, i, k, st, n, Scalings(ms, order, p, k));
      KillFirstUnfold(a, order, p);
    }
  }

  /** The scaling count of member k: once if it is a target, at most once more if it was
      killed as a twin, and exactly once if it was only killed as a twin. */
  lemma {:induction false} ScalingsBounds(ms: seq<Member>, order: seq<nat>, p: nat, k: nat)
    requires MirrorsWellFormed(ms) && OrderOk(ms, order) && p <= |order| && k < |ms|
    ensures var sel := if k in order[..p] then 1 else 0;
      var twin := if ms[k].active && TwinOfSome(ms, order[..p], k) then 1 else 0;
      && sel <= Scalings(ms, order, p, k) <= sel + twin
      && (ms[k].active && k !in order[..p] && TwinOfSome(ms, order[..p], k) ==> Scalings(ms, order, p, k) == 1)
  {
    if p == 0 {
      assert order[..0] == [];
    } else {
      var q := p - 1;
      var i := order[q];
      ScalingsBounds(ms, order, q, k);
      PrefixStep(ms, order, q, k);
      if k == i {
        assert ms[i].mirror != Some(k + 1);
      }
    }
  }

  /** After the first p kills, member k's stiffness is scaled once or twice if it is a target
      (twice only if it was also an active twin), once if it died only as a twin, and is
      unchanged otherwise. */
  lemma KillFirstScaling(a: Arena, order: seq<nat>, p: nat, k: nat)
    requires Valid(a) && OrderOk(a.members, order) && p <= |order| && k < |a.members|
    ensures var after := KillFirst(a, order, p).stiffness[a.members[k].id];
      var st := a.stiffness[a.members[k].id];
      var twin := a.members[k].active && TwinOfSome(a.members, order[..p], k);
      && (k in order[..p] ==> after == ScaledBy(st, 1) || (twin && after == ScaledBy(st, 2)))
      && (k !in order[..p] && twin ==> after == ScaledBy(st, 1))
      && (k !in order[..p] && !twin ==> after == st)
  {
    KillFirstStiffness(a, order, p, k);
    ScalingsBounds(a.members, order, p, k);
    StiffnessCases(a.stiffness[a.members[k].id], Scalings(a.members, order, p, k), k in order[..p],
                   a.members[k].active && TwinOfSome(a.members, order[..p], k));
  }

  lemma StiffnessCases(st: Stiffness, n: nat, sel: bool, twin: bool)
    requires (if sel then 1 else 0) <= n <= (if sel then 1 else 0) + (if twin then 1 else 0)
    requires !sel && twin ==> n == 1
    ensures sel ==> ScaledBy(st, n) == ScaledBy(st, 1) || (twin && ScaledBy(st, n) == ScaledBy(st, 2))
    ensures !sel && twin ==> ScaledBy(st, n) == ScaledBy(st, 1)
    ensures !sel && !twin ==> ScaledBy(st, n) == st
  {
    ScaledByZero(st);
  }
}
