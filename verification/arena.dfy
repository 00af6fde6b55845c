/**
 * The optimizer's member arena: the member list, indexed so that the member with id
 * k + 1 sits at position k, and the solver-side stiffness of every member.
 */
module Arena {
  import opened Base
  import opened GroundStructure

  /** Axial (EA) and bending (EI) stiffness of one element in the solver's element map. */
  datatype Stiffness = Stiffness(ea: real, ei: real)

  datatype Arena = Arena(members: seq<Member>, stiffness: map<nat, Stiffness>)

  predicate IdsConsecutive(ms: seq<Member>)
  {
    forall k :: 0 <= k < |ms| ==> ms[k].id == k + 1
  }

  /** Every mirror names another member of the arena, and that member has no mirror of its
      own (mirrors only ever point from the left half to the right half). */
  predicate MirrorsWellFormed(ms: seq<Member>)
  {
    forall k :: 0 <= k < |ms| && ms[k].mirror.Some? ==>
      && 1 <= ms[k].mirror.value <= |ms|
      && ms[k].mirror.value != k + 1
      && ms[ms[k].mirror.value - 1].mirror.None?
  }

  predicate Valid(a: Arena)
  {
    && IdsConsecutive(a.members)
    && MirrorsWellFormed(a.members)
    && (forall k :: 0 <= k < |a.members| ==> a.members[k].id in a.stiffness)
    && (forall k :: 0 <= k < |a.members| ==> a.members[k].length >= 0.0)
  }

  /** Position of member k's twin: the member whose id is k's mirror id. */
  function TwinIndex(ms: seq<Member>, k: nat): (t: nat)
    requires MirrorsWellFormed(ms)
    requires k < |ms| && ms[k].mirror.Some?
    ensures t < |ms| && t != k && ms[t].mirror.None?
    ensures IdsConsecutive(ms) ==> ms[t].id == ms[k].mirror.value
  {
    ms[k].mirror.value - 1
  }

  /** The first member in list order carrying `id` (Python's `next(x for x in ... if x["id"] == id)`). */
  function FindById(ms: seq<Member>, id: nat): (r: Option<nat>)
    ensures r.Some? ==> r.value < |ms| && ms[r.value].id == id &&
                        forall j :: 0 <= j < r.value ==> ms[j].id != id
    ensures r.None? ==> forall j :: 0 <= j < |ms| ==> ms[j].id != id
  {
    if |ms| == 0 then None
    else if ms[0].id == id then Some(0)
    else match FindById(ms[1..], id)
      case None => None
      case Some(j) => Some(j + 1)
  }

  /** With consecutive ids the lookup by id is plain indexing: id k + 1 is found at position k. */
  lemma FindByIdIsIndex(ms: seq<Member>, id: nat)
    requires IdsConsecutive(ms)
    ensures 1 <= id <= |ms| ==> FindById(ms, id) == Some(id - 1)
    ensures !(1 <= id <= |ms|) ==> FindById(ms, id) == None
  {
    var r := FindById(ms, id);
    if 1 <= id <= |ms| {
      assert ms[id - 1].id == id;
    }
    if r.Some? {
      assert ms[r.value].id == r.value + 1;
    }
  }

  /** Finding the twin by position is the source's search by id: on an arena with
      consecutive ids, the first member carrying k's mirror id is at `TwinIndex(ms, k)`. */
  lemma TwinIsLookup(ms: seq<Member>, k: nat)
    requires IdsConsecutive(ms) && MirrorsWellFormed(ms)
    requires k < |ms| && ms[k].mirror.Some?
    ensures FindById(ms, ms[k].mirror.value) == Some(TwinIndex(ms, k))
  {
    FindByIdIsIndex(ms, ms[k].mirror.value);
  }
}
