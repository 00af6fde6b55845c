/**
 * Ground structure: the 9 x 4 node grid over the design domain and one candidate
 * member per unordered node pair whose length lies in (1e-3, 1.6 dx].
 * Node pairs are visited in the order of Python's `itertools.combinations`, and
 * member ids run consecutively from 1 in creation order.
 */
module GroundStructure {
  import opened Base
  import opened Geometry

  const XDivs: nat := 8
  const YDivs: nat := 3
  /** Nodes per grid column. */
  const ColumnNodes: nat := YDivs + 1
  const NodeCount: nat := (XDivs + 1) * (YDivs + 1)
  /** Members no longer than this are degenerate and never created. */
  const MinLength: real := 0.001
  /** The connection cutoff as a multiple of the horizontal grid spacing. */
  const ReachFactor: real := 1.6

  /** One candidate bar. `mirror` is the id of its right-hand twin, `energy` the strain-energy
      proxy of the last iteration and `force` the last extracted internal force. */
  datatype Member = Member(id: nat, p1: Point, p2: Point, mid: Point, length: real,
                           active: bool, mirror: Option<nat>, energy: real, force: real)

  /** `root` returns the non-negative square root of every non-negative real (`math.hypot`). */
  ghost predicate IsSqrt(root: real -> real)
  {
    forall v: real {:trigger root(v)} :: 0.0 <= v ==> 0.0 <= root(v) && root(v) * root(v) == v
  }

  /** Node number k sits in grid column k / 4 and row k % 4 (columns are generated outermost). */
  function GridNode(k: nat, span: real, height: real): Point
  {
    Point((k / ColumnNodes) as real * (span / XDivs as real),
          (k % ColumnNodes) as real * (height / YDivs as real))
  }

  function Nodes(span: real, height: real): (ns: seq<Point>)
    ensures |ns| == NodeCount
  {
    seq(NodeCount, k requires 0 <= k => GridNode(k, span, height))
  }

  /** Node i * 4 + j is the grid point (i dx, j dy): columns are generated outermost. */
  lemma NodeAt(span: real, height: real, i: nat, j: nat)
    requires i <= XDivs && j <= YDivs
    ensures i * ColumnNodes + j < NodeCount
    ensures Nodes(span, height)[i * ColumnNodes + j] ==
      Point(i as real * (span / XDivs as real), j as real * (height / YDivs as real))
  {
    var k := i * ColumnNodes + j;
    assert k / ColumnNodes == i && k % ColumnNodes == j;
  }

  /** On a non-degenerate domain no two nodes coincide. */
  lemma NodesDistinct(span: real, height: real, a: nat, b: nat)
    requires span != 0.0 && height != 0.0
    requires a < b < NodeCount
    ensures Nodes(span, height)[a] != Nodes(span, height)[b]
  {
    assert Nodes(span, height)[a] == GridNode(a, span, height);
    assert Nodes(span, height)[b] == GridNode(b, span, height);
    if a / ColumnNodes != b / ColumnNodes {
      ScaleInjective((a / ColumnNodes) as real, (b / ColumnNodes) as real, span / XDivs as real);
    } else {
      assert a % ColumnNodes != b % ColumnNodes;
      ScaleInjective((a % ColumnNodes) as real, (b % ColumnNodes) as real, height / YDivs as real);
    }
  }

  lemma NodeIndexUnique(span: real, height: real, a: nat, b: nat)
    requires span != 0.0 && height != 0.0
    requires a < NodeCount && b < NodeCount
    ensures Nodes(span, height)[a] == Nodes(span, height)[b] ==> a == b
  {
    if a < b {
      NodesDistinct(span, height, a, b);
    } else if b < a {
      NodesDistinct(span, height, b, a);
    }
  }

  /** Strict lexicographic order on index pairs, the order `itertools.combinations` emits. */
  predicate LexLess(p: (nat, nat), q: (nat, nat))
  {
    p.0 < q.0 || (p.0 == q.0 && p.1 < q.1)
  }

  predicate LexSorted(ps: seq<(nat, nat)>)
  {
    forall i, j :: 0 <= i < j < |ps| ==> LexLess(ps[i], ps[j])
  }

  /** The pairs (a, b) for a < b < n in the order they are emitted for first index a. */
  function Row(a: nat, n: nat): (ps: seq<(nat, nat)>)
    ensures |ps| == if a < n then n - a - 1 else 0
    ensures forall k :: 0 <= k < |ps| ==> ps[k] == (a, a + 1 + k)
  {
    if a + 1 >= n then [] else seq(n - a - 1, k requires 0 <= k => (a, a + 1 + k))
  }

  /** All pairs (i, j) with a <= i < j < n in `itertools.combinations` order. */
  function PairsFrom(a: nat, n: nat): (ps: seq<(nat, nat)>)
    decreases n - a
    ensures forall k :: 0 <= k < |ps| ==> a <= ps[k].0 < ps[k].1 < n
    ensures forall i: nat, j: nat {:trigger (i, j) in ps} :: a <= i < j < n ==> (i, j) in ps
    ensures LexSorted(ps)
  {
    if a >= n then []
    else
      var row := Row(a, n);
      var rest := PairsFrom(a + 1, n);
      var ps := row + rest;
      assert forall i: nat, j: nat {:trigger (i, j) in ps} :: a <= i < j < n ==> (i, j) in ps by {
        forall i: nat, j: nat | a <= i < j < n
          ensures (i, j) in ps
        {
          if i == a {
            assert row[j - a - 1] == (i, j);
          } else {
            assert (i, j) in rest;
          }
        }
      }
      assert LexSorted(ps) by {
        forall i, j | 0 <= i < j < |ps|
          ensures LexLess(ps[i], ps[j])
        {
          if j < |row| {
          } else if i < |row| {
            assert ps[j] == rest[j - |row|];
          } else {
            assert ps[i] == rest[i - |row|] && ps[j] == rest[j - |row|];
          }
        }
      }
      ps
  }

  /** `itertools.combinations(range(n), 2)`. */
  function Combinations(n: nat): (ps: seq<(nat, nat)>)
    ensures forall k :: 0 <= k < |ps| ==> ps[k].0 < ps[k].1 < n
    ensures forall i: nat, j: nat {:trigger (i, j) in ps} :: i < j < n ==> (i, j) in ps
    ensures LexSorted(ps)
  {
    PairsFrom(0, n)
  }

  predicate PairsInRange(nodes: seq<Point>, pairs: seq<(nat, nat)>)
  {
    forall k :: 0 <= k < |pairs| ==> pairs[k].0 < |nodes| && pairs[k].1 < |nodes|
  }

  /** The source's length filter `1e-3 < dist <= max_dist`. */
  predicate Qualifies(nodes: seq<Point>, p: (nat, nat), root: real -> real, maxDist: real)
    requires p.0 < |nodes| && p.1 < |nodes|
  {
    MinLength < root(DistSq(nodes[p.0], nodes[p.1])) <= maxDist
  }

  /** The node pairs that pass the length filter, in visiting order. */
  function Kept(nodes: seq<Point>, pairs: seq<(nat, nat)>, root: real -> real, maxDist: real): (ks: seq<(nat, nat)>)
    requires PairsInRange(nodes, pairs)
    ensures forall k :: 0 <= k < |ks| ==> ks[k].0 < |nodes| && ks[k].1 < |nodes|
    ensures forall p :: p in ks <==> p in pairs && Qualifies(nodes, p, root, maxDist)
    ensures LexSorted(pairs) ==> LexSorted(ks)
  {
    if pairs == [] then []
    else
      var rest := Kept(nodes, pairs[1..], root, maxDist);
      assert forall p :: p in pairs <==> p == pairs[0] || p in pairs[1..];
      if Qualifies(nodes, pairs[0], root, maxDist) then
        var ks := [pairs[0]] + rest;
        assert LexSorted(pairs) ==> LexSorted(ks) by {
          if LexSorted(pairs) {
            forall i, j | 0 <= i < j < |ks|
              ensures LexLess(ks[i], ks[j])
            {
              if i == 0 {
                assert ks[j] in pairs[1..];
                var m :| 0 <= m < |pairs[1..]| && pairs[1..][m] == ks[j];
                assert pairs[m + 1] == ks[j];
              } else {
                assert ks[i] == rest[i - 1] && ks[j] == rest[j - 1];
              }
            }
          }
        }
        ks
      else rest
  }

  /** A freshly created member: active, no mirror yet, zero energy. */
  function NewMember(id: nat, p1: Point, p2: Point, length: real): Member
  {
    Member(id, p1, p2, Midpoint(p1, p2), length, true, None, 0.0, 0.0)
  }

  /** Creates one member per qualifying pair, numbering them from `firstId`. */
  function Connect(nodes: seq<Point>, pairs: seq<(nat, nat)>, root: real -> real, maxDist: real, firstId: nat)
    : (ms: seq<Member>)
    requires PairsInRange(nodes, pairs)
    ensures |ms| == |Kept(nodes, pairs, root, maxDist)|
    ensures forall k :: 0 <= k < |ms| ==>
      var p := Kept(nodes, pairs, root, maxDist)[k];
      ms[k] == NewMember(firstId + k, nodes[p.0], nodes[p.1], root(DistSq(nodes[p.0], nodes[p.1])))
  {
    if pairs == [] then []
    else
      var p := pairs[0];
      var dist := root(DistSq(nodes[p.0], nodes[p.1]));
      if MinLength < dist <= maxDist then
        [NewMember(firstId, nodes[p.0], nodes[p.1], dist)] + Connect(nodes, pairs[1..], root, maxDist, firstId + 1)
      else
        Connect(nodes, pairs[1..], root, maxDist, firstId)
  }

  /** `max_dist = dx * 1.6`. */
  function MaxDist(span: real): real
  {
    span / XDivs as real * ReachFactor
  }

  /** The ground structure of `initialize_structure` (before symmetry mapping). */
  function BuildGround(span: real, height: real, root: real -> real): (ms: seq<Member>)
    ensures |ms| == |GroundPairs(span, height, root)|
  {
    var nodes := Nodes(span, height);
    Connect(nodes, Combinations(NodeCount), root, MaxDist(span), 1)
  }

  /** The index pairs whose members the ground structure holds, in id order. */
  function GroundPairs(span: real, height: real, root: real -> real): (ks: seq<(nat, nat)>)
    ensures forall k :: 0 <= k < |ks| ==> ks[k].0 < ks[k].1 < NodeCount
    ensures forall p: (nat, nat) :: p in ks <==> p.0 < p.1 < NodeCount && Qualifies(Nodes(span, height), p, root, MaxDist(span))
    ensures LexSorted(ks)
  {
    var nodes := Nodes(span, height);
    var ps := Combinations(NodeCount);
    var ks := Kept(nodes, ps, root, MaxDist(span));
    assert forall k :: 0 <= k < |ks| ==> ks[k].0 < ks[k].1 < NodeCount by {
      forall k | 0 <= k < |ks| ensures ks[k].0 < ks[k].1 < NodeCount {
        assert ks[k] in ps;
      }
    }
    assert forall p: (nat, nat) :: p.0 < p.1 < NodeCount ==> p in ps by {
      forall p: (nat, nat) | p.0 < p.1 < NodeCount ensures p in ps {
        assert (p.0, p.1) in ps;
      }
    }
    ks
  }

  /** Members are numbered 1, 2, ... in creation order; each starts active with no mirror and
      zero energy, and stores its endpoints, midpoint and length. */
  lemma GroundMembers(span: real, height: real, root: real -> real)
    ensures var ms := BuildGround(span, height, root);
      var ks := GroundPairs(span, height, root);
      var nodes := Nodes(span, height);
      |ms| == |ks| &&
      forall k :: 0 <= k < |ms| ==>
        && ms[k].id == k + 1
        && ms[k].active && ms[k].mirror == None && ms[k].energy == 0.0
        && ms[k].p1 == nodes[ks[k].0] && ms[k].p2 == nodes[ks[k].1]
        && ms[k].mid == Midpoint(ms[k].p1, ms[k].p2)
        && ms[k].length == root(DistSq(ms[k].p1, ms[k].p2))
  {
  }

  lemma SquareLess(a: real, b: real)
    requires 0.0 <= a && 0.0 <= b
    ensures a < b <==> a * a < b * b
  {
    if a < b {
      SquareMono(a, b);
    } else if b < a {
      SquareMono(b, a);
    }
  }

  /** For a genuine square root the source's filter is the squared-length window
      1e-6 < |p1 p2|^2 <= max_dist^2 (with max_dist >= 0). */
  lemma FilterBySquares(root: real -> real, v: real, maxDist: real)
    requires IsSqrt(root) && 0.0 <= v
    ensures (MinLength < root(v) <= maxDist) <==>
            (MinLength * MinLength < v && 0.0 <= maxDist && v <= maxDist * maxDist)
  {
    var r := root(v);
    assert 0.0 <= r && r * r == v;
    SquareLess(MinLength, r);
    if 0.0 <= maxDist {
      SquareLess(maxDist, r);
    }
  }

  /** A member whose stored length is the square root of its squared length and lies in
      (1e-3, d] has its squared length in (1e-6, d^2]. */
  lemma LengthWindow(root: real -> real, m: Member, d: real)
    requires IsSqrt(root)
    requires m.length == root(DistSq(m.p1, m.p2))
    requires MinLength < m.length <= d
    ensures MinLength * MinLength < DistSq(m.p1, m.p2) <= d * d
  {
    FilterBySquares(root, DistSq(m.p1, m.p2), d);
  }

  /** Every member `Connect` creates has its length, and its squared length, inside the window. */
  lemma ConnectLengths(nodes: seq<Point>, pairs: seq<(nat, nat)>, root: real -> real, d: real, firstId: nat, k: nat)
    requires IsSqrt(root) && PairsInRange(nodes, pairs)
    requires k < |Connect(nodes, pairs, root, d, firstId)|
    ensures var m := Connect(nodes, pairs, root, d, firstId)[k];
      && MinLength < m.length <= d
      && MinLength * MinLength < DistSq(m.p1, m.p2) <= d * d
  {
    var ks := Kept(nodes, pairs, root, d);
    assert ks[k] in ks;
    LengthWindow(root, Connect(nodes, pairs, root, d, firstId)[k], d);
  }

  /** Every member's length lies in (1e-3, 1.6 dx], and so does the squared window. */
  lemma GroundLengths(span: real, height: real, root: real -> real, k: nat)
    requires IsSqrt(root)
    requires k < |BuildGround(span, height, root)|
    ensures var m := BuildGround(span, height, root)[k];
      && MinLength < m.length <= MaxDist(span)
      && MinLength * MinLength < DistSq(m.p1, m.p2) <= MaxDist(span) * MaxDist(span)
  {
    ConnectLengths(Nodes(span, height), Combinations(NodeCount), root, MaxDist(span), 1, k);
  }

  /** Every qualifying node pair yields a member with exactly those endpoints. */
  lemma GroundComplete(span: real, height: real, root: real -> real, a: nat, b: nat)
    requires a < b < NodeCount
    requires Qualifies(Nodes(span, height), (a, b), root, MaxDist(span))
    ensures exists k :: (0 <= k < |BuildGround(span, height, root)| &&
      BuildGround(span, height, root)[k].p1 == Nodes(span, height)[a] &&
      BuildGround(span, height, root)[k].p2 == Nodes(span, height)[b])
  {
    var ks := GroundPairs(span, height, root);
    GroundMembers(span, height, root);
    assert (a, b) in ks;
    var k :| 0 <= k < |ks| && ks[k] == (a, b);
    assert BuildGround(span, height, root)[k].p1 == Nodes(span, height)[a];
  }

  /** No two members join the same unordered pair of nodes. */
  lemma GroundNoDuplicates(span: real, height: real, root: real -> real, k: nat, l: nat)
    requires span != 0.0 && height != 0.0
    requires k < l < |BuildGround(span, height, root)|
    ensures {BuildGround(span, height, root)[k].p1, BuildGround(span, height, root)[k].p2} !=
            {BuildGround(span, height, root)[l].p1, BuildGround(span, height, root)[l].p2}
  {
    var ms := BuildGround(span, height, root);
    var ks := GroundPairs(span, height, root);
    var nodes := Nodes(span, height);
    GroundMembers(span, height, root);
    var (a, b) := ks[k];
    var (c, d) := ks[l];
    assert LexLess(ks[k], ks[l]);
    if {ms[k].p1, ms[k].p2} == {ms[l].p1, ms[l].p2} {
      assert nodes[a] in {nodes[c], nodes[d]};
      assert nodes[b] in {nodes[c], nodes[d]};
      NodeIndexUnique(span, height, a, c);
      NodeIndexUnique(span, height, a, d);
      NodeIndexUnique(span, height, b, c);
      NodeIndexUnique(span, height, b, d);
      assert false;
    }
  }
}
