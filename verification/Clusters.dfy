/**
 Screen points grouped where they are close together, first by a grid and then by merging
 groups until none are close (site/src/canvas-map/event-markers.js, `clusterPoints`).
 */
module Clusters {
  import opened Options
  import opened Stacks

  type Group = seq<Point>

  /** Points drawn as one, at their average place. */
  datatype Cluster = Cluster(x: real, y: real, plane: int, members: Group)

  function SumX(group: Group): real {
    if group == [] then 0.0 else SumX(group[..|group| - 1]) + group[|group| - 1].x
  }

  function SumY(group: Group): real {
    if group == [] then 0.0 else SumY(group[..|group| - 1]) + group[|group| - 1].y
  }

  function CenterX(group: Group): real
    requires group != []
  {
    SumX(group) / (|group| as real)
  }

  function CenterY(group: Group): real
    requires group != []
  {
    SumY(group) / (|group| as real)
  }

  predicate Close(a: Group, b: Group, px: real)
    requires a != [] && b != []
  {
    a[0].plane == b[0].plane && Within(CenterX(a), CenterX(b), px) && Within(CenterY(a), CenterY(b), px)
  }

  ghost predicate Proper(groups: seq<Group>) {
    forall g | 0 <= g < |groups| :: groups[g] != []
  }

  // ----- By cell -----

  function CellOfPoint(point: Point, px: real): Cell
    requires px > 0.0
  {
    CellOf(point.x, point.y, point.plane, px)
  }

  /** The first group of a cell from `from` on. */
  function GroupOfCell(groups: seq<Group>, cell: Cell, px: real, from: nat): (r: Option<nat>)
    requires px > 0.0 && from <= |groups| && Proper(groups)
    ensures r.Some? ==> from <= r.value < |groups| && CellOfPoint(groups[r.value][0], px) == cell
    ensures r.None? ==> forall g | from <= g < |groups| :: CellOfPoint(groups[g][0], px) != cell
    decreases |groups| - from
  {
    if from == |groups| then None
    else if CellOfPoint(groups[from][0], px) == cell then Some(from)
    else GroupOfCell(groups, cell, px, from + 1)
  }

  function WithPoint(groups: seq<Group>, point: Point, px: real): (r: seq<Group>)
    requires px > 0.0 && Proper(groups)
    ensures Proper(r)
  {
    var g := GroupOfCell(groups, CellOfPoint(point, px), px, 0);
    if g.Some? then groups[g.value := groups[g.value] + [point]] else groups + [[point]]
  }

  /** The points of each cell, the cells in the order of their first point. */
  function ByCell(points: seq<Point>, px: real): (r: seq<Group>)
    requires px > 0.0
    ensures Proper(r)
  {
    if points == [] then [] else WithPoint(ByCell(points[..|points| - 1], px), points[|points| - 1], px)
  }

  /** Every cell's group is where the map of cells says. */
  ghost predicate CellsKnown(cells: map<Cell, nat>, groups: seq<Group>, px: real)
    requires px > 0.0 && Proper(groups)
  {
    && (forall cell | cell in cells :: cells[cell] < |groups| && CellOfPoint(groups[cells[cell]][0], px) == cell)
    && (forall g | 0 <= g < |groups| :: CellOfPoint(groups[g][0], px) in cells && cells[CellOfPoint(groups[g][0], px)] == g)
  }

  method GroupByCell(points: seq<Point>, px: real) returns (groups: seq<Group>)
    requires px > 0.0
    ensures groups == ByCell(points, px)
  {
    groups := [];
    var cells: map<Cell, nat> := map[];
    for n := 0 to |points|
      invariant groups == ByCell(points[..n], px) && CellsKnown(cells, groups, px)
    {
      assert points[..n + 1][..n] == points[..n];
      var point := points[n];
      var cell := CellOfPoint(point, px);
      if cell !in cells {
        groups := groups + [[point]];
        cells := cells[cell := |groups| - 1];
      } else {
        groups := groups[cells[cell] := groups[cells[cell]] + [point]];
      }
    }
    assert points[..|points|] == points;
  }

  // ----- Merging -----

  /** The first group after `i`, from `j` on, that is close to it. */
  function FirstWith(groups: seq<Group>, i: nat, j: nat, px: real): (r: Option<nat>)
    requires i < j <= |groups| && Proper(groups)
    ensures r.Some? ==> j <= r.value < |groups| && Close(groups[i], groups[r.value], px)
    ensures forall k | j <= k < r.GetOr(|groups|) :: !Close(groups[i], groups[k], px)
    decreases |groups| - j
  {
    if j == |groups| then None
    else if Close(groups[i], groups[j], px) then Some(j)
    else FirstWith(groups, i, j + 1, px)
  }

  datatype Pair = Pair(i: nat, j: nat)

  /** The first two groups that are close, from `i` on. */
  function FirstPair(groups: seq<Group>, i: nat, px: real): (r: Option<Pair>)
    requires i <= |groups| && Proper(groups)
    ensures r.Some? ==> i <= r.value.i < r.value.j < |groups| && Close(groups[r.value.i], groups[r.value.j], px)
    ensures r.None? ==> forall a, b | i <= a < b < |groups| :: !Close(groups[a], groups[b], px)
    decreases |groups| - i
  {
    if i == |groups| then None
    else
      var j := FirstWith(groups, i, i + 1, px);
      if j.Some? then Some(Pair(i, j.value)) else FirstPair(groups, i + 1, px)
  }

  function MergedAt(groups: seq<Group>, pair: Pair): (r: seq<Group>)
    requires pair.i < pair.j < |groups| && Proper(groups)
    ensures |r| == |groups| - 1 && Proper(r)
  {
    var more := groups[pair.i := groups[pair.i] + groups[pair.j]];
    more[..pair.j] + more[pair.j + 1..]
  }

  /** The groups once no two are close. */
  function Merged(groups: seq<Group>, px: real): (r: seq<Group>)
    requires Proper(groups)
    ensures Proper(r)
    ensures forall a, b | 0 <= a < b < |r| :: !Close(r[a], r[b], px)
    decreases |groups|
  {
    var pair := FirstPair(groups, 0, px);
    if pair.None? then groups else Merged(MergedAt(groups, pair.value), px)
  }

  method FindPair(groups: seq<Group>, px: real) returns (pair: Option<Pair>)
    requires Proper(groups)
    ensures pair == FirstPair(groups, 0, px)
  {
    for i := 0 to |groups|
      invariant FirstPair(groups, 0, px) == FirstPair(groups, i, px)
    {
      for j := i + 1 to |groups|
        invariant FirstWith(groups, i, i + 1, px) == FirstWith(groups, i, j, px)
      {
        if Close(groups[i], groups[j], px) {
          return Some(Pair(i, j));
        }
      }
    }
    return None;
  }

  /** The clusters of some points, no two of one plane so close that they would touch. */
  method ClusterPoints(points: seq<Point>, px: real) returns (clusters: seq<Cluster>)
    requires px > 0.0
    ensures var groups := Merged(ByCell(points, px), px);
            |clusters| == |groups| && forall c | 0 <= c < |clusters| :: clusters[c] == ClusterOf(groups[c])
  {
    var groups := GroupByCell(points, px);
    var pair := FindPair(groups, px);
    while pair.Some?
      invariant Proper(groups) && pair == FirstPair(groups, 0, px)
      invariant Merged(groups, px) == Merged(ByCell(points, px), px)
      decreases |groups|
    {
      groups := MergedAt(groups, pair.value);
      pair := FindPair(groups, px);
    }
    clusters := seq(|groups|, c requires 0 <= c < |groups| && Proper(groups) => ClusterOf(groups[c]));
  }

  function ClusterOf(group: Group): Cluster
    requires group != []
  {
    Cluster(CenterX(group), CenterY(group), group[0].plane, group)
  }

  // ----- What clusters are -----

  /** How often each point is in the groups. */
  function Members(groups: seq<Group>): multiset<Point> {
    if groups == [] then multiset{} else Members(groups[..|groups| - 1]) + multiset(groups[|groups| - 1])
  }

  ghost predicate OnePlane(groups: seq<Group>) {
    forall g, p | 0 <= g < |groups| && 0 <= p < |groups[g]| :: groups[g][p].plane == groups[g][0].plane
  }

  lemma {:induction false} MembersConcat(a: seq<Group>, b: seq<Group>)
    ensures Members(a + b) == Members(a) + Members(b)
    decreases |b|
  {
    if b == [] {
      assert a + b == a;
    } else {
      assert (a + b)[..|a + b| - 1] == a + b[..|b| - 1];
      MembersConcat(a, b[..|b| - 1]);
    }
  }

  lemma {:induction false} MembersMore(groups: seq<Group>, group: Group)
    ensures Members(groups + [group]) == Members(groups) + multiset(group)
  {
    assert (groups + [group])[..|groups|] == groups;
  }

  lemma {:induction false} MembersSplit(groups: seq<Group>, g: nat)
    requires g < |groups|
    ensures Members(groups) == Members(groups[..g]) + multiset(groups[g]) + Members(groups[g + 1..])
  {
    assert groups == (groups[..g] + [groups[g]]) + groups[g + 1..];
    MembersConcat(groups[..g] + [groups[g]], groups[g + 1..]);
    MembersMore(groups[..g], groups[g]);
  }

  lemma {:induction false} MembersAdded(groups: seq<Group>, g: nat, group: Group)
    requires g < |groups|
    ensures Members(groups[g := groups[g] + group]) == Members(groups) + multiset(group)
  {
    var changed := groups[g := groups[g] + group];
    MembersSplit(groups, g);
    MembersSplit(changed, g);
    assert changed[..g] == groups[..g] && changed[g + 1..] == groups[g + 1..];
  }

  lemma {:induction false} MembersRemoved(groups: seq<Group>, g: nat)
    requires g < |groups|
    ensures Members(groups[..g] + groups[g + 1..]) + multiset(groups[g]) == Members(groups)
  {
    MembersSplit(groups, g);
    MembersConcat(groups[..g], groups[g + 1..]);
  }

  lemma {:induction false} MergeKeepsPoints(groups: seq<Group>, pair: Pair)
    requires pair.i < pair.j < |groups| && Proper(groups)
    ensures Members(MergedAt(groups, pair)) == Members(groups)
  {
    var more := groups[pair.i := groups[pair.i] + groups[pair.j]];
    MembersAdded(groups, pair.i, groups[pair.j]);
    MembersRemoved(more, pair.j);
    assert more[pair.j] == groups[pair.j];
    Cancel(Members(more[..pair.j] + more[pair.j + 1..]), Members(groups), multiset(groups[pair.j]));
  }

  lemma Cancel(a: multiset<Point>, b: multiset<Point>, c: multiset<Point>)
    requires a + c == b + c
    ensures a == b
  {
    forall point
      ensures a[point] == b[point]
    {
      assert (a + c)[point] == a[point] + c[point] && (b + c)[point] == b[point] + c[point];
    }
  }

  lemma MergeKeepsPlanes(groups: seq<Group>, pair: Pair)
    requires pair.i < pair.j < |groups| && Proper(groups) && OnePlane(groups)
    requires groups[pair.i][0].plane == groups[pair.j][0].plane
    ensures OnePlane(MergedAt(groups, pair))
  {
    var merged: seq<Group> := MergedAt(groups, pair);
    forall g | 0 <= g < |merged|
      ensures forall p | 0 <= p < |merged[g]| :: merged[g][p].plane == merged[g][0].plane
    {
      if g != pair.i {
        assert merged[g] == groups[if g < pair.j then g else g + 1];
      } else {
        assert merged[g] == groups[pair.i] + groups[pair.j];
      }
    }
  }

  lemma {:induction false} MergingKeeps(groups: seq<Group>, px: real)
    requires Proper(groups) && OnePlane(groups)
    ensures Members(Merged(groups, px)) == Members(groups)
    ensures OnePlane(Merged(groups, px))
    decreases |groups|
  {
    var pair := FirstPair(groups, 0, px);
    if pair.Some? {
      MergeKeepsPoints(groups, pair.value);
      MergeKeepsPlanes(groups, pair.value);
      MergingKeeps(MergedAt(groups, pair.value), px);
    }
  }

  /** The groups of the cells are all the points. */
  lemma {:induction false} CellsHoldAll(points: seq<Point>, px: real)
    requires px > 0.0
    ensures Members(ByCell(points, px)) == multiset(points)
    decreases |points|
  {
    if points != [] {
      var n := |points| - 1;
      CellsHoldAll(points[..n], px);
      assert points == points[..n] + [points[n]];
      PointIsAdded(ByCell(points[..n], px), points[n], px);
    }
  }

  lemma PointIsAdded(groups: seq<Group>, point: Point, px: real)
    requires px > 0.0 && Proper(groups)
    ensures Members(WithPoint(groups, point, px)) == Members(groups) + multiset{point}
  {
    var g := GroupOfCell(groups, CellOfPoint(point, px), px, 0);
    if g.Some? {
      MembersAdded(groups, g.value, [point]);
    } else {
      MembersMore(groups, [point]);
    }
  }

  /** The points of one group are those of one cell. */
  ghost predicate OneCell(groups: seq<Group>, px: real)
    requires px > 0.0
  {
    forall g, p | 0 <= g < |groups| && 0 <= p < |groups[g]| :: CellOfPoint(groups[g][p], px) == CellOfPoint(groups[g][0], px)
  }

  lemma {:induction false} CellsAreApart(points: seq<Point>, px: real)
    requires px > 0.0
    ensures OneCell(ByCell(points, px), px)
    decreases |points|
  {
    if points != [] {
      var n := |points| - 1;
      CellsAreApart(points[..n], px);
    }
  }

  /** Every point is in exactly one cluster, all of a cluster are on one plane, and no two clusters are close. */
  lemma ClustersShareThePoints(points: seq<Point>, px: real)
    requires px > 0.0
    ensures var groups := Merged(ByCell(points, px), px);
            && Members(groups) == multiset(points) && OnePlane(groups)
            && forall a, b | 0 <= a < b < |groups| :: !Close(groups[a], groups[b], px)
  {
    CellsHoldAll(points, px);
    CellsAreApart(points, px);
    MergingKeeps(ByCell(points, px), px);
  }

  ghost predicate Touch(a: Point, b: Point, px: real) {
    a.plane == b.plane && Within(a.x, b.x, px) && Within(a.y, b.y, px)
  }

  ghost predicate Apart(points: seq<Point>, px: real) {
    forall i, j | 0 <= i < j < |points| :: !Touch(points[i], points[j], px)
  }

  /** Points of one cell touch. */
  lemma SameCellTouch(a: Point, b: Point, px: real)
    requires px > 0.0 && CellOfPoint(a, px) == CellOfPoint(b, px)
    ensures Touch(a, b, px)
  {
    SameFloor(a.x, b.x, px);
    SameFloor(a.y, b.y, px);
  }

  lemma SameFloor(a: real, b: real, px: real)
    requires px > 0.0 && CellIndex(a, px) == CellIndex(b, px)
    ensures Within(a, b, px)
  {
    var q := a / px - b / px;
    assert -1.0 < q < 1.0;
    assert q == (a - b) / px && q * px == a - b;
  }

  function Alone(points: seq<Point>): seq<Group> {
    seq(|points|, i requires 0 <= i < |points| => [points[i]])
  }

  lemma {:induction false} CellsOfApart(points: seq<Point>, px: real)
    requires px > 0.0 && Apart(points, px)
    ensures ByCell(points, px) == Alone(points)
    decreases |points|
  {
    if points != [] {
      var n := |points| - 1;
      CellsOfApart(points[..n], px);
      var g := GroupOfCell(Alone(points[..n]), CellOfPoint(points[n], px), px, 0);
      if g.Some? {
        SameCellTouch(points[g.value], points[n], px);
        assert false;
      }
      assert Alone(points) == Alone(points[..n]) + [[points[n]]];
    }
  }

  lemma CenterOfOne(point: Point)
    ensures CenterX([point]) == point.x && CenterY([point]) == point.y
  {
    var one := [point];
    assert one[..|one| - 1] == [] && one[|one| - 1] == point;
    assert SumX(one) == 0.0 + point.x && SumY(one) == 0.0 + point.y;
  }

  /** Points no two of which touch all stay alone. */
  lemma ApartStayAlone(points: seq<Point>, px: real)
    requires px > 0.0 && Apart(points, px)
    ensures Merged(ByCell(points, px), px) == Alone(points)
  {
    CellsOfApart(points, px);
    var pair := FirstPair(Alone(points), 0, px);
    if pair.Some? {
      CenterOfOne(points[pair.value.i]);
      CenterOfOne(points[pair.value.j]);
      assert Touch(points[pair.value.i], points[pair.value.j], px);
      assert false;
    }
  }

  /** How far some points are from a place, all in all, to the right and upwards. */
  function OffX(group: Group, x: real): real {
    if group == [] then 0.0 else OffX(group[..|group| - 1], x) + (group[|group| - 1].x - x)
  }

  function OffY(group: Group, y: real): real {
    if group == [] then 0.0 else OffY(group[..|group| - 1], y) + (group[|group| - 1].y - y)
  }

  lemma {:induction false} OffIsSum(group: Group, x: real, y: real)
    ensures OffX(group, x) == SumX(group) - |group| as real * x
    ensures OffY(group, y) == SumY(group) - |group| as real * y
    decreases |group|
  {
    if group != [] {
      OffIsSum(group[..|group| - 1], x, y);
    }
  }

  /** A cluster is in the middle of its points: they are as far to one side of it as to the other. */
  lemma ClusterIsInTheMiddle(group: Group)
    requires group != []
    ensures var cluster := ClusterOf(group);
            cluster.members == group && OffX(group, cluster.x) == 0.0 && OffY(group, cluster.y) == 0.0
  {
    OffIsSum(group, CenterX(group), CenterY(group));
  }
}
