/**
 Screen points stacked where they are close together, found through a grid
 (site/src/canvas-map/event-markers.js, `stackPoints`).
 */
module Stacks {
  import opened Options

  datatype Point = Point(x: real, y: real, plane: int, tag: int)

  /** Points that are drawn as one, at the place of the first of them. */
  datatype Stack = Stack(x: real, y: real, plane: int, members: seq<Point>)

  datatype Cell = Cell(plane: int, x: int, y: int)

  function CellIndex(v: real, px: real): int
    requires px > 0.0
  {
    (v / px).Floor
  }

  function CellOf(x: real, y: real, plane: int, px: real): Cell
    requires px > 0.0
  {
    Cell(plane, CellIndex(x, px), CellIndex(y, px))
  }

  predicate Within(a: real, b: real, px: real) {
    -px < a - b < px
  }

  /** Whether a point is close enough to the head of a stack. */
  predicate Near(stack: Stack, point: Point, px: real) {
    stack.plane == point.plane && Within(stack.x, point.x, px) && Within(stack.y, point.y, px)
  }

  // ----- The grid -----

  /** Values closer than a cell is wide are in the same cell or in neighbouring ones. */
  lemma CloseMeansNextCell(a: real, b: real, px: real)
    requires px > 0.0 && Within(a, b, px)
    ensures -1 <= CellIndex(a, px) - CellIndex(b, px) <= 1
  {
    QuotientGap(a, b, px);
    QuotientGap(b, a, px);
  }

  lemma QuotientGap(a: real, b: real, px: real)
    requires px > 0.0 && a - b < px
    ensures a / px - b / px < 1.0
  {
    assert a / px - b / px == (a - b) / px;
    var q := (a - b) / px;
    assert q * px == a - b;
  }

  /** The cells know where the head of every stack is, and nothing else. */
  ghost predicate GridKnows(cells: map<Cell, seq<nat>>, stacks: seq<Stack>, px: real)
    requires px > 0.0
  {
    && (forall cell, k | cell in cells && 0 <= k < |cells[cell]| ::
          cells[cell][k] < |stacks| && HeadCell(stacks[cells[cell][k]], px) == cell)
    && (forall s | 0 <= s < |stacks| :: HeadCell(stacks[s], px) in cells && s in cells[HeadCell(stacks[s], px)])
  }

  function HeadCell(stack: Stack, px: real): Cell
    requires px > 0.0
  {
    CellOf(stack.x, stack.y, stack.plane, px)
  }

  /** The first near stack of a cell. */
  method FindInCell(stacks: seq<Stack>, here: seq<nat>, point: Point, px: real) returns (found: Option<nat>)
    requires forall k | 0 <= k < |here| :: here[k] < |stacks|
    ensures found.Some? ==> found.value in here && found.value < |stacks| && Near(stacks[found.value], point, px)
    ensures found.None? ==> forall k | 0 <= k < |here| :: !Near(stacks[here[k]], point, px)
  {
    for k := 0 to |here|
      invariant forall l | 0 <= l < k :: !Near(stacks[here[l]], point, px)
    {
      if Near(stacks[here[k]], point, px) {
        return Some(here[k]);
      }
    }
    return None;
  }

  /** A stack near a point, by looking only at its cell and those next to it. */
  method FindNear(cells: map<Cell, seq<nat>>, stacks: seq<Stack>, point: Point, px: real) returns (found: Option<nat>)
    requires px > 0.0 && GridKnows(cells, stacks, px)
    ensures found.Some? ==> found.value < |stacks| && Near(stacks[found.value], point, px)
    ensures found.None? ==> forall s | 0 <= s < |stacks| :: !Near(stacks[s], point, px)
  {
    var cellX, cellY := CellIndex(point.x, px), CellIndex(point.y, px);
    found := None;
    var dx := -1;
    while dx <= 1 && found.None?
      invariant -1 <= dx <= 2
      invariant found.Some? ==> found.value < |stacks| && Near(stacks[found.value], point, px)
      invariant found.None? ==> NoneIn(stacks, point, px, cellX - 1, cellX + dx)
    {
      var dy := -1;
      while dy <= 1 && found.None?
        invariant -1 <= dy <= 2
        invariant found.Some? ==> found.value < |stacks| && Near(stacks[found.value], point, px)
        invariant found.None? ==> NoneInColumn(stacks, point, px, cellX + dx, cellY - 1, cellY + dy)
      {
        var cell := Cell(point.plane, cellX + dx, cellY + dy);
        if cell in cells {
          found := FindInCell(stacks, cells[cell], point, px);
        }
        dy := dy + 1;
      }
      dx := dx + 1;
    }
    if found.None? {
      forall s | 0 <= s < |stacks|
        ensures !Near(stacks[s], point, px)
      {
        if Near(stacks[s], point, px) {
          CloseMeansNextCell(stacks[s].x, point.x, px);
          CloseMeansNextCell(stacks[s].y, point.y, px);
        }
      }
    }
  }

  /** Whether no stack near the point has its head in the columns from `x0` up to `x1`, of the rows around it. */
  ghost predicate NoneIn(stacks: seq<Stack>, point: Point, px: real, x0: int, x1: int)
    requires px > 0.0
  {
    forall s | 0 <= s < |stacks| && Near(stacks[s], point, px) ::
      !(x0 <= CellIndex(stacks[s].x, px) < x1
        && CellIndex(point.y, px) - 1 <= CellIndex(stacks[s].y, px) <= CellIndex(point.y, px) + 1)
  }

  ghost predicate NoneInColumn(stacks: seq<Stack>, point: Point, px: real, x: int, y0: int, y1: int)
    requires px > 0.0
  {
    forall s | 0 <= s < |stacks| && Near(stacks[s], point, px) ::
      !(CellIndex(stacks[s].x, px) == x && y0 <= CellIndex(stacks[s].y, px) < y1)
  }

  // ----- Stacks -----

  /** The points that belong to a stack, in order, by which stack each belongs to. */
  ghost function MembersOf(points: seq<Point>, owner: seq<nat>, s: nat): seq<Point>
    requires |owner| == |points|
  {
    if points == [] then []
    else
      var n := |points| - 1;
      MembersOf(points[..n], owner[..n], s) + if owner[n] == s then [points[n]] else []
  }

  ghost predicate OwnersNear(points: seq<Point>, stacks: seq<Stack>, owner: seq<nat>, px: real) {
    && |owner| == |points|
    && forall i | 0 <= i < |points| :: owner[i] < |stacks| && Near(stacks[owner[i]], points[i], px)
  }

  ghost predicate MembersRight(points: seq<Point>, stacks: seq<Stack>, owner: seq<nat>)
    requires |owner| == |points|
  {
    forall s | 0 <= s < |stacks| :: stacks[s].members == MembersOf(points, owner, s)
  }

  /** The head of a stack is the first of its members. */
  ghost predicate AtFirst(stack: Stack) {
    stack.members != [] && var head := stack.members[0];
    (stack.x, stack.y, stack.plane) == (head.x, head.y, head.plane)
  }

  /** Every point belongs to one stack, that of its owner, where it is near the head, which is the first of them. */
  ghost predicate Stacked(points: seq<Point>, stacks: seq<Stack>, owner: seq<nat>, px: real) {
    && OwnersNear(points, stacks, owner, px)
    && MembersRight(points, stacks, owner)
    && forall s | 0 <= s < |stacks| :: AtFirst(stacks[s])
  }

  /** No two stacks could have been one: their heads are far enough apart. */
  ghost predicate Apart(stacks: seq<Stack>, px: real) {
    forall s, t | 0 <= s < t < |stacks| && stacks[s].plane == stacks[t].plane ::
      !(Within(stacks[s].x, stacks[t].x, px) && Within(stacks[s].y, stacks[t].y, px))
  }

  method StackPoints(points: seq<Point>, px: real) returns (stacks: seq<Stack>, ghost owner: seq<nat>)
    requires px > 0.0
    ensures Stacked(points, stacks, owner, px)
    ensures Apart(stacks, px)
  {
    var cells: map<Cell, seq<nat>> := map[];
    stacks := [];
    owner := [];
    for n := 0 to |points|
      invariant GridKnows(cells, stacks, px)
      invariant Stacked(points[..n], stacks, owner, px)
      invariant Apart(stacks, px)
    {
      var point := points[n];
      assert points[..n + 1] == points[..n] + [point];
      var found := FindNear(cells, stacks, point, px);
      if found.Some? {
        var s := found.value;
        var joined := Joined(stacks[s], point);
        JoinStack(points[..n], stacks, owner, px, point, s);
        SameHeads(cells, stacks, stacks[s := joined], px);
        stacks := stacks[s := joined];
        owner := owner + [s];
      } else {
        OwnStack(points[..n], stacks, owner, px, point);
        OwnHead(cells, stacks, px, point);
        var cell := CellOf(point.x, point.y, point.plane, px);
        cells := cells[cell := (if cell in cells then cells[cell] else []) + [|stacks|]];
        owner := owner + [|stacks|];
        stacks := stacks + [StackOf(point)];
      }
    }
    assert points[..|points|] == points;
  }

  function Joined(stack: Stack, point: Point): Stack {
    stack.(members := stack.members + [point])
  }

  function StackOf(point: Point): Stack {
    Stack(point.x, point.y, point.plane, [point])
  }

  /** Stacks with the same heads are as far apart, and the same grid knows them. */
  lemma SameHeads(cells: map<Cell, seq<nat>>, stacks: seq<Stack>, after: seq<Stack>, px: real)
    requires px > 0.0 && GridKnows(cells, stacks, px) && Apart(stacks, px) && |after| == |stacks|
    requires forall s | 0 <= s < |stacks| :: after[s].x == stacks[s].x && after[s].y == stacks[s].y && after[s].plane == stacks[s].plane
    ensures GridKnows(cells, after, px) && Apart(after, px)
  {
  }

  /** A stack of its own for a point that none is near. */
  lemma OwnHead(cells: map<Cell, seq<nat>>, stacks: seq<Stack>, px: real, point: Point)
    requires px > 0.0 && GridKnows(cells, stacks, px) && Apart(stacks, px)
    requires forall s | 0 <= s < |stacks| :: !Near(stacks[s], point, px)
    ensures var cell := CellOf(point.x, point.y, point.plane, px);
            GridKnows(cells[cell := (if cell in cells then cells[cell] else []) + [|stacks|]], stacks + [StackOf(point)], px)
    ensures Apart(stacks + [StackOf(point)], px)
  {
    var cell := CellOf(point.x, point.y, point.plane, px);
    var here := (if cell in cells then cells[cell] else []) + [|stacks|];
    var (grid, after) := (cells[cell := here], stacks + [StackOf(point)]);
    forall s | 0 <= s < |after|
      ensures HeadCell(after[s], px) in grid && s in grid[HeadCell(after[s], px)]
    {
      if s < |stacks| {
        assert s in cells[HeadCell(stacks[s], px)];
      } else {
        assert here[|here| - 1] == s;
      }
    }
  }

  lemma OneMoreMember(points: seq<Point>, owner: seq<nat>, point: Point, o: nat, s: nat)
    requires |owner| == |points|
    ensures MembersOf(points + [point], owner + [o], s) == MembersOf(points, owner, s) + if o == s then [point] else []
  {
    assert (points + [point])[..|points|] == points && (owner + [o])[..|owner|] == owner;
  }

  lemma {:induction false} OwnedByAnother(points: seq<Point>, owner: seq<nat>, s: nat)
    requires |owner| == |points| && forall i | 0 <= i < |owner| :: owner[i] < s
    ensures MembersOf(points, owner, s) == []
    decreases |points|
  {
    if points != [] {
      OwnedByAnother(points[..|points| - 1], owner[..|points| - 1], s);
    }
  }

  lemma JoinStack(points: seq<Point>, stacks: seq<Stack>, owner: seq<nat>, px: real, point: Point, s: nat)
    requires Stacked(points, stacks, owner, px) && s < |stacks| && Near(stacks[s], point, px)
    ensures Stacked(points + [point], stacks[s := Joined(stacks[s], point)], owner + [s], px)
  {
    var after := stacks[s := Joined(stacks[s], point)];
    forall t | 0 <= t < |stacks|
      ensures after[t].members == MembersOf(points + [point], owner + [s], t)
    {
      OneMoreMember(points, owner, point, s, t);
    }
  }

  lemma MembersStayRight(points: seq<Point>, stacks: seq<Stack>, owner: seq<nat>, point: Point)
    requires |owner| == |points| && MembersRight(points, stacks, owner)
    requires forall i | 0 <= i < |owner| :: owner[i] < |stacks|
    ensures MembersRight(points + [point], stacks + [StackOf(point)], owner + [|stacks|])
  {
    var after := stacks + [StackOf(point)];
    forall t | 0 <= t < |after|
      ensures after[t].members == MembersOf(points + [point], owner + [|stacks|], t)
    {
      OneMoreMember(points, owner, point, |stacks|, t);
      if t == |stacks| {
        OwnedByAnother(points, owner, t);
      }
    }
  }

  lemma OwnStack(points: seq<Point>, stacks: seq<Stack>, owner: seq<nat>, px: real, point: Point)
    requires Stacked(points, stacks, owner, px) && px > 0.0
    ensures Stacked(points + [point], stacks + [StackOf(point)], owner + [|stacks|], px)
  {
    MembersStayRight(points, stacks, owner, point);
  }

  /** No point is lost or stacked twice. */
  lemma {:induction false} EveryPointOnce(points: seq<Point>, owner: seq<nat>, i: nat, s: nat)
    requires |owner| == |points| && i < |points|
    ensures owner[i] == s ==> points[i] in MembersOf(points, owner, s)
    ensures points[i] in MembersOf(points, owner, s) ==> exists j | 0 <= j < |points| :: points[j] == points[i] && owner[j] == s
    decreases |points|
  {
    var n := |points| - 1;
    assert forall j | 0 <= j < n :: points[..n][j] == points[j] && owner[..n][j] == owner[j];
    if i < n {
      EveryPointOnce(points[..n], owner[..n], i, s);
    }
    MembersComeFromPoints(points, owner, s, points[i]);
  }

  lemma {:induction false} MembersComeFromPoints(points: seq<Point>, owner: seq<nat>, s: nat, p: Point)
    requires |owner| == |points|
    ensures p in MembersOf(points, owner, s) ==> exists j | 0 <= j < |points| :: points[j] == p && owner[j] == s
    decreases |points|
  {
    if points != [] {
      var n := |points| - 1;
      MembersComeFromPoints(points[..n], owner[..n], s, p);
      if j :| 0 <= j < n && points[..n][j] == p && owner[..n][j] == s {
        assert points[j] == p && owner[j] == s;
      }
    }
  }
}
