/**
 Where a player was when, and when something next happens on their trail
 (site/src/canvas-map/trail-model.js, `indexAt`, `positionAt`, `nextChangeAfter`).
 */
module Replay {
  import opened Options
  import opened TrailPoints
  import opened Cutting
  import opened TrailWire
  import opened SiteTrail

  const SHORTEST_STEP: real := 0.000000001

  /** Whether a trail's stays follow one another. */
  ghost predicate Ordered(points: seq<SitePoint>) {
    && (forall i | 0 <= i < |points| :: points[i].t0 <= points[i].t1)
    && (forall i, j | 0 <= i < j < |points| :: points[i].t1 <= points[j].t0)
  }

  /** The last point reached by a time, -1 when none is. */
  function LastReached(points: seq<SitePoint>, t: real): (r: int)
    ensures -1 <= r < |points|
  {
    if points == [] then -1
    else
      var n := |points| - 1;
      if points[n].t0 <= t then n else LastReached(points[..n], t)
  }

  lemma {:induction false} LastReachedIsLast(points: seq<SitePoint>, t: real)
    ensures var r := LastReached(points, t);
            (r >= 0 ==> points[r].t0 <= t) && forall i | r < i < |points| :: t < points[i].t0
    decreases |points|
  {
    if points != [] && points[|points| - 1].t0 > t {
      LastReachedIsLast(points[..|points| - 1], t);
    }
  }

  /** A point that is reached, the next one not being, is the last one reached. */
  lemma {:induction false} LastReachedIs(points: seq<SitePoint>, t: real, i: int)
    requires Ordered(points) && -1 <= i < |points|
    requires i >= 0 ==> points[i].t0 <= t
    requires i + 1 < |points| ==> t < points[i + 1].t0
    ensures LastReached(points, t) == i
    decreases |points|
  {
    var n := |points| - 1;
    if i < n {
      assert i + 1 < n ==> points[i + 1].t0 <= points[i + 1].t1 <= points[n].t0;
      LastReachedIs(points[..n], t, i);
    }
  }

  lemma {:induction false} LaterReachesMore(points: seq<SitePoint>, t: real, u: real)
    requires t <= u
    ensures LastReached(points, t) <= LastReached(points, u)
    decreases |points|
  {
    if points != [] {
      LaterReachesMore(points[..|points| - 1], t, u);
    }
  }

  /** Halving finds the last point reached. */
  method IndexAt(points: seq<SitePoint>, t: real) returns (found: int)
    requires Ordered(points)
    ensures found == LastReached(points, t)
  {
    var low, high := 0, |points| - 1;
    found := -1;
    while low <= high
      invariant 0 <= low <= high + 1 <= |points| && found == low - 1
      invariant found >= 0 ==> points[found].t0 <= t
      invariant high + 1 < |points| ==> points[high + 1].t0 > t
    {
      var middle := (low + high) / 2;
      if points[middle].t0 <= t {
        found := middle;
        low := middle + 1;
      } else {
        high := middle - 1;
      }
    }
    LastReachedIs(points, t, found);
  }

  /** Where a player is: at a point, or a share of the step from it to the next. */
  datatype Position = Position(index: nat, frac: real, kind: Option<Kind>, x: real, y: real, plane: int, moving: bool)

  predicate Fits(model: TrailModel) {
    |model.kinds| == if model.points == [] then 0 else |model.points| - 1
  }

  function PositionAt(model: TrailModel, t: real): Option<Position>
    requires Fits(model)
  {
    var (points, kinds) := (model.points, model.kinds);
    var index := LastReached(points, t);
    if index < 0 then None
    else
      var point := points[index];
      if index + 1 == |points| || t <= point.t1 then
        Some(Position(index, 0.0, None, point.x as real, point.y as real, point.plane, false))
      else
        var next := points[index + 1];
        var frac := (t - point.t1) / MaxReal(next.t0 - point.t1, SHORTEST_STEP);
        var along := if Connected(kinds[index]) then frac else 0.0;
        Some(Position(index, frac, Some(kinds[index]),
          point.x as real + (next.x - point.x) as real * along,
          point.y as real + (next.y - point.y) as real * along,
          if along < 1.0 then point.plane else next.plane, true))
  }

  function NextChangeAfter(model: TrailModel, t: real): Option<real>
    requires Fits(model)
  {
    var (points, kinds) := (model.points, model.kinds);
    if points == [] then None
    else
      var index := LastReached(points, t);
      if index < 0 then Some(points[0].t0)
      else if index + 1 == |points| then None
      else if t <= points[index].t1 then Some(points[index].t1)
      else
        var next := points[index + 1];
        if !Connected(kinds[index]) || next.t0 - points[index].t1 > model.gapS then Some(next.t0) else Some(t)
  }

  // ----- Skipping to the next change -----

  /** The next change is not before the time it is asked for, and never earlier for a later time. */
  lemma NextChangeIsAhead(model: TrailModel, t: real, u: real)
    requires Fits(model) && Ordered(model.points) && t <= u
    ensures match NextChangeAfter(model, t)
      case None => NextChangeAfter(model, u) == None
      case Some(r) => t <= r && (NextChangeAfter(model, u) == None || r <= NextChangeAfter(model, u).value)
  {
    var points := model.points;
    LastReachedIsLast(points, t);
    LastReachedIsLast(points, u);
    var (i, j) := (LastReached(points, t), LastReached(points, u));
    LaterReachesMore(points, t, u);
    if 0 <= i < j {
      assert points[i].t1 <= points[i + 1].t0 <= points[j].t0 by {
        assert points[i + 1].t0 <= points[i + 1].t1;
      }
    } else if i < j {
      assert points[0].t0 <= points[0].t1;
    }
  }

  // ----- The next change is the first -----

  /** Whether the player leaves a point at a moment, for the next that is reached later. */
  predicate LeavesAt(points: seq<SitePoint>, i: nat, r: real) {
    i + 1 < |points| && points[i].t1 == r < points[i + 1].t0
  }

  predicate ReachedAt(points: seq<SitePoint>, i: nat, r: real) {
    i < |points| && points[i].t0 == r
  }

  /** Whether at a moment the player is on a step that is drawn and takes no longer than a gap. */
  predicate UnderWay(model: TrailModel, i: nat, t: real)
    requires Fits(model)
  {
    && i < |model.kinds| && Connected(model.kinds[i])
    && model.points[i].t1 < t < model.points[i + 1].t0 && model.points[i + 1].t0 - model.points[i].t1 <= model.gapS
  }

  /** Whether, from t on, something happens at a moment: a point is left or, later than t, reached, or the player is under way all along. */
  ghost predicate Happens(model: TrailModel, t: real, r: real)
    requires Fits(model)
  {
    || (exists i: nat :: LeavesAt(model.points, i, r))
    || (t < r && exists i: nat :: ReachedAt(model.points, i, r))
    || (t == r && exists i: nat :: UnderWay(model, i, t))
  }

  lemma NotBefore(points: seq<SitePoint>, i: nat, j: nat)
    requires Ordered(points) && i <= j < |points|
    ensures points[i].t0 <= points[j].t0 <= points[j].t1
  {
    assert points[i].t0 <= points[i].t1;
  }

  lemma NobodyLeaves(points: seq<SitePoint>, t: real, u: real, i: int, j: nat)
    requires Ordered(points) && t <= u && i == LastReached(points, t)
    requires i + 1 < |points| ==> u < points[i + 1].t0
    requires i >= 0 ==> i + 1 == |points| || u < points[i].t1 || points[i].t1 < t
    ensures !LeavesAt(points, j, u)
  {
    LastReachedIsLast(points, t);
    if j < i {
      NotBefore(points, j + 1, i);
    } else if i < j < |points| {
      NotBefore(points, i + 1, j);
    }
  }

  lemma NobodyArrives(points: seq<SitePoint>, t: real, u: real, i: int, j: nat)
    requires Ordered(points) && t < u && i == LastReached(points, t)
    requires i + 1 < |points| ==> u < points[i + 1].t0
    ensures !ReachedAt(points, j, u)
  {
    LastReachedIsLast(points, t);
    if j <= i {
      NotBefore(points, j, i);
    } else if j < |points| {
      NotBefore(points, i + 1, j);
    }
  }

  /** While the next point is not reached, nothing happens before the stay at the last one ends, nor on a step that nobody sees. */
  lemma NothingBefore(model: TrailModel, t: real, u: real, i: int)
    requires Fits(model) && Ordered(model.points) && t <= u && i == LastReached(model.points, t)
    requires i + 1 < |model.points| ==> u < model.points[i + 1].t0
    requires i >= 0 ==> i + 1 == |model.points| || u < model.points[i].t1 || (model.points[i].t1 < t && !UnderWay(model, i, t))
    ensures !Happens(model, t, u)
  {
    var points := model.points;
    forall j: nat
      ensures !LeavesAt(points, j, u)
    {
      NobodyLeaves(points, t, u, i, j);
    }
    forall j: nat
      ensures !(t < u && ReachedAt(points, j, u))
    {
      if t < u {
        NobodyArrives(points, t, u, i, j);
      }
    }
    forall j: nat
      ensures !(t == u && UnderWay(model, j, t))
    {
      if t == u && UnderWay(model, j, t) {
        ReachedBetween(points, j, t);
      }
    }
  }

  /**
   The answer is the first moment from t on at which something happens: a stay ends, a point is
   reached, or the player is under way then; there is none exactly if nothing ever happens again.
   */
  lemma NextChangeIsFirst(model: TrailModel, t: real)
    requires Fits(model) && Ordered(model.points)
    ensures match NextChangeAfter(model, t)
      case None => forall u | t <= u :: !Happens(model, t, u)
      case Some(r) => t <= r && Happens(model, t, r) && forall u | t <= u < r :: !Happens(model, t, u)
  {
    var points := model.points;
    var i := LastReached(points, t);
    LastReachedIsLast(points, t);
    var r := NextChangeAfter(model, t);
    if r.Some? {
      if i >= 0 && t <= points[i].t1 {
        assert points[i].t1 <= points[i + 1].t0;
        assert LeavesAt(points, i, r.value) || ReachedAt(points, i + 1, r.value);
      } else {
        assert ReachedAt(points, i + 1, r.value) || UnderWay(model, i, t);
      }
    }
    forall u | t <= u && (r.Some? ==> u < r.value)
      ensures !Happens(model, t, u)
    {
      if i >= 0 && i + 1 < |points| {
        assert points[i].t1 <= points[i + 1].t0;
      }
      NothingBefore(model, t, u, i);
    }
  }

  /** Where a position is. */
  function Place(position: Position): (real, real, int) {
    (position.x, position.y, position.plane)
  }

  /** Whether nothing moves while a replay skips from t to the next change. */
  ghost predicate SkipsNoMovement(model: TrailModel)
    requires Fits(model)
  {
    forall t, u {:trigger PositionAt(model, t), PositionAt(model, u)} |
      t <= u && PositionAt(model, t).Some? && NextChangeAfter(model, t).Some? && u < NextChangeAfter(model, t).value ::
      PositionAt(model, u).Some? && Place(PositionAt(model, u).value) == Place(PositionAt(model, t).value)
  }

  /** Whether a step can be skipped although it is drawn: it takes longer than a gap. */
  predicate LongWalk(model: TrailModel, i: nat)
    requires Fits(model) && i < |model.kinds|
  {
    Connected(model.kinds[i]) && model.points[i + 1].t0 - model.points[i].t1 > model.gapS
  }

  /** Whether the two ends of a step are one place on the map. */
  predicate StandsStill(model: TrailModel, i: nat)
    requires Fits(model) && i < |model.kinds|
  {
    (model.points[i].x, model.points[i].y) == (model.points[i + 1].x, model.points[i + 1].y)
  }

  ghost predicate LongWalksStandStill(model: TrailModel)
    requires Fits(model)
  {
    forall i: nat | i < |model.kinds| && LongWalk(model, i) :: StandsStill(model, i)
  }

  /** Until the next step begins, the last point reached stays the same. */
  lemma ReachedUntilNext(points: seq<SitePoint>, t: real, u: real)
    requires Ordered(points) && t <= u && LastReached(points, t) >= 0
    requires LastReached(points, t) + 1 < |points| ==> u < points[LastReached(points, t) + 1].t0
    ensures LastReached(points, u) == LastReached(points, t)
  {
    LastReachedIsLast(points, t);
    LastReachedIs(points, u, LastReached(points, t));
  }

  lemma SkippingMovesNothing(model: TrailModel, t: real, u: real)
    requires Fits(model) && Ordered(model.points) && LongWalksStandStill(model)
    requires t <= u && PositionAt(model, t).Some? && NextChangeAfter(model, t).Some? && u < NextChangeAfter(model, t).value
    ensures PositionAt(model, u).Some? && Place(PositionAt(model, u).value) == Place(PositionAt(model, t).value)
  {
    var points := model.points;
    var i := LastReached(points, t);
    assert points[i].t1 <= points[i + 1].t0;
    ReachedUntilNext(points, t, u);
    LastReachedIsLast(points, u);
    if t > points[i].t1 {
      assert !Connected(model.kinds[i]) || LongWalk(model, i);
      var span := points[i + 1].t0 - points[i].t1;
      if span >= SHORTEST_STEP {
        ShareBelowOne(t - points[i].t1, span);
        ShareBelowOne(u - points[i].t1, span);
      } else {
        ShareBelowOne(t - points[i].t1, SHORTEST_STEP);
        ShareBelowOne(u - points[i].t1, SHORTEST_STEP);
      }
    }
  }

  lemma ShareBelowOne(part: real, whole: real)
    requires 0.0 <= part < whole
    ensures part / whole < 1.0
  {
    QuotientPositive(whole - part, whole);
    assert part / whole + (whole - part) / whole == 1.0;
  }

  lemma QuotientPositive(a: real, b: real)
    requires a > 0.0 && b > 0.0
    ensures a / b > 0.0
  {
  }

  /** Before a trail begins the player is nowhere, and at a point from reaching it to leaving it, and after the last. */
  lemma PositionAtPoint(model: TrailModel, t: real, i: nat)
    requires Fits(model) && Ordered(model.points)
    ensures PositionAt(model, t) == None <==> forall j: nat | j < |model.points| :: t < model.points[j].t0
    ensures i < |model.points| && model.points[i].t0 <= t
            && (i + 1 < |model.points| ==> t <= model.points[i].t1 && t < model.points[i + 1].t0) ==>
              var p := model.points[i];
              PositionAt(model, t) == Some(Position(i, 0.0, None, p.x as real, p.y as real, p.plane, false))
  {
    LastReachedIsLast(model.points, t);
    if i < |model.points| && model.points[i].t0 <= t && (i + 1 < |model.points| ==> t < model.points[i + 1].t0) {
      LastReachedIs(model.points, t, i);
    }
  }

  /**
   Between two points the player stays at the first one while the step is not drawn, and else
   has come as much of the way, from tile to tile, as of the time.
   */
  lemma PositionOnStep(model: TrailModel, t: real, i: nat)
    requires Fits(model) && Ordered(model.points) && i < |model.kinds|
    requires model.points[i].t1 < t < model.points[i + 1].t0
    requires model.points[i + 1].t0 - model.points[i].t1 >= SHORTEST_STEP
    ensures var (p, q) := (model.points[i], model.points[i + 1]);
            var (span, gone) := (q.t0 - p.t1, t - p.t1);
            var at := PositionAt(model, t);
            && at.Some? && at.value.index == i && at.value.moving && at.value.kind == Some(model.kinds[i]) && at.value.plane == p.plane
            && at.value.frac * span == gone
            && (if Connected(model.kinds[i])
                then (at.value.x - p.x as real) * span == (q.x - p.x) as real * gone
                     && (at.value.y - p.y as real) * span == (q.y - p.y) as real * gone
                else at.value.x == p.x as real && at.value.y == p.y as real)
  {
    PartOfStep(model, t, i);
    var (p, q) := (model.points[i], model.points[i + 1]);
    var at := PositionAt(model, t).value;
    if Connected(model.kinds[i]) {
      ShareOfWay(at.frac, t - p.t1, q.t0 - p.t1, (q.x - p.x) as real, at.x - p.x as real);
      ShareOfWay(at.frac, t - p.t1, q.t0 - p.t1, (q.y - p.y) as real, at.y - p.y as real);
    }
  }

  lemma PartOfStep(model: TrailModel, t: real, i: nat)
    requires Fits(model) && Ordered(model.points) && i < |model.kinds|
    requires model.points[i].t1 < t < model.points[i + 1].t0
    requires model.points[i + 1].t0 - model.points[i].t1 >= SHORTEST_STEP
    ensures var (p, q) := (model.points[i], model.points[i + 1]);
            var at := PositionAt(model, t);
            && at.Some? && at.value.index == i && at.value.moving && at.value.kind == Some(model.kinds[i]) && at.value.plane == p.plane
            && at.value.frac * (q.t0 - p.t1) == t - p.t1
            && var along := if Connected(model.kinds[i]) then at.value.frac else 0.0;
               at.value.x == p.x as real + (q.x - p.x) as real * along && at.value.y == p.y as real + (q.y - p.y) as real * along
  {
    ReachedBetween(model.points, i, t);
    ShareBelowOne(t - model.points[i].t1, model.points[i + 1].t0 - model.points[i].t1);
  }

  lemma ShareOfWay(share: real, part: real, whole: real, way: real, gone: real)
    requires share * whole == part && gone == way * share
    ensures gone * whole == way * part
  {
    assert way * share * whole == way * (share * whole);
  }

  /** A step that takes longer than a gap and doesn't stand still is skipped although something moves. */
  lemma LongWalkIsSkipped(model: TrailModel, i: nat)
    requires Fits(model) && Ordered(model.points) && model.gapS >= GAP_S
    requires i < |model.kinds| && LongWalk(model, i) && !StandsStill(model, i)
    ensures !SkipsNoMovement(model)
  {
    var points := model.points;
    var (point, next) := (points[i], points[i + 1]);
    var span := next.t0 - point.t1;
    var t := point.t1 + span / 4.0;
    var u := point.t1 + span / 2.0;
    ReachedBetween(points, i, t);
    ReachedBetween(points, i, u);
    assert NextChangeAfter(model, t) == Some(next.t0);
    var (p, q) := (PositionAt(model, t).value, PositionAt(model, u).value);
    assert p.frac == 0.25 by { ShareOf(span / 4.0, span, 0.25); }
    assert q.frac == 0.5 by { ShareOf(span / 2.0, span, 0.5); }
    assert Place(p) != Place(q);
  }

  lemma ShareOf(part: real, whole: real, share: real)
    requires whole > 0.0 && part == share * whole
    ensures part / whole == share
  {
  }

  lemma ReachedBetween(points: seq<SitePoint>, i: nat, t: real)
    requires Ordered(points) && i + 1 < |points| && points[i].t1 <= t < points[i + 1].t0
    ensures LastReached(points, t) == i
  {
    assert points[i].t0 <= points[i].t1;
    LastReachedIs(points, t, i);
  }

  /**
   A replay that skips ahead to the next change skips no movement exactly when every drawn
   step that takes longer than a gap has both its ends on one tile.
   */
  lemma SkippingIsSafe(model: TrailModel)
    requires Fits(model) && Ordered(model.points) && model.gapS >= GAP_S
    ensures SkipsNoMovement(model) <==> LongWalksStandStill(model)
  {
    if LongWalksStandStill(model) {
      forall t, u {:trigger PositionAt(model, t), PositionAt(model, u)} |
        t <= u && PositionAt(model, t).Some? && NextChangeAfter(model, t).Some? && u < NextChangeAfter(model, t).value
        ensures PositionAt(model, u).Some? && Place(PositionAt(model, u).value) == Place(PositionAt(model, t).value)
      {
        SkippingMovesNothing(model, t, u);
      }
    } else {
      var i: nat :| i < |model.kinds| && LongWalk(model, i) && !StandsStill(model, i);
      LongWalkIsSkipped(model, i);
    }
  }

  /** Two stays a thousand seconds and ten tiles apart, between which the hub knows the player walked. */
  const LONG_WALK: seq<SitePoint> := [
    SitePoint(0, 0, 0, 0.0, 0.0, false, None, None, false),
    SitePoint(10, 0, 0, 1000.0, 1000.0, false, None, Some(Move), false)]

  /** Such a walk is skipped while the player moves. */
  lemma LabelledWalkIsSkipped(model: TrailModel)
    requires ModelOf(model, LONG_WALK, 60.0)
    ensures !SkipsNoMovement(model)
  {
    assert model.kinds[0] == ClassifyStep(LONG_WALK[0], LONG_WALK[1], model.gapS);
    assert LongWalk(model, 0) && !StandsStill(model, 0);
    LongWalkIsSkipped(model, 0);
  }

  /** A step the hub said nothing of is never a long walk: after a gap it is not drawn. */
  lemma GuessedStepsAreShort(model: TrailModel, points: seq<SitePoint>, step: real, i: nat)
    requires ModelOf(model, points, step) && i < |model.kinds| && points[i + 1].via == None
    ensures !LongWalk(model, i)
  {
    var j := i + 1;
    assert model.kinds[i] == ClassifyStep(points[i], points[j], model.gapS);
  }

  /**
   A trail the server thinned is sent with a step that no walk of it takes longer than, so
   of its steps at most those with a break on the way can be long walks.
   */
  lemma ThinnedTrailHasNoLongWalks(trail: Weighed, model: TrailModel, i: nat)
    requires trail.level.Some?
    requires var built := Built(trail);
             var read := ReadRows(RowsOf(built.points), WorldsOf(built.points)).0;
             ModelOf(model, read, built.step as real)
    ensures i < |model.kinds| && LongWalk(model, i) ==> i + 1 < |trail.points| && trail.points[i + 1].jump
  {
    var built := Built(trail);
    DecodeReadsTrailJson(built.points);
    StepIsLongest(trail.points);
    if i < |model.kinds| {
      var (p, q) := (trail.points[i], trail.points[i + 1]);
      assert model.points[i + 1].t0 - model.points[i].t1 == (q.first - p.last) as real;
      var j := i + 1;
      assert !trail.points[j].jump ==> trail.points[j].first - trail.points[i].last <= LongestStep(trail.points);
    }
  }
}
