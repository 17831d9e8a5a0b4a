/**
 A weighed trail cut to what fits, and made ready to send
 (server/src/hub/trails.rs).
 */
module Cutting {
  import opened Options
  import opened TrailPoints
  import opened Weighing

  /**
   A weighed trail, or what a cut left of one: its stays and their weights; at which level
   any are missing; and whether the coarsest level had still been too much.
   */
  datatype Weighed = Weighed(points: seq<TrailPoint>, weights: seq<nat>, level: Option<nat>, truncated: bool)

  const LAST_LEVEL: nat := 9

  // ----- The stays above a level -----

  function KeptAt(weights: seq<nat>, level: nat): (n: nat)
    ensures n <= |weights|
  {
    if weights == [] then 0
    else
      var n := |weights| - 1;
      KeptAt(weights[..n], level) + if weights[n] > level then 1 else 0
  }

  /** The elements whose weight is above the level, in order. */
  function Above<T>(elements: seq<T>, weights: seq<nat>, level: nat): (r: seq<T>)
    requires |elements| == |weights|
    ensures |r| == KeptAt(weights, level)
  {
    if elements == [] then []
    else
      var n := |elements| - 1;
      Above(elements[..n], weights[..n], level) + if weights[n] > level then [elements[n]] else []
  }

  /** The first level from `level` on that leaves no more than `max`. */
  function FirstFitting(weights: seq<nat>, level: nat, max: nat): (r: Option<nat>)
    decreases LAST_LEVEL + 1 - level
  {
    if level > LAST_LEVEL then None
    else if KeptAt(weights, level) <= max then Some(level)
    else FirstFitting(weights, level + 1, max)
  }

  /** What is left of a trail when it is cut to `max` points at `atLeast` or a coarser level. */
  function Cut(points: seq<TrailPoint>, weights: seq<nat>, atLeast: Option<nat>, max: nat): (r: Weighed)
    requires |points| == |weights|
    ensures |r.points| == |r.weights|
  {
    if atLeast.None? && (|points| <= max || max < 2) then
      Weighed(points, weights, None, false)
    else
      var level := FirstFitting(weights, atLeast.GetOr(0), max).GetOr(LAST_LEVEL);
      Newest(Above(points, weights, level), Above(weights, weights, level), level, max)
  }

  /** The newest `max` of the points that a level keeps. */
  function Newest(points: seq<TrailPoint>, weights: seq<nat>, level: nat, max: nat): (r: Weighed)
    requires |points| == |weights|
    ensures |r.points| == |r.weights|
  {
    var drop := if |points| > max then |points| - max else 0;
    Weighed(points[drop..], weights[drop..], Some(level), |points| > max)
  }

  function Drop<T>(s: seq<T>, n: nat): seq<T> {
    if n <= |s| then s[n..] else []
  }

  lemma AboveGrows<T>(elements: seq<T>, weights: seq<nat>, level: nat, tooMany: nat, i: nat)
    requires |elements| == |weights| && i < |weights|
    ensures KeptAt(weights[..i + 1], level) == KeptAt(weights[..i], level) + if weights[i] > level then 1 else 0
    ensures Drop(Above(elements[..i + 1], weights[..i + 1], level), tooMany) ==
            Drop(Above(elements[..i], weights[..i], level), tooMany)
            + if weights[i] > level && KeptAt(weights[..i], level) >= tooMany then [elements[i]] else []
  {
    assert weights[..i + 1][..i] == weights[..i] && elements[..i + 1][..i] == elements[..i];
  }

  /** The points above the level but the first `tooMany` of them, with their weights. */
  method KeepAbove(points: seq<TrailPoint>, weights: seq<nat>, level: nat, tooMany: nat)
    returns (p: seq<TrailPoint>, w: seq<nat>)
    requires |points| == |weights|
    ensures p == Drop(Above(points, weights, level), tooMany)
    ensures w == Drop(Above(weights, weights, level), tooMany)
  {
    var drop := tooMany;
    p, w := [], [];
    for i := 0 to |points|
      invariant drop == tooMany - Min(tooMany, KeptAt(weights[..i], level))
      invariant p == Drop(Above(points[..i], weights[..i], level), tooMany)
      invariant w == Drop(Above(weights[..i], weights[..i], level), tooMany)
    {
      AboveGrows(points, weights, level, tooMany, i);
      AboveGrows(weights, weights, level, tooMany, i);
      if weights[i] > level {
        if drop > 0 {
          drop := drop - 1;
        } else {
          p, w := p + [points[i]], w + [weights[i]];
        }
      }
    }
    assert weights[..|points|] == weights && points[..|points|] == points;
  }

  method CutTrail(points: seq<TrailPoint>, weights: seq<nat>, atLeast: Option<nat>, max: nat) returns (r: Weighed)
    requires |points| == |weights|
    ensures r == Cut(points, weights, atLeast, max)
  {
    if atLeast.None? && (|points| <= max || max < 2) {
      return Weighed(points, weights, None, false);
    }
    var level := FirstFitting(weights, atLeast.GetOr(0), max).GetOr(LAST_LEVEL);
    var kept := KeptAt(weights, level);
    var drop := if kept > max then kept - max else 0;
    var p, w := KeepAbove(points, weights, level, drop);
    return Weighed(p, w, Some(level), kept > max);
  }

  // ----- What a cut promises -----

  lemma {:induction false} KeptAtFalls(weights: seq<nat>, level: nat, coarser: nat)
    requires level <= coarser
    ensures KeptAt(weights, coarser) <= KeptAt(weights, level)
    decreases |weights|
  {
    if weights != [] {
      KeptAtFalls(weights[..|weights| - 1], level, coarser);
    }
  }

  lemma {:induction false} FirstFittingIsFirst(weights: seq<nat>, level: nat, max: nat)
    ensures match FirstFitting(weights, level, max)
      case Some(l) => level <= l <= LAST_LEVEL && KeptAt(weights, l) <= max && forall m | level <= m < l :: KeptAt(weights, m) > max
      case None => forall m | level <= m <= LAST_LEVEL :: KeptAt(weights, m) > max
    decreases LAST_LEVEL + 1 - level
  {
    if level <= LAST_LEVEL && KeptAt(weights, level) > max {
      FirstFittingIsFirst(weights, level + 1, max);
    }
  }

  ghost predicate SuffixOf<T>(suffix: seq<T>, whole: seq<T>) {
    |suffix| <= |whole| && suffix == whole[|whole| - |suffix|..]
  }

  /**
   A cut takes the finest level, not finer than asked for, that fits; it is a suffix of
   the stays above that level, the whole of them unless even the last level is too much,
   which is exactly when it says it is truncated; and no level means nothing was left out.
   */
  lemma CutIsFinest(points: seq<TrailPoint>, weights: seq<nat>, atLeast: Option<nat>, max: nat)
    requires |points| == |weights| && atLeast.GetOr(0) <= LAST_LEVEL
    ensures var r := Cut(points, weights, atLeast, max);
      match r.level
      case None => atLeast == None && (|points| <= max || max < 2) && r.points == points && r.weights == weights && !r.truncated
      case Some(level) =>
        && (atLeast == None ==> |points| > max >= 2)
        && atLeast.GetOr(0) <= level <= LAST_LEVEL
        && (forall finer | atLeast.GetOr(0) <= finer < level :: KeptAt(weights, finer) > max)
        && (KeptAt(weights, level) <= max || level == LAST_LEVEL)
        && SuffixOf(r.points, Above(points, weights, level)) && SuffixOf(r.weights, Above(weights, weights, level))
        && |r.points| == Min(KeptAt(weights, level), max)
        && (r.truncated <==> KeptAt(weights, LAST_LEVEL) > max)
  {
    FirstFittingIsFirst(weights, atLeast.GetOr(0), max);
    var level := FirstFitting(weights, atLeast.GetOr(0), max).GetOr(LAST_LEVEL);
    KeptAtFalls(weights, level, LAST_LEVEL);
  }

  /** A cut of a trail whose last stay is kept at every level ends with that stay, when anything may be sent at all. */
  lemma CutKeepsLast(points: seq<TrailPoint>, weights: seq<nat>, atLeast: Option<nat>, max: nat)
    requires |points| == |weights| && points != [] && atLeast.GetOr(0) <= LAST_LEVEL && max > 0
    requires weights[|points| - 1] > LAST_LEVEL
    ensures var r := Cut(points, weights, atLeast, max);
            r.points != [] && r.points[|r.points| - 1] == points[|points| - 1]
            && r.weights[|r.points| - 1] == weights[|points| - 1]
  {
    if atLeast.Some? || (|points| > max && max >= 2) {
      FirstFittingIsFirst(weights, atLeast.GetOr(0), max);
      var level := FirstFitting(weights, atLeast.GetOr(0), max).GetOr(LAST_LEVEL);
      var (p, w) := (Above(points, weights, level), Above(weights, weights, level));
      assert Cut(points, weights, atLeast, max) == Newest(p, w, level, max);
      AboveEndsWithLast(points, weights, level);
      AboveEndsWithLast(weights, weights, level);
      NewestKeepsLast(p, w, level, max);
    }
  }

  lemma NewestKeepsLast(points: seq<TrailPoint>, weights: seq<nat>, level: nat, max: nat)
    requires |points| == |weights| && points != [] && max > 0
    ensures var r := Newest(points, weights, level, max);
            r.points != [] && r.points[|r.points| - 1] == points[|points| - 1]
            && r.weights[|r.points| - 1] == weights[|points| - 1]
  {
  }

  lemma AboveEndsWithLast<T>(elements: seq<T>, weights: seq<nat>, level: nat)
    requires |elements| == |weights| && weights != [] && weights[|weights| - 1] > level
    ensures var r := Above(elements, weights, level);
            r != [] && r[|r| - 1] == elements[|elements| - 1]
  {
  }

  // ----- Ready to send -----

  datatype BuiltTrail = BuiltTrail(points: seq<TrailPoint>, step: int, truncated: bool)

  /** How long the slowest walked step takes: a minute, or more. */
  function LongestStep(points: seq<TrailPoint>): (r: int)
    ensures r >= TRAIL_IDLE_SECS
  {
    if |points| < 2 then TRAIL_IDLE_SECS
    else
      var n := |points| - 1;
      var before := LongestStep(points[..n]);
      if points[n].jump then before else Max(before, points[n].first - points[n - 1].last)
  }

  function Built(trail: Weighed): BuiltTrail {
    BuiltTrail(trail.points, if trail.level.None? then TRAIL_IDLE_SECS else LongestStep(trail.points), trail.truncated)
  }

  /** No walked step of a thinned trail takes longer than the step it is sent with, and a longer one than a minute takes just that. */
  lemma {:induction false} StepIsLongest(points: seq<TrailPoint>)
    ensures forall i, j | 0 <= i && j == i + 1 < |points| && !points[j].jump ::
              points[j].first - points[i].last <= LongestStep(points)
    ensures LongestStep(points) == TRAIL_IDLE_SECS ||
            exists i, j :: 0 <= i && j == i + 1 < |points| && !points[j].jump
                           && points[j].first - points[i].last == LongestStep(points)
    decreases |points|
  {
    if |points| >= 2 {
      var n := |points| - 1;
      StepIsLongest(points[..n]);
      if LongestStep(points[..n]) != TRAIL_IDLE_SECS {
        var i, j :| 0 <= i && j == i + 1 < n && !points[..n][j].jump
                    && points[..n][j].first - points[..n][i].last == LongestStep(points[..n]);
        assert points[j].first - points[i].last == LongestStep(points[..n]);
      }
      forall i, j | 0 <= i && j == i + 1 < |points| && !points[j].jump
        ensures points[j].first - points[i].last <= LongestStep(points)
      {
        if j < n {
          assert points[..n][j] == points[j] && points[..n][i] == points[i];
        }
      }
    }
  }
}
