/**
 What the weights of a trail promise of the trail without the stays that are not
 needed at a level (server/src/hub/trails.rs).
 */
module Thinning {
  import opened TrailPoints
  import opened Weighing

  /** Whether going straight from stay i to stay j is within a level: of each stay in between, and in time. */
  ghost predicate Within(points: seq<TrailPoint>, i: nat, j: nat, level: nat)
    requires i < j < |points| && level < ALWAYS
  {
    && points[j].first - points[i].last <= THIN_LEVELS[level].seconds
    && forall k {:trigger OffSquared(points[i], points[j], points[k])} | i < k < j ::
         OffSquared(points[i], points[j], points[k]) <= Square(THIN_LEVELS[level].tiles)
  }

  /** Whether i and j are kept at a level and nothing between them is. */
  ghost predicate Neighbours(weights: seq<nat>, level: nat, i: nat, j: nat) {
    && i < j < |weights|
    && weights[i] > level && weights[j] > level
    && forall k | i < k < j :: weights[k] <= level
  }

  /** Whether nothing strictly between a and b has been weighed. */
  ghost predicate Unweighed(weights: seq<nat>, a: nat, b: nat)
    requires b < |weights|
  {
    forall k | a < k < b :: weights[k] == 0
  }

  // ----- Counting levels -----

  ghost predicate Coarser(levels: seq<Level>) {
    forall l, m | 0 <= l <= m < |levels| :: 0.0 <= levels[l].tiles <= levels[m].tiles && levels[l].seconds <= levels[m].seconds
  }

  /** A line is too far off for more than `level` levels exactly when it is for that level. */
  lemma {:induction false} WayCount(levels: seq<Level>, offSquared: real, level: nat)
    requires Coarser(levels) && level < |levels|
    ensures LevelsForTheWay(levels, offSquared) > level <==> offSquared > Square(levels[level].tiles)
    decreases |levels|
  {
    var n := |levels| - 1;
    if level < n {
      WayCount(levels[..n], offSquared, level);
      SquareMonotone(levels[level].tiles, levels[n].tiles);
    } else if level > 0 {
      WayCount(levels[..n], offSquared, n - 1);
      SquareMonotone(levels[n - 1].tiles, levels[n].tiles);
    }
  }

  lemma {:induction false} TimeCount(levels: seq<Level>, long: int, level: nat)
    requires Coarser(levels) && level < |levels|
    ensures LevelsForTheTime(levels, long) > level <==> long > levels[level].seconds
    decreases |levels|
  {
    var n := |levels| - 1;
    if level < n {
      TimeCount(levels[..n], long, level);
    } else if level > 0 {
      TimeCount(levels[..n], long, n - 1);
    }
  }

  lemma {:induction false} FurthestIsFurthest(points: seq<TrailPoint>, a: nat, b: nat, i: nat)
    requires a + 1 <= i <= b < |points|
    ensures var (furthest, off) := Furthest(points, a, b, i);
            && off >= 0.0
            && (forall k {:trigger OffSquared(points[a], points[b], points[k])} | a < k < i ::
                  OffSquared(points[a], points[b], points[k]) <= off)
            && (if off == 0.0 then furthest == a + 1
                else furthest < i && off == OffSquared(points[a], points[b], points[furthest]))
            && (forall k {:trigger OffSquared(points[a], points[b], points[k])} | a < k < furthest ::
                  OffSquared(points[a], points[b], points[k]) < off)
    decreases i
  {
    if i > a + 1 {
      FurthestIsFurthest(points, a, b, i - 1);
    }
  }

  /** Why a stay between a and b is kept: they are too many to weigh at once, or going straight is not within the level. */
  ghost predicate Needed(points: seq<TrailPoint>, a: nat, b: nat, level: nat)
    requires a < b < |points| && level < ALWAYS
  {
    b - a > MAX_WEIGHED_POINTS || !Within(points, a, b, level)
  }

  /** A level is counted, for the way or for the time, exactly if going straight is not within it. */
  lemma CountedUnlessWithin(points: seq<TrailPoint>, a: nat, b: nat, level: nat)
    requires a + 2 <= b < |points| && level < ALWAYS
    ensures LevelsForTheWay(THIN_LEVELS, Furthest(points, a, b, b).1) > level
            || LevelsForTheTime(THIN_LEVELS, points[b].first - points[a].last) > level
            <==> !Within(points, a, b, level)
  {
    WayIsCounted(points, a, b, level);
    TimeCount(THIN_LEVELS, points[b].first - points[a].last, level);
  }

  /** A part is split at a level exactly when its limit allows it and it is needed. */
  lemma SplitWhenNeeded(points: seq<TrailPoint>, a: nat, b: nat, limit: nat, level: nat)
    requires a + 2 <= b < |points| && level < ALWAYS
    ensures SplitOf(points, a, b, limit).weight > level <==> limit > level && Needed(points, a, b, level)
  {
    CountedUnlessWithin(points, a, b, level);
  }

  /** Whether k is the stay, of those between a and b, that going straight misses by the most, and the first one. */
  ghost predicate FirstFurthest(points: seq<TrailPoint>, a: nat, k: nat, b: nat)
    requires a < k < b < |points|
  {
    && (forall m {:trigger OffSquared(points[a], points[b], points[m])} | a < m < b ::
          OffSquared(points[a], points[b], points[m]) <= OffSquared(points[a], points[b], points[k]))
    && (forall m {:trigger OffSquared(points[a], points[b], points[m])} | a < m < k ::
          OffSquared(points[a], points[b], points[m]) < OffSquared(points[a], points[b], points[k]))
  }

  /** Whether k is the first stay between a and b that does not begin before half the time between them, the last one if all do. */
  ghost predicate FirstByHalf(points: seq<TrailPoint>, a: nat, k: nat, b: nat)
    requires a < k < b < |points|
  {
    FirstByTime(points, a, k, b, points[a].last + (points[b].first - points[a].last) / 2)
  }

  ghost predicate FirstByTime(points: seq<TrailPoint>, a: nat, k: nat, b: nat, time: int)
    requires a < k < b < |points|
  {
    (forall m | a < m < k :: points[m].first < time) && (k == b - 1 || points[k].first >= time)
  }

  /** Whether, at some level, nothing between a and b is too far off, and it only took too long. */
  ghost predicate OnlyTime(points: seq<TrailPoint>, a: nat, b: nat)
    requires a < b < |points|
  {
    exists level: nat :: level < ALWAYS && TookTooLong(points, a, b, level)
  }

  ghost predicate TookTooLong(points: seq<TrailPoint>, a: nat, b: nat, level: nat)
    requires a < b < |points| && level < ALWAYS
  {
    && points[b].first - points[a].last > THIN_LEVELS[level].seconds
    && forall m {:trigger OffSquared(points[a], points[b], points[m])} | a < m < b ::
         OffSquared(points[a], points[b], points[m]) <= Square(THIN_LEVELS[level].tiles)
  }

  /** Where a part is split: in the middle when it is too long to look at, halfway in time when it only took long, or else where it is furthest off. */
  ghost predicate Chosen(points: seq<TrailPoint>, a: nat, k: nat, b: nat)
    requires a < k < b < |points|
  {
    if b - a > MAX_WEIGHED_POINTS then k == a + (b - a) / 2
    else if OnlyTime(points, a, b) then FirstByHalf(points, a, k, b)
    else FirstFurthest(points, a, k, b)
  }

  lemma FurthestIsChosen(points: seq<TrailPoint>, a: nat, b: nat)
    requires a + 2 <= b < |points|
    ensures FirstFurthest(points, a, Furthest(points, a, b, b).0, b)
  {
    FurthestIsFurthest(points, a, b, b);
    OffSquaredPositive(points[a], points[b], points[Furthest(points, a, b, b).0]);
  }

  lemma {:induction false} FirstFromIsFirst(points: seq<TrailPoint>, i: nat, b: nat, time: int)
    requires i <= b < |points|
    ensures var r := FirstFrom(points, i, b, time);
            (forall m | i <= m < r :: points[m].first < time) && (r < b ==> points[r].first >= time)
    decreases b - i
  {
    if i < b && points[i].first < time {
      FirstFromIsFirst(points, i + 1, b, time);
    }
  }

  /** Nothing is too far off at a level exactly if it is not counted for the way. */
  lemma WayIsCounted(points: seq<TrailPoint>, a: nat, b: nat, level: nat)
    requires a + 2 <= b < |points| && level < ALWAYS
    ensures LevelsForTheWay(THIN_LEVELS, Furthest(points, a, b, b).1) > level <==>
            exists m {:trigger OffSquared(points[a], points[b], points[m])} ::
              a < m < b && OffSquared(points[a], points[b], points[m]) > Square(THIN_LEVELS[level].tiles)
  {
    var (furthest, off) := Furthest(points, a, b, b);
    FurthestIsFurthest(points, a, b, b);
    WayCount(THIN_LEVELS, off, level);
    SquarePositive(THIN_LEVELS[level].tiles);
    assert off > Square(THIN_LEVELS[level].tiles) ==>
      OffSquared(points[a], points[b], points[furthest]) > Square(THIN_LEVELS[level].tiles);
  }

  lemma TimeIsCounted(points: seq<TrailPoint>, a: nat, b: nat, level: nat)
    requires a + 2 <= b < |points| && level < ALWAYS
    ensures TookTooLong(points, a, b, level) <==>
            && LevelsForTheWay(THIN_LEVELS, Furthest(points, a, b, b).1) <= level
            && level < LevelsForTheTime(THIN_LEVELS, points[b].first - points[a].last)
  {
    WayIsCounted(points, a, b, level);
    TimeCount(THIN_LEVELS, points[b].first - points[a].last, level);
  }

  /** More levels count for the time than for the way exactly if at some level it only took too long. */
  lemma OnlyTimeCounts(points: seq<TrailPoint>, a: nat, b: nat)
    requires a + 2 <= b < |points|
    ensures OnlyTime(points, a, b) <==>
            LevelsForTheWay(THIN_LEVELS, Furthest(points, a, b, b).1) < LevelsForTheTime(THIN_LEVELS, points[b].first - points[a].last)
  {
    forall level: nat | level < ALWAYS
      ensures TookTooLong(points, a, b, level) <==>
              && LevelsForTheWay(THIN_LEVELS, Furthest(points, a, b, b).1) <= level
              && level < LevelsForTheTime(THIN_LEVELS, points[b].first - points[a].last)
    {
      TimeIsCounted(points, a, b, level);
    }
    var way := LevelsForTheWay(THIN_LEVELS, Furthest(points, a, b, b).1);
    if way < LevelsForTheTime(THIN_LEVELS, points[b].first - points[a].last) {
      assert TookTooLong(points, a, b, way);
    }
  }

  lemma TimeIsChosen(points: seq<TrailPoint>, a: nat, b: nat, time: int)
    requires a + 2 <= b < |points|
    ensures FirstByTime(points, a, Min(FirstFrom(points, a + 1, b, time), b - 1), b, time)
  {
    FirstFromIsFirst(points, a + 1, b, time);
  }

  lemma ChosenByNeed(points: seq<TrailPoint>, a: nat, b: nat, k: nat)
    requires a + 2 <= b < |points| && b - a <= MAX_WEIGHED_POINTS
    requires k == if OnlyTime(points, a, b)
                  then Min(FirstFrom(points, a + 1, b, points[a].last + (points[b].first - points[a].last) / 2), b - 1)
                  else Furthest(points, a, b, b).0
    ensures a < k < b && Chosen(points, a, k, b)
  {
    if OnlyTime(points, a, b) {
      TimeIsChosen(points, a, b, points[a].last + (points[b].first - points[a].last) / 2);
    } else {
      FurthestIsChosen(points, a, b);
    }
  }

  /** A part is split where it should be. */
  lemma SplitIsChosen(points: seq<TrailPoint>, a: nat, b: nat, limit: nat)
    requires a + 2 <= b < |points|
    ensures Chosen(points, a, SplitOf(points, a, b, limit).at, b)
  {
    if b - a <= MAX_WEIGHED_POINTS {
      OnlyTimeCounts(points, a, b);
      ChosenByNeed(points, a, b, SplitOf(points, a, b, limit).at);
    }
  }

  // ----- A walk -----

  lemma {:induction false} WalkBound(points: seq<TrailPoint>, a: nat, b: nat, limit: nat, weights: seq<nat>)
    requires a <= b < |points| == |weights| && limit > 0 && Unweighed(weights, a, b)
    ensures forall k | a < k < b :: WalkWeights(points, a, b, limit, weights)[k] <= limit
    decreases b - a
  {
    if b - a >= 2 {
      var Split(at, weight) := SplitOf(points, a, b, limit);
      if weight > 0 {
        var right := WalkWeights(points, at, b, weight, weights[at := weight]);
        WalkBound(points, at, b, weight, weights[at := weight]);
        WalkBound(points, a, at, weight, right);
      }
    }
  }

  /** Two neighbours at a level in a weighed walk are next to each other, or going straight is within the level. */
  lemma {:induction false} WalkWithin(points: seq<TrailPoint>, a: nat, b: nat, limit: nat, weights: seq<nat>, level: nat, i: nat, j: nat)
    requires a <= i < j <= b < |points| == |weights| && Unweighed(weights, a, b)
    requires level < ALWAYS && level < limit && weights[a] > level && weights[b] > level
    requires Neighbours(WalkWeights(points, a, b, limit, weights), level, i, j)
    ensures j == i + 1 || Within(points, i, j, level)
    decreases b - a
  {
    if b - a >= 2 {
      var Split(at, weight) := SplitOf(points, a, b, limit);
      if weight > level {
        var right := WalkWeights(points, at, b, weight, weights[at := weight]);
        var all := WalkWeights(points, a, at, weight, right);
        assert all[at] == weight;
        if j <= at {
          WalkWithin(points, a, at, weight, right, level, i, j);
        } else {
          assert Neighbours(right, level, i, j);
          WalkWithin(points, at, b, weight, weights[at := weight], level, i, j);
        }
      } else {
        SplitWhenNeeded(points, a, b, limit, level);
        WalkBoundBySplit(points, a, b, limit, weights);
        assert i == a && j == b;
      }
    }
  }

  /** Nothing in a part weighs more than the stay it is split at. */
  lemma WalkBoundBySplit(points: seq<TrailPoint>, a: nat, b: nat, limit: nat, weights: seq<nat>)
    requires a + 2 <= b < |points| == |weights| && limit > 0 && Unweighed(weights, a, b)
    ensures forall k | a < k < b :: WalkWeights(points, a, b, limit, weights)[k] <= SplitOf(points, a, b, limit).weight
  {
    var Split(at, weight) := SplitOf(points, a, b, limit);
    if weight > 0 {
      var right := WalkWeights(points, at, b, weight, weights[at := weight]);
      WalkBound(points, at, b, weight, weights[at := weight]);
      WalkBound(points, a, at, weight, right);
    }
  }

  /** Why k is kept at a level: two kept stays around it, with only walking in between, need something between them, and that is k. */
  ghost predicate Justified(points: seq<TrailPoint>, weights: seq<nat>, level: nat, lo: nat, k: nat, hi: nat)
    requires |points| == |weights| && level < ALWAYS
  {
    && lo < k < hi < |points|
    && weights[lo] > level && weights[hi] > level
    && (forall m | lo < m <= hi :: !EndsWalk(points, m))
    && Needed(points, lo, hi, level) && Chosen(points, lo, k, hi)
  }

  /** Every stay kept inside a walk is kept because it was needed between two kept ones. */
  lemma {:induction false} WalkNeeded(points: seq<TrailPoint>, a: nat, b: nat, limit: nat, weights: seq<nat>, level: nat, k: nat)
    returns (lo: nat, hi: nat)
    requires a < k < b < |points| == |weights| && limit > 0 && Unweighed(weights, a, b)
    requires level < ALWAYS && weights[a] > level && weights[b] > level
    ensures a <= lo < k < hi <= b
    ensures var r := WalkWeights(points, a, b, limit, weights);
            r[k] > level ==> Needed(points, lo, hi, level) && Chosen(points, lo, k, hi) && r[lo] > level && r[hi] > level
    decreases b - a
  {
    lo, hi := a, b;
    if WalkWeights(points, a, b, limit, weights)[k] > level {
      var Split(at, weight) := SplitOf(points, a, b, limit);
      WalkBoundBySplit(points, a, b, limit, weights);
      var right := WalkWeights(points, at, b, weight, weights[at := weight]);
      var all := WalkWeights(points, a, at, weight, right);
      assert all == WalkWeights(points, a, b, limit, weights);
      if k == at {
        SplitWhenNeeded(points, a, b, limit, level);
        SplitIsChosen(points, a, b, limit);
      } else if k < at {
        lo, hi := WalkNeeded(points, a, at, weight, right, level, k);
      } else {
        lo, hi := WalkNeeded(points, at, b, weight, weights[at := weight], level, k);
      }
    }
  }

  // ----- A whole trail -----

  /** What has been settled when the step to `to` is looked at and a walk began at `start`. */
  ghost predicate Halfway(points: seq<TrailPoint>, start: nat, to: nat, weights: seq<nat>)
    requires start < to <= |points| == |weights|
  {
    && weights[start] == ALWAYS
    && weights[|points| - 1] == ALWAYS
    && Unweighed(weights, start, |points| - 1)
    && forall k | start < k < to :: !EndsWalk(points, k)
  }

  /** What two neighbours at a level promise: they were next to each other, or only walked between and within the level. */
  ghost predicate Sound(points: seq<TrailPoint>, level: nat, i: nat, j: nat)
    requires i < j < |points| && level < ALWAYS
  {
    j == i + 1 || ((forall k | i < k <= j :: !EndsWalk(points, k)) && Within(points, i, j, level))
  }

  /** Whether a stay is an end of the trail from `from` on, or a side of a break or a change of floor. */
  ghost predicate IsEnd(points: seq<TrailPoint>, from: nat, k: nat)
    requires from <= k < |points|
  {
    || k == from || k == |points| - 1
    || EndsWalk(points, k) || EndsWalk(points, k + 1)
  }

  lemma {:induction false} RestKeepsBefore(points: seq<TrailPoint>, start: nat, to: nat, weights: seq<nat>)
    requires start < to <= |points| == |weights| && Halfway(points, start, to, weights)
    ensures var r := RestWeights(points, start, to, weights);
            (forall k | 0 <= k <= start :: r[k] == weights[k]) && r[|points| - 1] == ALWAYS
    decreases |points| - to
  {
    var last := |points| - 1;
    if to == |points| {
    } else if EndsWalk(points, to) {
      var w := WalkWeights(points, start, to - 1, ALWAYS, weights[to - 1 := ALWAYS][to := ALWAYS]);
      RestKeepsBefore(points, to, to + 1, w);
    } else if to == last {
    } else {
      RestKeepsBefore(points, start, to + 1, weights);
    }
  }

  /** The weights after the walk from `start` that ends before the break at `to` has been weighed. */
  ghost function UpToBreak(points: seq<TrailPoint>, start: nat, to: nat, weights: seq<nat>): seq<nat>
    requires start < to < |points| == |weights|
  {
    WalkWeights(points, start, to - 1, ALWAYS, weights[to - 1 := ALWAYS][to := ALWAYS])
  }

  lemma BreakStep(points: seq<TrailPoint>, start: nat, to: nat, weights: seq<nat>)
    requires start < to < |points| == |weights| && Halfway(points, start, to, weights) && EndsWalk(points, to)
    ensures var w := UpToBreak(points, start, to, weights);
            var r := RestWeights(points, start, to, weights);
            && |w| == |points|
            && r == RestWeights(points, to, to + 1, w)
            && Halfway(points, to, to + 1, w)
            && w[start] == w[to - 1] == w[to] == ALWAYS
            && (forall k | 0 <= k <= to :: r[k] == w[k]) && r[|points| - 1] == ALWAYS
    ensures var ends := weights[to - 1 := ALWAYS][to := ALWAYS];
            Unweighed(ends, start, to - 1) && ends[start] == ends[to - 1] == ALWAYS
  {
    RestKeepsBefore(points, to, to + 1, UpToBreak(points, start, to, weights));
  }

  lemma LastWalk(points: seq<TrailPoint>, start: nat, weights: seq<nat>)
    requires start < |points| - 1 < |points| == |weights| && !EndsWalk(points, |points| - 1)
    ensures RestWeights(points, start, |points| - 1, weights) == WalkWeights(points, start, |points| - 1, ALWAYS, weights)
  {
  }

  lemma {:induction false} SoundUpToBreak(points: seq<TrailPoint>, start: nat, to: nat, weights: seq<nat>, level: nat, i: nat, j: nat)
    requires start < to < |points| == |weights| && Halfway(points, start, to, weights) && EndsWalk(points, to)
    requires level < ALWAYS && start <= i < j <= to && Neighbours(UpToBreak(points, start, to, weights), level, i, j)
    ensures Sound(points, level, i, j)
  {
    var w := UpToBreak(points, start, to, weights);
    if j < to {
      WalkWithin(points, start, to - 1, ALWAYS, weights[to - 1 := ALWAYS][to := ALWAYS], level, i, j);
    } else {
      assert w[to - 1] == ALWAYS;
    }
  }

  lemma {:induction false} SoundToTheEnd(points: seq<TrailPoint>, start: nat, weights: seq<nat>, level: nat, i: nat, j: nat)
    requires start < |points| - 1 && |weights| == |points| && Halfway(points, start, |points| - 1, weights)
    requires !EndsWalk(points, |points| - 1)
    requires level < ALWAYS && start <= i < j < |points|
    requires Neighbours(RestWeights(points, start, |points| - 1, weights), level, i, j)
    ensures Sound(points, level, i, j)
  {
    LastWalk(points, start, weights);
    WalkWithin(points, start, |points| - 1, ALWAYS, weights, level, i, j);
  }

  lemma {:induction false} RestIsSound(points: seq<TrailPoint>, start: nat, to: nat, weights: seq<nat>, level: nat, i: nat, j: nat)
    requires start < to < |points| == |weights| && Halfway(points, start, to, weights)
    requires level < ALWAYS && start <= i < j < |points|
    requires Neighbours(RestWeights(points, start, to, weights), level, i, j)
    ensures Sound(points, level, i, j)
    decreases |points| - to
  {
    if EndsWalk(points, to) {
      BreakStep(points, start, to, weights);
      var w := UpToBreak(points, start, to, weights);
      if i < to {
        assert w[to] == ALWAYS && j <= to;
        SoundUpToBreak(points, start, to, weights, level, i, j);
      } else {
        RestIsSound(points, to, to + 1, w, level, i, j);
      }
    } else if to == |points| - 1 {
      SoundToTheEnd(points, start, weights, level, i, j);
    } else {
      RestIsSound(points, start, to + 1, weights, level, i, j);
    }
  }

  lemma {:induction false} RestKeepsEnds(points: seq<TrailPoint>, start: nat, to: nat, weights: seq<nat>, k: nat)
    requires start < to <= |points| == |weights| && Halfway(points, start, to, weights)
    requires to <= k < |points| && EndsWalk(points, k)
    ensures var r := RestWeights(points, start, to, weights); r[k - 1] == r[k] == ALWAYS
    decreases |points| - to
  {
    if EndsWalk(points, to) {
      BreakStep(points, start, to, weights);
      if k > to {
        RestKeepsEnds(points, to, to + 1, UpToBreak(points, start, to, weights), k);
      }
    } else {
      RestKeepsEnds(points, start, to + 1, weights, k);
    }
  }

  lemma NeededInWalk(points: seq<TrailPoint>, a: nat, b: nat, weights: seq<nat>, r: seq<nat>, level: nat, k: nat)
    returns (lo: nat, hi: nat)
    requires a < k < b < |points| == |weights| == |r| && Unweighed(weights, a, b) && level < ALWAYS
    requires weights[a] == weights[b] == ALWAYS && forall m | a < m <= b :: !EndsWalk(points, m)
    requires forall m | a <= m <= b :: r[m] == WalkWeights(points, a, b, ALWAYS, weights)[m]
    requires r[k] > level
    ensures a <= lo && Justified(points, r, level, lo, k, hi)
  {
    lo, hi := WalkNeeded(points, a, b, ALWAYS, weights, level, k);
  }

  /** Every stay kept at a level is an end, or needed between two kept ones with only walking between them. */
  lemma {:induction false} RestNeeded(points: seq<TrailPoint>, start: nat, to: nat, weights: seq<nat>, level: nat, k: nat)
    returns (lo: nat, hi: nat)
    requires start < to < |points| == |weights| && Halfway(points, start, to, weights)
    requires level < ALWAYS && start < k < |points| - 1
    requires RestWeights(points, start, to, weights)[k] > level
    requires !EndsWalk(points, k) && !EndsWalk(points, k + 1)
    ensures start <= lo && Justified(points, RestWeights(points, start, to, weights), level, lo, k, hi)
    decreases |points| - to
  {
    var r := RestWeights(points, start, to, weights);
    if EndsWalk(points, to) {
      BreakStep(points, start, to, weights);
      if k < to {
        lo, hi := NeededInWalk(points, start, to - 1, weights[to - 1 := ALWAYS][to := ALWAYS], r, level, k);
      } else {
        lo, hi := RestNeeded(points, to, to + 1, UpToBreak(points, start, to, weights), level, k);
      }
    } else if to == |points| - 1 {
      LastWalk(points, start, weights);
      lo, hi := NeededInWalk(points, start, to, weights, r, level, k);
    } else {
      lo, hi := RestNeeded(points, start, to + 1, weights, level, k);
    }
  }

  // ----- The main results -----

  lemma StartIsHalfway(points: seq<TrailPoint>, from: nat, weights: seq<nat>)
    requires from < |points| && |weights| <= from + 1
    ensures var w := Resized(weights, |points|)[from := ALWAYS][|points| - 1 := ALWAYS];
            Halfway(points, from, from + 1, w) && Weights(points, from, weights) == RestWeights(points, from, from + 1, w)
            && forall k | 0 <= k < |weights| && k < from :: w[k] == weights[k]
  {
  }

  /**
   The tolerance: at every level, two neighbours in the thinned trail were next to each
   other in the whole trail, or no break and no change of floor lies between them and
   going straight from one to the other is within the level.
   */
  lemma ThinnedIsSound(points: seq<TrailPoint>, from: nat, weights: seq<nat>, level: nat, i: nat, j: nat)
    requires from < |points| && |weights| <= from + 1 && level < ALWAYS
    requires from <= i && Neighbours(Weights(points, from, weights), level, i, j)
    ensures Sound(points, level, i, j)
  {
    StartIsHalfway(points, from, weights);
    RestIsSound(points, from, from + 1, Resized(weights, |points|)[from := ALWAYS][|points| - 1 := ALWAYS], level, i, j);
  }

  /** The ends of a trail and both sides of every break and every change of floor are kept at every level. */
  lemma EndsAreKept(points: seq<TrailPoint>, from: nat, weights: seq<nat>, k: nat)
    requires from <= k < |points| && |weights| <= from + 1 && IsEnd(points, from, k)
    ensures Weights(points, from, weights)[k] == ALWAYS
  {
    StartIsHalfway(points, from, weights);
    var w := Resized(weights, |points|)[from := ALWAYS][|points| - 1 := ALWAYS];
    RestKeepsBefore(points, from, from + 1, w);
    if k > from && EndsWalk(points, k) {
      RestKeepsEnds(points, from, from + 1, w, k);
    } else if from < k < |points| - 1 {
      RestKeepsEnds(points, from, from + 1, w, k + 1);
    }
  }

  /**
   Nothing is kept without need: a stay that is kept at a level is an end, or lies between
   two kept stays that are further apart than the level allows or a line between which is
   too far off (or which are too many stays apart to be weighed in one go), and is the one
   they are to be split at.
   */
  lemma KeptIsNeeded(points: seq<TrailPoint>, from: nat, weights: seq<nat>, level: nat, k: nat)
    requires from <= k < |points| && |weights| <= from + 1 && level < ALWAYS
    requires Weights(points, from, weights)[k] > level
    ensures IsEnd(points, from, k) ||
            exists lo, hi :: from <= lo && Justified(points, Weights(points, from, weights), level, lo, k, hi)
  {
    if !IsEnd(points, from, k) {
      StartIsHalfway(points, from, weights);
      var lo, hi := RestNeeded(points, from, from + 1, Resized(weights, |points|)[from := ALWAYS][|points| - 1 := ALWAYS], level, k);
    }
  }

  /** The weights of the stays before `from` are left as they are. */
  lemma EarlierWeightsStay(points: seq<TrailPoint>, from: nat, weights: seq<nat>, k: nat)
    requires k < from < |points| && from <= |weights| <= from + 1
    ensures Weights(points, from, weights)[k] == weights[k]
  {
    StartIsHalfway(points, from, weights);
    RestKeepsBefore(points, from, from + 1, Resized(weights, |points|)[from := ALWAYS][|points| - 1 := ALWAYS]);
  }

  /** Two stays between which the floor changes, or there is a jump, are both kept at every level. */
  lemma OtherFloorIsKept(points: seq<TrailPoint>, from: nat, weights: seq<nat>, k: nat)
    requires from <= k && k + 1 < |points| && |weights| <= from + 1
    requires points[k].plane != points[k + 1].plane || points[k + 1].jump
    ensures Weights(points, from, weights)[k] == Weights(points, from, weights)[k + 1] == ALWAYS
  {
    EndsAreKept(points, from, weights, k);
    EndsAreKept(points, from, weights, k + 1);
  }

  /** So what is left out between two neighbours is on their floor, with no jump on the way. */
  lemma {:induction false} LeftOutOnFloor(points: seq<TrailPoint>, from: nat, weights: seq<nat>, level: nat, i: nat, j: nat, k: nat)
    requires from < |points| && |weights| <= from + 1 && level < ALWAYS
    requires from <= i && Neighbours(Weights(points, from, weights), level, i, j) && i + 1 < j && i <= k <= j
    ensures points[k].plane == points[i].plane && (k > i ==> !points[k].jump)
    decreases k
  {
    if k > i {
      LeftOutOnFloor(points, from, weights, level, i, j, k - 1);
      if points[k - 1].plane != points[k].plane || points[k].jump {
        OtherFloorIsKept(points, from, weights, k - 1);
        assert false;
      }
    }
  }
}
