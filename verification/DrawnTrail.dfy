/**
 Whether the page draws the steps that thinning makes: what server/src/hub/trails.rs leaves out
 of a trail against how site/src/canvas-map/trail-model.js classifies the steps left.
 */
module DrawnTrail {
  import opened Options
  import opened TrailPoints
  import opened Stays
  import opened Weighing
  import opened Thinning
  import opened Cutting
  import opened TrailWire
  import opened SiteTrail

  /** Whether the page draws a step as walked or sailed. */
  predicate IsDrawn(a: TrailPoint, b: TrailPoint, gapS: real) {
    Connected(ClassifyStep(OnSite(a, a.world), OnSite(b, b.world), gapS))
  }

  function TilesBetween(a: TrailPoint, b: TrailPoint): int {
    Max(Abs(a.x - b.x), Abs(a.y - b.y))
  }

  function Elapsed(a: TrailPoint, b: TrailPoint): real {
    MaxReal((b.first - a.last) as real, 1.0)
  }

  /** How far a player may get in a time for the page to take it for walking, or sailing, without a label. */
  function SureTiles(a: TrailPoint, b: TrailPoint): real {
    SURE_FRACTION * (if a.boat && b.boat then BOAT_TILES_PER_S else RUN_TILES_PER_SEC) * Elapsed(a, b) + SLACK_TILES
  }

  /** Whether a step needs no label to be drawn. */
  predicate IsNear(a: TrailPoint, b: TrailPoint) {
    BandOf(a.x, a.y) == BandOf(b.x, b.y) && TilesBetween(a, b) as real <= SureTiles(a, b)
  }

  /** A step is drawn exactly when the hub calls it a move, or it has no label, is near and no gap. */
  lemma DrawnExactly(a: TrailPoint, b: TrailPoint, wa: Option<int>, wb: Option<int>, gapS: real)
    ensures Connected(ClassifyStep(OnSite(a, wa), OnSite(b, wb), gapS)) <==>
            b.via == Some(Move) || (b.via == None && IsNear(a, b) && Elapsed(a, b) <= gapS)
  {
    var (p, q) := (OnSite(a, wa), OnSite(b, wb));
    assert Distance(p, q, 0) == TilesBetween(a, b) && MaxReal(q.t0 - p.t1, 1.0) == Elapsed(a, b);
  }

  // ----- Steps of a thinned trail -----

  /** Whether a stay is marked as a jump exactly when a break led to it. */
  ghost predicate JumpIsBreak(stays: seq<TrailPoint>, k: nat)
    requires 0 < k < |stays|
  {
    stays[k].jump == IsBreak(stays[k - 1], stays[k])
  }

  ghost predicate JumpsAreBreaks(stays: seq<TrailPoint>) {
    forall k | 0 < k < |stays| :: JumpIsBreak(stays, k)
  }

  lemma AddKeepsJumps(stays: seq<TrailPoint>, sample: Sample)
    requires JumpsAreBreaks(stays)
    ensures JumpsAreBreaks(AddSample(stays, sample))
  {
    var more := AddSample(stays, sample);
    forall k | 0 < k < |more|
      ensures JumpIsBreak(more, k)
    {
      if k < |stays| {
        assert JumpIsBreak(stays, k);
      }
    }
  }

  lemma {:induction false} ExtendedJumpsAreBreaks(samples: seq<Sample>)
    ensures JumpsAreBreaks(Extended([], samples))
    decreases |samples|
  {
    if samples != [] {
      var n := |samples| - 1;
      ExtendedJumpsAreBreaks(samples[..n]);
      AddKeepsJumps(Extended([], samples[..n]), samples[n]);
    }
  }

  /**
   Of a trail that was thinned, a step that leaves stays out is drawn exactly when the stay it
   leads to was reached by what the hub calls a move, or has no label and is near: the time it
   took never is a gap on the page.
   */
  lemma ThinnedStepIsDrawn(samples: seq<Sample>, level: nat, i: nat, j: nat, gapS: real)
    requires var stays := Extended([], samples);
             samples != [] && level < ALWAYS && Neighbours(Weights(stays, 0, []), level, i, j) && i + 1 < j
    requires var stays := Extended([], samples);
             gapS >= 1.0 && (stays[j].first - stays[i].last) as real <= gapS
    ensures var stays := Extended([], samples);
            && (stays[j].via == None || stays[j].via == Some(Move))
            && (IsDrawn(stays[i], stays[j], gapS) <==> stays[j].via == Some(Move) || IsNear(stays[i], stays[j]))
  {
    var stays := Extended([], samples);
    ThinnedIsSound(stays, 0, [], level, i, j);
    ExtendedJumpsAreBreaks(samples);
    assert !EndsWalk(stays, j) && JumpIsBreak(stays, j);
    DrawnExactly(stays[i], stays[j], stays[i].world, stays[j].world, gapS);
  }

  /** On the page: any walked step of a thinned trail, read back, is drawn exactly then. */
  lemma {:induction false} ThinnedModelDraws(trail: Weighed, model: TrailModel, t: nat)
    requires trail.level.Some? && t + 1 < |trail.points| && !trail.points[t + 1].jump
    requires IsSent(trail, model)
    ensures t < |model.kinds|
    ensures var (a, b) := (trail.points[t], trail.points[t + 1]);
            Connected(model.kinds[t]) <==> b.via == Some(Move) || (b.via == None && IsNear(a, b))
  {
    var (a, b) := (trail.points[t], trail.points[t + 1]);
    SentPoint(trail, model, t);
    SentPoint(trail, model, t + 1);
    KindOfStep(model, t);
    NoLongerStep(trail.points, t);
    StepInGap(a, b, LatestWorld(trail.points, t), LatestWorld(trail.points, t + 1), model.gapS);
  }

  /** Whether a model is of a trail that was sent. */
  ghost predicate IsSent(trail: Weighed, model: TrailModel) {
    var built := Built(trail);
    ModelOf(model, ReadRows(RowsOf(built.points), WorldsOf(built.points)).0, built.step as real)
  }

  lemma {:induction false} SentPoint(trail: Weighed, model: TrailModel, t: nat)
    requires trail.level.Some? && t < |trail.points| && IsSent(trail, model)
    ensures |model.points| == |trail.points| && model.points[t] == OnSite(trail.points[t], LatestWorld(trail.points, t))
    ensures model.gapS == MaxReal(GAP_S, LongestStep(trail.points) as real)
  {
    DecodeReadsTrailJson(trail.points);
  }

  lemma KindOfStep(model: TrailModel, t: nat)
    requires model.kinds == KindsOf(model.points, model.gapS) && t + 1 < |model.points|
    ensures t < |model.kinds| && model.kinds[t] == ClassifyStep(model.points[t], model.points[t + 1], model.gapS)
  {
    var j := t + 1;
    assert model.kinds[t] == ClassifyStep(model.points[t], model.points[j], model.gapS);
  }

  lemma NoLongerStep(points: seq<TrailPoint>, t: nat)
    requires t + 1 < |points| && !points[t + 1].jump
    ensures points[t + 1].first - points[t].last <= LongestStep(points)
  {
    StepIsLongest(points);
    var j := t + 1;
    assert points[j].first - points[t].last <= LongestStep(points);
  }

  lemma StepInGap(a: TrailPoint, b: TrailPoint, wa: Option<int>, wb: Option<int>, gapS: real)
    requires gapS >= 1.0 && (b.first - a.last) as real <= gapS
    ensures Connected(ClassifyStep(OnSite(a, wa), OnSite(b, wb), gapS)) <==> b.via == Some(Move) || (b.via == None && IsNear(a, b))
  {
    DrawnExactly(a, b, wa, wb, gapS);
  }

  // ----- Where thinning loses nothing -----

  /** How many steps took less than a second. */
  function QuickSteps(points: seq<TrailPoint>, i: nat, j: nat): nat
    requires i <= j < |points|
    decreases j
  {
    if i == j then 0
    else QuickSteps(points, i, j - 1) + if points[j].first - points[j - 1].last < 1 then 1 else 0
  }

  /** Whether a stay was walked to, as far as can be told without a label. */
  ghost predicate PlainStep(points: seq<TrailPoint>, k: nat)
    requires 0 < k < |points|
  {
    points[k].via == None && !IsBreak(points[k - 1], points[k])
  }

  ghost predicate PlainWalk(points: seq<TrailPoint>, i: nat, j: nat)
    requires i <= j < |points|
  {
    forall k | i < k <= j :: PlainStep(points, k)
  }

  lemma OneStep(a: TrailPoint, b: TrailPoint)
    requires b.via == None && !IsBreak(a, b) && a.last <= b.first
    ensures a.boat == b.boat && BandOf(a.x, a.y) == BandOf(b.x, b.y)
    ensures TilesBetween(a, b) as real <= 2.5 * (b.first - a.last + if b.first - a.last < 1 then 1 else 0) as real
  {
  }

  lemma {:induction false} WalkGoesNoFaster(points: seq<TrailPoint>, i: nat, j: nat)
    requires InOrder(points) && i < j < |points| && PlainWalk(points, i, j)
    ensures points[i].boat == points[j].boat && BandOf(points[i].x, points[i].y) == BandOf(points[j].x, points[j].y)
    ensures TilesBetween(points[i], points[j]) as real <= 2.5 * (points[j].first - points[i].last + QuickSteps(points, i, j)) as real
    decreases j
  {
    var h := j - 1;
    assert PlainStep(points, j);
    OneStep(points[h], points[j]);
    if i < h {
      WalkGoesNoFaster(points, i, h);
      assert points[h].first <= points[h].last;
      assert TilesBetween(points[i], points[j]) <= TilesBetween(points[i], points[h]) + TilesBetween(points[h], points[j]);
    } else {
      assert QuickSteps(points, i, i) == 0;
    }
  }

  /** As far as 0.75 of a run, and a bit for what took no time, is near. */
  lemma NearEnough(a: TrailPoint, b: TrailPoint, quick: nat)
    requires BandOf(a.x, a.y) == BandOf(b.x, b.y) && quick <= 3
    requires TilesBetween(a, b) as real <= 2.5 * (b.first - a.last + quick) as real
    ensures IsNear(a, b)
  {
    var elapsed := Elapsed(a, b);
    assert SURE_FRACTION * RUN_TILES_PER_SEC == 2.5 && SURE_FRACTION * BOAT_TILES_PER_S == 5.0;
    assert SureTiles(a, b) == (if a.boat && b.boat then 5.0 else 2.5) * elapsed + SLACK_TILES;
    assert (b.first - a.last + quick) as real <= elapsed + 3.0;
  }

  /**
   What was walked without labels is drawn, whatever thinning left out of it, as long as no more
   than three of its steps took less than a second.
   */
  lemma SlowWalkIsDrawn(points: seq<TrailPoint>, i: nat, j: nat, gapS: real)
    requires InOrder(points) && i < j < |points| && PlainWalk(points, i, j) && QuickSteps(points, i, j) <= 3
    requires gapS >= 1.0 && (points[j].first - points[i].last) as real <= gapS
    ensures IsDrawn(points[i], points[j], gapS)
  {
    WalkGoesNoFaster(points, i, j);
    NearEnough(points[i], points[j], QuickSteps(points, i, j));
    assert PlainStep(points, j);
    DrawnExactly(points[i], points[j], points[i].world, points[j].world, gapS);
  }

  // ----- Where it does lose something -----

  /** A player who runs, two tiles each game tick of 0.6 s, as a hub without labels has it. */
  function Tick(k: nat): Sample {
    Sample(600_000_000 * k, 3200 + 2 * k, 3200, 0, None, None, None)
  }

  function TickStay(k: nat): TrailPoint {
    TrailPoint(3200 + 2 * k, 3200, 0, 6 * k / 10, 6 * k / 10, false, None, None, false)
  }

  function Ticks(n: nat): seq<Sample> {
    seq(n, k requires 0 <= k => Tick(k))
  }

  function TickStays(n: nat): seq<TrailPoint> {
    seq(n, k requires 0 <= k => TickStay(k))
  }

  lemma TickSecond(k: nat)
    ensures Seconds(Tick(k).at) == 6 * k / 10
  {
  }

  lemma TickIsWalked(k: nat)
    requires 0 < k <= 50
    ensures !IsBreak(TickStay(k - 1), TickStay(k))
  {
    assert 6 * k / 10 - 6 * (k - 1) / 10 <= 1;
  }

  lemma TickAdds(k: nat)
    requires k <= 50
    ensures AddSample(TickStays(k), Tick(k)) == TickStays(k) + [TickStay(k)]
  {
    TickSecond(k);
    if k > 0 {
      assert TickStays(k)[k - 1] == TickStay(k - 1);
      TickIsWalked(k);
    }
  }

  lemma TicksGrow(n: nat)
    ensures Ticks(n + 1)[..n] == Ticks(n) && Ticks(n + 1)[n] == Tick(n)
    ensures TickStays(n + 1) == TickStays(n) + [TickStay(n)]
  {
  }

  lemma {:induction false} TicksAreStays(n: nat)
    requires n <= 51
    ensures Extended([], Ticks(n)) == TickStays(n)
    decreases n
  {
    if n > 0 {
      TicksAreStays(n - 1);
      TickAdds(n - 1);
      TicksGrow(n - 1);
    }
  }

  lemma TickInReach(k: nat)
    requires 0 < k < 50
    ensures var reach := Reach(TickStay(0), TickStay(50), TickStay(k).first);
            reach.0 <= k as real / 50.0 <= reach.1
  {
    var t := 6 * k / 10;
    assert t as real <= 0.6 * k as real < t as real + 1.0;
    assert (t - 1) as real / 30.0 <= k as real / 50.0 <= (t + 1) as real / 30.0;
  }

  lemma NothingOff(k: nat)
    ensures SquaredTo(100.0, 0.0, (2 * k) as real, 0.0, k as real / 50.0) == 0.0
  {
    var s := k as real / 50.0;
    assert (2 * k) as real - 100.0 * s == 0.0 && 0.0 - 0.0 * s == 0.0;
    assert Square(0.0) == 0.0;
  }

  /** While the player was on any of these tiles they were on the straight line, at an even pace. */
  lemma TickIsOnLine(k: nat)
    requires 0 < k < 50
    ensures OffSquared(TickStay(0), TickStay(50), TickStay(k)) <= Square(1.0)
  {
    TickInReach(k);
    NothingOff(k);
    assert Square(1.0) == 1.0;
    assert PassesBy(TickStay(0), TickStay(50), TickStay(k), k as real / 50.0, Square(1.0));
    OffSquaredAtIsLeast(TickStay(0), TickStay(50), TickStay(k), TickStay(k).first, Square(1.0));
  }

  /** A trail of one walk is weighed as that. */
  lemma {:induction false} OneWalk(points: seq<TrailPoint>, to: nat, weights: seq<nat>)
    requires 0 < to < |points| == |weights| && forall k | to <= k < |points| :: !EndsWalk(points, k)
    ensures RestWeights(points, 0, to, weights) == WalkWeights(points, 0, |points| - 1, ALWAYS, weights)
    decreases |points| - to
  {
    if to < |points| - 1 {
      OneWalk(points, to + 1, weights);
    }
  }

  lemma TicksAreWithin()
    ensures Within(TickStays(51), 0, 50, 0)
  {
    var stays := TickStays(51);
    forall k | 0 < k < 50
      ensures OffSquared(stays[0], stays[50], stays[k]) <= Square(THIN_LEVELS[0].tiles)
    {
      TickIsOnLine(k);
    }
  }

  lemma TicksAreThinned()
    ensures Neighbours(Weights(TickStays(51), 0, []), 0, 0, 50)
  {
    var stays := TickStays(51);
    var w := Resized([], 51)[0 := ALWAYS][50 := ALWAYS];
    assert forall k | 1 <= k < 51 :: !EndsWalk(stays, k);
    OneWalk(stays, 1, w);
    TicksAreWithin();
    SplitWhenNeeded(stays, 0, 50, ALWAYS, 0);
  }

  lemma TickIsDrawn(k: nat, gapS: real)
    requires 0 < k <= 50 && gapS >= GAP_S
    ensures IsDrawn(TickStay(k - 1), TickStay(k), gapS)
  {
    TickIsWalked(k);
    ServerIsMoreEager(TickStay(k - 1), TickStay(k), None, None, gapS);
  }

  lemma RunIsUnknown(gapS: real)
    ensures ClassifyStep(OnSite(TickStay(0), None), OnSite(TickStay(50), None), gapS) == Unknown
  {
    var (a, b) := (OnSite(TickStay(0), None), OnSite(TickStay(50), None));
    assert Distance(a, b, 0) == 100 && b.t0 - a.t1 == 30.0;
  }

  /**
   Steps each of which the page draws, but not what thinning makes of them, at the finest level
   already: the run goes 100 tiles in 30 seconds, and the page is sure of 83.
   */
  lemma FastRunIsLost(gapS: real)
    requires gapS >= GAP_S
    ensures var stays := Extended([], Ticks(51));
            && |stays| == 51 && Neighbours(Weights(stays, 0, []), 0, 0, 50)
            && (forall k | 0 < k < 51 :: IsDrawn(stays[k - 1], stays[k], gapS))
            && ClassifyStep(OnSite(stays[0], None), OnSite(stays[50], None), gapS) == Unknown
  {
    TicksAreStays(51);
    TicksAreThinned();
    RunIsUnknown(gapS);
    forall k | 0 < k < 51
      ensures IsDrawn(TickStays(51)[k - 1], TickStays(51)[k], gapS)
    {
      TickIsDrawn(k, gapS);
    }
  }
}
