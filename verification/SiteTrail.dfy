/**
 What a player's trail is on the site, apart from how it is drawn: its steps, the runs
 they make, and where the player was when (site/src/canvas-map/trail-model.js). Times are
 in seconds.
 */
module SiteTrail {
  import opened Options
  import opened TrailPoints
  import opened TrailWire

  /** What happened between two points. */
  datatype Kind = Walk | Stairs | Sail | Entrance | House | Instance | Teleport | Unknown

  const BOAT_TILES_PER_S: real := 2.0 * RUN_TILES_PER_SEC
  const UNCERTAINTY_S: real := 20.0
  const SLACK_TILES: real := 8.0
  const SURE_FRACTION: real := 0.75
  const GAP_S: real := 300.0
  const UNDERGROUND_OFFSET := 6400

  function MaxReal(a: real, b: real): real {
    if a < b then b else a
  }

  /** The part of the map a point is in; the site has everything one tile further north. */
  function SiteBand(p: SitePoint): Band {
    BandOf(p.x, p.y - 1)
  }

  function Distance(a: SitePoint, b: SitePoint, shiftY: int): int {
    Max(Abs(a.x - b.x), Abs(a.y - (b.y + shiftY)))
  }

  function MoveKind(a: SitePoint, b: SitePoint): Kind {
    if a.boat && b.boat then Sail else if a.plane != b.plane then Stairs else Walk
  }

  /** A step between parts of the map. */
  function ClassifyCrossing(a: SitePoint, b: SitePoint, sure: real): Kind {
    var (from, to) := (SiteBand(a), SiteBand(b));
    if from != Instanced && to != Instanced && (from == Underground || to == Underground) then
      var shift := if to == Underground then -UNDERGROUND_OFFSET else UNDERGROUND_OFFSET;
      if (from == Surface || to == Surface) && Distance(a, b, shift) as real <= sure then Kind.Entrance else Kind.Teleport
    else Kind.Teleport
  }

  function ClassifyStep(a: SitePoint, b: SitePoint, gapS: real): Kind {
    match b.via
    case Some(Move) => MoveKind(a, b)
    case Some(Entrance) => Kind.Entrance
    case Some(House) => Kind.House
    case Some(Instance) => Kind.Instance
    case Some(Teleport) => Kind.Teleport
    case Some(Gap) => Unknown
    case Some(Other) => Unknown
    case None =>
      var elapsed := MaxReal(b.t0 - a.t1, 1.0);
      var speed := if a.boat && b.boat then BOAT_TILES_PER_S else RUN_TILES_PER_SEC;
      var sure := SURE_FRACTION * speed * elapsed + SLACK_TILES;
      if SiteBand(a) != SiteBand(b) then ClassifyCrossing(a, b, sure)
      else
        var far := Distance(a, b, 0) as real;
        if far > speed * (elapsed + UNCERTAINTY_S) + SLACK_TILES then Kind.Teleport
        else if elapsed > gapS || far > sure then Unknown
        else MoveKind(a, b)
  }

  predicate Connected(kind: Kind) {
    kind == Walk || kind == Stairs || kind == Sail
  }

  /** The server's guess of what is a break is the more eager one: what it takes for walking on, the site draws as a line. */
  lemma ServerIsMoreEager(a: TrailPoint, b: TrailPoint, wa: Option<int>, wb: Option<int>, gapS: real)
    requires !IsBreak(a, b) && gapS >= GAP_S
    ensures Connected(ClassifyStep(OnSite(a, wa), OnSite(b, wb), gapS))
  {
    var (p, q) := (OnSite(a, wa), OnSite(b, wb));
    if b.via == None {
      var elapsed := Max(b.first - a.last, 1) as real;
      assert MaxReal(q.t0 - p.t1, 1.0) == elapsed;
      var far := Distance(p, q, 0) as real;
      assert far <= 0.75 * RUN_TILES_PER_SEC * elapsed;
      var speed := if p.boat && q.boat then BOAT_TILES_PER_S else RUN_TILES_PER_SEC;
      assert SURE_FRACTION * RUN_TILES_PER_SEC * elapsed <= SURE_FRACTION * speed * elapsed <= speed * (elapsed + UNCERTAINTY_S);
    }
  }

  /** Where a point underground would be on the surface; a point on the surface is where it is. */
  function Lifted(p: SitePoint): SitePoint {
    if SiteBand(p) == Underground then p.(y := p.y - UNDERGROUND_OFFSET) else p
  }

  /** Whether one of two points is underground, and the other on the surface. */
  predicate UpOrDown(a: SitePoint, b: SitePoint) {
    {SiteBand(a), SiteBand(b)} == {Surface, Underground}
  }

  /** How long a step took, a second at least, and how far one gets in a second. */
  function StepTime(a: SitePoint, b: SitePoint): real {
    if b.t0 - a.t1 > 1.0 then b.t0 - a.t1 else 1.0
  }

  function StepSpeed(a: SitePoint, b: SitePoint): real {
    if a.boat && b.boat then 4.0 / 0.6 else 2.0 / 0.6
  }

  /** Whether a step is surely short enough to have been walked or sailed, and whether it is too long in any case. */
  predicate IsSure(a: SitePoint, b: SitePoint) {
    Max(Abs(a.x - b.x), Abs(a.y - b.y)) as real <= 0.75 * StepSpeed(a, b) * StepTime(a, b) + 8.0
  }

  predicate TooFar(a: SitePoint, b: SitePoint) {
    Max(Abs(a.x - b.x), Abs(a.y - b.y)) as real > StepSpeed(a, b) * (StepTime(a, b) + 20.0) + 8.0
  }

  /** An entrance is what is labelled so, or leads up or down to about the place the other end is at. */
  lemma EntranceExactly(a: SitePoint, b: SitePoint, gapS: real)
    ensures ClassifyStep(a, b, gapS) == Kind.Entrance <==>
            b.via == Some(Via.Entrance) || (b.via == None && UpOrDown(a, b) && IsSure(Lifted(a), Lifted(b)))
  {
    assert SiteBand(a) in {SiteBand(a), SiteBand(b)} && SiteBand(b) in {SiteBand(a), SiteBand(b)};
    assert UpOrDown(a, b) <==> (SiteBand(a) == Surface && SiteBand(b) == Underground) || (SiteBand(a) == Underground && SiteBand(b) == Surface);
  }

  /** A step nobody can tell is one labelled as a gap or something else, or within a part of the map and not too far, but not sure either. */
  lemma UnknownExactly(a: SitePoint, b: SitePoint, gapS: real)
    ensures ClassifyStep(a, b, gapS) == Unknown <==>
            || b.via == Some(Gap) || b.via == Some(Other)
            || (b.via == None && SiteBand(a) == SiteBand(b) && !TooFar(a, b) && (!IsSure(a, b) || StepTime(a, b) > gapS))
  {
  }

  /** A teleport is what is labelled so, or leads too far or to another part of the map, but for entrances. */
  lemma TeleportExactly(a: SitePoint, b: SitePoint, gapS: real)
    ensures ClassifyStep(a, b, gapS) == Kind.Teleport <==>
            || b.via == Some(Via.Teleport)
            || (b.via == None && if SiteBand(a) == SiteBand(b) then TooFar(a, b) else !(UpOrDown(a, b) && IsSure(Lifted(a), Lifted(b))))
  {
    EntranceExactly(a, b, gapS);
  }

  /** Houses and instances are only ever those labelled so; what is walked or sailed is told by boats and planes. */
  lemma OtherKindsExactly(a: SitePoint, b: SitePoint, gapS: real)
    ensures var kind := ClassifyStep(a, b, gapS);
            && (kind == Kind.House <==> b.via == Some(Via.House)) && (kind == Kind.Instance <==> b.via == Some(Via.Instance))
            && (Connected(kind) ==>
                  && (kind == Sail <==> a.boat && b.boat)
                  && (kind == Stairs <==> !(a.boat && b.boat) && a.plane != b.plane))
  {
  }

  // ----- Runs and jumps -----

  /** A stretch drawn as one line, from point i0 to point i1. */
  datatype Run = Run(i0: nat, i1: nat, sail: bool)

  /** A step that is not drawn, from point `from` to the next. */
  datatype Jump = Jump(from: nat, kind: Kind)

  datatype TrailModel = TrailModel(points: seq<SitePoint>, kinds: seq<Kind>, runs: seq<Run>, jumps: seq<Jump>, gapS: real)

  function KindsOf(points: seq<SitePoint>, gapS: real): (r: seq<Kind>)
    ensures |r| == if points == [] then 0 else |points| - 1
    ensures forall i, j | 0 <= i && j == i + 1 < |points| :: r[i] == ClassifyStep(points[i], points[j], gapS)
  {
    if |points| < 2 then []
    else
      var n := |points| - 1;
      KindsOf(points[..n], gapS) + [ClassifyStep(points[n - 1], points[n], gapS)]
  }

  /** The steps that are not drawn, in order. */
  function JumpsOf(kinds: seq<Kind>): seq<Jump> {
    if kinds == [] then []
    else
      var n := |kinds| - 1;
      JumpsOf(kinds[..n]) + if Connected(kinds[n]) then [] else [Jump(n, kinds[n])]
  }

  /** Every step of a run is drawn, as sailing or not as the run says. */
  ghost predicate RunFits(kinds: seq<Kind>, run: Run) {
    && run.i0 <= run.i1 <= |kinds|
    && (run.i0 == run.i1 ==> !run.sail)
    && forall k | run.i0 <= k < run.i1 :: Connected(kinds[k]) && (kinds[k] == Sail <==> run.sail)
  }

  /** A run begins after a jump that ends the one before it, or where sailing starts or stops. */
  ghost predicate Meets(kinds: seq<Kind>, run: Run, next: Run)
    requires run.i1 <= |kinds|
  {
    || (next.i0 == run.i1 + 1 && run.i1 < |kinds| && !Connected(kinds[run.i1]))
    || (next.i0 == run.i1 && run.i0 < run.i1 && next.i0 < next.i1 && next.sail != run.sail)
  }

  ghost predicate RunsFit(kinds: seq<Kind>, runs: seq<Run>) {
    && (forall r | 0 <= r < |runs| :: RunFits(kinds, runs[r]))
    && (forall r, s | 0 <= r && s == r + 1 < |runs| :: Meets(kinds, runs[r], runs[s]))
    && (runs != [] ==> runs[0].i0 == 0)
  }

  /** Whether the runs are those of a trail of so many points. */
  ghost predicate RunsOf(kinds: seq<Kind>, points: nat, runs: seq<Run>) {
    && RunsFit(kinds, runs)
    && (if points == 0 then runs == [] else runs != [] && runs[|runs| - 1].i1 == points - 1)
  }

  /** Whether the runs end just before a chain of drawn steps that begins at `start`. */
  ghost predicate RunsBefore(kinds: seq<Kind>, runs: seq<Run>, start: nat) {
    && RunsFit(kinds, runs)
    && (if start == 0 then runs == []
        else runs != [] && runs[|runs| - 1].i1 == start - 1 && start <= |kinds| && !Connected(kinds[start - 1]))
  }

  /** Whether the runs end within a chain, where sailing starts or stops. */
  ghost predicate RunsWithin(kinds: seq<Kind>, runs: seq<Run>, from: nat) {
    && RunsFit(kinds, runs)
    && from < |kinds| && runs != []
    && var last := runs[|runs| - 1]; last.i1 == from && last.i0 < from && (last.sail <==> kinds[from] != Sail)
  }

  lemma PushRun(kinds: seq<Kind>, runs: seq<Run>, run: Run)
    requires RunsFit(kinds, runs) && RunFits(kinds, run)
    requires if runs == [] then run.i0 == 0 else Meets(kinds, runs[|runs| - 1], run)
    ensures RunsFit(kinds, runs + [run])
  {
    var more := runs + [run];
    forall r, s | 0 <= r && s == r + 1 < |more|
      ensures Meets(kinds, more[r], more[s])
    {
      if s < |runs| {
        assert Meets(kinds, runs[r], runs[s]);
      }
    }
  }

  /** Splits the chain from `start` to `end` wherever sailing starts or stops. */
  method SplitChain(kinds: seq<Kind>, before: seq<Run>, start: nat, end: nat) returns (runs: seq<Run>)
    requires start < end <= |kinds| && RunsBefore(kinds, before, start)
    requires forall k | start <= k < end :: Connected(kinds[k])
    ensures RunsFit(kinds, runs) && runs != [] && runs[|runs| - 1].i1 == end
  {
    runs := before;
    var from := start;
    for j := start + 1 to end + 1
      invariant start <= from < j
      invariant if j <= end then RunsFit(kinds, runs) && from < end else from == end
      invariant j <= end ==> if from == start then runs == before else RunsWithin(kinds, runs, from)
      invariant j <= end ==> forall k | from <= k < j :: (kinds[k] == Sail) == (kinds[from] == Sail)
      invariant j > end ==> RunsFit(kinds, runs) && runs != [] && runs[|runs| - 1].i1 == end
    {
      if j == end || (kinds[j] == Sail) != (kinds[from] == Sail) {
        var run := Run(from, j, kinds[from] == Sail);
        PushRun(kinds, runs, run);
        runs := runs + [run];
        from := j;
      }
    }
  }

  method ClassifySteps(points: seq<SitePoint>, gapS: real) returns (kinds: seq<Kind>)
    ensures kinds == KindsOf(points, gapS)
  {
    kinds := [];
    var i := 0;
    while i + 1 < |points|
      invariant points == [] ==> i == 0 && kinds == []
      invariant points != [] ==> i < |points| && kinds == KindsOf(points[..i + 1], gapS)
    {
      assert points[..i + 2][..i + 1] == points[..i + 1];
      kinds := kinds + [ClassifyStep(points[i], points[i + 1], gapS)];
      i := i + 1;
    }
    assert points != [] ==> points[..i + 1] == points;
  }

  /** The runs and jumps of so many points, by what their steps are. */
  method SplitTrail(count: nat, kinds: seq<Kind>) returns (runs: seq<Run>, jumps: seq<Jump>)
    requires |kinds| == if count == 0 then 0 else count - 1
    ensures RunsOf(kinds, count, runs)
    ensures jumps == JumpsOf(kinds)
  {
    runs, jumps := [], [];
    var start := 0;
    for i := 0 to count
      invariant start <= i
      invariant i < count ==> RunsBefore(kinds, runs, start) && forall k | start <= k < i :: Connected(kinds[k])
      invariant i == count ==> RunsOf(kinds, count, runs)
      invariant jumps == JumpsOf(kinds[..if i <= |kinds| then i else |kinds|])
    {
      if i < |kinds| {
        assert kinds[..i + 1][..i] == kinds[..i];
      }
      if i == count - 1 || !Connected(kinds[i]) {
        if i == start {
          PushRun(kinds, runs, Run(start, i, false));
          runs := runs + [Run(start, i, false)];
        } else {
          runs := SplitChain(kinds, runs, start, i);
        }
        if i < count - 1 {
          jumps := jumps + [Jump(i, kinds[i])];
        }
        start := i + 1;
      }
    }
    assert kinds[..|kinds|] == kinds;
  }

  method BuildTrailModel(points: seq<SitePoint>, step: real) returns (model: TrailModel)
    ensures ModelOf(model, points, step)
  {
    var gapS := MaxReal(GAP_S, step);
    var kinds := ClassifySteps(points, gapS);
    var runs, jumps := SplitTrail(|points|, kinds);
    return TrailModel(points, kinds, runs, jumps, gapS);
  }

  /** Whether a model is that of some points, sent with a step. */
  ghost predicate ModelOf(model: TrailModel, points: seq<SitePoint>, step: real) {
    && model.points == points && model.gapS == MaxReal(GAP_S, step)
    && model.kinds == KindsOf(points, model.gapS)
    && RunsOf(model.kinds, |points|, model.runs)
    && model.jumps == JumpsOf(model.kinds)
  }

  // ----- What runs and jumps are together -----

  /** Whether a step lies in a run, and a point does. */
  predicate HasStep(run: Run, k: nat) {
    run.i0 <= k < run.i1
  }

  predicate HasPoint(run: Run, i: nat) {
    run.i0 <= i <= run.i1
  }

  /** Earlier runs end no later than later ones begin. */
  lemma {:induction false} RunsInOrder(kinds: seq<Kind>, runs: seq<Run>, r: nat, s: nat)
    requires RunsFit(kinds, runs) && r < s < |runs|
    ensures runs[r].i1 <= runs[s].i0
    decreases s
  {
    assert RunFits(kinds, runs[s - 1]) && Meets(kinds, runs[s - 1], runs[s]);
    if r < s - 1 {
      RunsInOrder(kinds, runs, r, s - 1);
    }
  }

  /** Every point up to where the runs end is in one of them, and so is every step before that which is drawn. */
  lemma {:induction false} RunWith(kinds: seq<Kind>, runs: seq<Run>, last: nat, i: nat, step: bool) returns (r: nat)
    requires RunsFit(kinds, runs) && last < |runs| && i <= runs[last].i1
    requires step ==> i < runs[last].i1 && Connected(kinds[i])
    ensures r <= last && HasPoint(runs[r], i) && (step ==> HasStep(runs[r], i))
    decreases last
  {
    assert RunFits(kinds, runs[last]);
    if runs[last].i0 <= i {
      return last;
    }
    assert Meets(kinds, runs[last - 1], runs[last]);
    r := RunWith(kinds, runs, last - 1, i, step);
  }

  ghost predicate PointInSomeRun(runs: seq<Run>, i: nat) {
    exists r :: 0 <= r < |runs| && HasPoint(runs[r], i)
  }

  ghost predicate StepInSomeRun(runs: seq<Run>, k: nat) {
    exists r :: 0 <= r < |runs| && HasStep(runs[r], k)
  }

  lemma StepInOneRun(kinds: seq<Kind>, runs: seq<Run>, k: nat, r: nat, s: nat)
    requires RunsFit(kinds, runs) && r < |runs| && s < |runs| && HasStep(runs[r], k) && HasStep(runs[s], k)
    ensures r == s && k < |kinds| && Connected(kinds[k]) && (runs[r].sail <==> kinds[k] == Sail)
  {
    assert RunFits(kinds, runs[r]);
    if r < s {
      RunsInOrder(kinds, runs, r, s);
    } else if s < r {
      RunsInOrder(kinds, runs, s, r);
    }
  }

  /** No step is in two runs, and the one it is in says whether it was sailed. */
  ghost predicate OneRunPerStep(kinds: seq<Kind>, runs: seq<Run>) {
    forall k: nat, r: nat, s: nat {:trigger HasStep(runs[r], k), HasStep(runs[s], k)} |
      r < |runs| && s < |runs| && HasStep(runs[r], k) && HasStep(runs[s], k) ::
      r == s && k < |kinds| && (runs[r].sail <==> kinds[k] == Sail)
  }

  lemma HasOneRunPerStep(kinds: seq<Kind>, runs: seq<Run>)
    requires RunsFit(kinds, runs)
    ensures OneRunPerStep(kinds, runs)
  {
    forall k: nat, r: nat, s: nat {:trigger HasStep(runs[r], k), HasStep(runs[s], k)} |
      r < |runs| && s < |runs| && HasStep(runs[r], k) && HasStep(runs[s], k)
      ensures r == s && k < |kinds| && (runs[r].sail <==> kinds[k] == Sail)
    {
      StepInOneRun(kinds, runs, k, r, s);
    }
  }

  lemma InSomeRun(kinds: seq<Kind>, count: nat, runs: seq<Run>, i: nat)
    requires RunsOf(kinds, count, runs) && i < count && |kinds| == count - 1
    ensures PointInSomeRun(runs, i)
    ensures i < |kinds| ==> (Connected(kinds[i]) <==> StepInSomeRun(runs, i))
  {
    var r := RunWith(kinds, runs, |runs| - 1, i, false);
    if i < |kinds| && Connected(kinds[i]) {
      var s := RunWith(kinds, runs, |runs| - 1, i, true);
    }
    if s: nat :| s < |runs| && HasStep(runs[s], i) {
      StepInOneRun(kinds, runs, i, s, s);
    }
  }

  /**
   Every point of a trail is in a run. Every step is in exactly one run, which says whether
   it was sailed, when it is drawn, and in none, but exactly one jump, when it is not.
   */
  lemma ModelPartitionsTrail(model: TrailModel, points: seq<SitePoint>, step: real)
    requires ModelOf(model, points, step)
    ensures forall i: nat | i < |points| :: PointInSomeRun(model.runs, i)
    ensures forall k: nat | k < |model.kinds| :: Connected(model.kinds[k]) <==> StepInSomeRun(model.runs, k)
    ensures OneRunPerStep(model.kinds, model.runs)
    ensures forall k: nat | k < |model.kinds| :: !Connected(model.kinds[k]) <==> Jump(k, model.kinds[k]) in model.jumps
    ensures forall j | j in model.jumps :: j.from < |model.kinds| && j.kind == model.kinds[j.from] && !Connected(j.kind)
  {
    var (kinds, runs) := (model.kinds, model.runs);
    forall i: nat | i < |points|
      ensures PointInSomeRun(runs, i)
    {
      InSomeRun(kinds, |points|, runs, i);
    }
    forall k: nat | k < |kinds|
      ensures Connected(kinds[k]) <==> StepInSomeRun(runs, k)
    {
      InSomeRun(kinds, |points|, runs, k);
    }
    HasOneRunPerStep(kinds, runs);
    JumpsAreTheRest(kinds);
  }

  lemma {:induction false} JumpsAreTheRest(kinds: seq<Kind>)
    ensures forall k: nat | k < |kinds| :: !Connected(kinds[k]) <==> Jump(k, kinds[k]) in JumpsOf(kinds)
    ensures forall j | j in JumpsOf(kinds) :: j.from < |kinds| && j.kind == kinds[j.from] && !Connected(j.kind)
    decreases |kinds|
  {
    if kinds != [] {
      JumpsAreTheRest(kinds[..|kinds| - 1]);
    }
  }

  /** There is only one way to split a trail into such runs. */
  lemma {:induction false} RunsAreUnique(kinds: seq<Kind>, count: nat, a: seq<Run>, b: seq<Run>, n: nat)
    requires |kinds| == if count == 0 then 0 else count - 1
    requires RunsOf(kinds, count, a) && RunsOf(kinds, count, b)
    requires n <= |a| && n <= |b| && a[..n] == b[..n]
    ensures a == b
    decreases |a| - n
  {
    if n == |a| {
      NoMoreRuns(kinds, count, a, b);
    } else if n == |b| {
      NoMoreRuns(kinds, count, b, a);
    } else {
      NextRunIsUnique(kinds, count, a, b, n);
      NextRunIsUnique(kinds, count, b, a, n);
      assert a[n].i1 == b[n].i1 && a[n].i0 == b[n].i0;
      SameRun(kinds, a[n], b[n]);
      assert a[..n + 1] == b[..n + 1];
      RunsAreUnique(kinds, count, a, b, n + 1);
    }
  }

  lemma SameRun(kinds: seq<Kind>, a: Run, b: Run)
    requires RunFits(kinds, a) && RunFits(kinds, b) && a.i0 == b.i0 && a.i1 == b.i1
    ensures a == b
  {
    if a.i0 < a.i1 {
      assert kinds[a.i0] == Sail <==> a.sail;
    }
  }

  /** A run that another follows does not end with the trail, and when the step after it is drawn sailing starts or stops there. */
  lemma RunEndsForAReason(kinds: seq<Kind>, runs: seq<Run>, r: nat)
    requires RunsFit(kinds, runs) && r + 1 < |runs|
    ensures var (run, e) := (runs[r], runs[r].i1);
            e < |kinds| && (Connected(kinds[e]) ==> run.i0 < e && (kinds[e] == Sail <==> !run.sail))
  {
    assert RunFits(kinds, runs[r]) && RunFits(kinds, runs[r + 1]) && Meets(kinds, runs[r], runs[r + 1]);
  }

  lemma NoMoreRuns(kinds: seq<Kind>, count: nat, a: seq<Run>, b: seq<Run>)
    requires |kinds| == if count == 0 then 0 else count - 1
    requires RunsOf(kinds, count, a) && RunsOf(kinds, count, b) && a <= b
    ensures a == b
  {
    if |a| < |b| && a != [] {
      RunEndsForAReason(kinds, b, |a| - 1);
      assert false;
    }
  }

  lemma RunEndsInTrail(kinds: seq<Kind>, runs: seq<Run>, r: nat)
    requires RunsFit(kinds, runs) && r < |runs|
    ensures runs[r].i1 <= runs[|runs| - 1].i1
  {
    if r < |runs| - 1 {
      RunsInOrder(kinds, runs, r, |runs| - 1);
      assert RunFits(kinds, runs[|runs| - 1]);
    }
  }

  /** After the same runs the next one begins at the same point, and doesn't end before the other's does. */
  lemma NextRunIsUnique(kinds: seq<Kind>, count: nat, a: seq<Run>, b: seq<Run>, n: nat)
    requires |kinds| == if count == 0 then 0 else count - 1
    requires RunsOf(kinds, count, a) && RunsOf(kinds, count, b)
    requires n < |a| && n < |b| && a[..n] == b[..n]
    ensures a[n].i0 == b[n].i0 && a[n].i1 >= b[n].i1
  {
    assert RunFits(kinds, a[n]) && RunFits(kinds, b[n]);
    if n > 0 {
      assert a[n - 1] == a[..n][n - 1] == b[..n][n - 1] == b[n - 1];
      assert Meets(kinds, a[n - 1], a[n]) && Meets(kinds, b[n - 1], b[n]);
    }
    RunEndsInTrail(kinds, b, n);
    assert a[n].i0 < a[n].i1 ==> (kinds[a[n].i0] == Sail <==> a[n].sail);
    assert b[n].i0 < b[n].i1 ==> (kinds[b[n].i0] == Sail <==> b[n].sail);
    if a[n].i1 < b[n].i1 {
      RunEndsForAReason(kinds, a, n);
      assert false;
    }
  }
}
