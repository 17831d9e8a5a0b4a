/**
 A trail read in two parts: an older one, thinned when it is read, and the samples
 since, which are added every minute (server/src/hub/trails.rs).
 */
module TrailJoining {
  import opened Options
  import opened TrailPoints
  import opened Stays
  import opened Weighing
  import opened Thinning
  import opened Cutting

  const MAX_TRAIL_POINTS: nat := 3000
  const OLDER_MAX_POINTS: nat := MAX_TRAIL_POINTS - 300

  /** The older part as it is kept: the hub was asked for it up to `until`, and its last sample was at `lastAt`. */
  datatype OlderTrail = OlderTrail(until: int, lastAt: Option<int>, trail: Weighed)

  function OlderPart(pages: seq<seq<Sample>>, until: int, cutShort: bool): (r: OlderTrail)
    ensures |r.trail.points| == |r.trail.weights|
  {
    var lastAt := if pages == [] then None else LastAt(pages[0]);
    var points := Joined(pages).0;
    var trail := Cut(points, Weights(points, 0, []), None, OLDER_MAX_POINTS);
    OlderTrail(until, lastAt, trail.(truncated := trail.truncated || cutShort))
  }

  method ReadOlderPart(pages: seq<seq<Sample>>, until: int, cutShort: bool) returns (r: OlderTrail)
    ensures r == OlderPart(pages, until, cutShort)
  {
    var lastAt := if pages == [] then None else LastAt(pages[0]);
    var points := JoinPages(pages);
    var weights := Weigh(points, 0, []);
    var trail := CutTrail(points, weights, None, OLDER_MAX_POINTS);
    trail := trail.(truncated := trail.truncated || cutShort);
    return OlderTrail(until, lastAt, trail);
  }

  /** The index of the last point, 0 when there is none. */
  function LastIndex(points: seq<TrailPoint>): nat {
    if points == [] then 0 else |points| - 1
  }

  lemma {:induction false} ExtendedNoShorter(stays: seq<TrailPoint>, samples: seq<Sample>)
    ensures |Extended(stays, samples)| >= |stays|
    decreases |samples|
  {
    if samples != [] {
      ExtendedNoShorter(stays, samples[..|samples| - 1]);
    }
  }

  /** The samples that the older part doesn't have yet. */
  function News(older: OlderTrail, recent: seq<Sample>): seq<Sample> {
    recent[KnownPoints(recent, Some(older.lastAt.GetOr(older.until)))..]
  }

  function JoinRecent(older: OlderTrail, recent: seq<Sample>): (r: Weighed)
    requires |older.trail.points| == |older.trail.weights|
  {
    var points := Extended(older.trail.points, News(older, recent));
    ExtendedNoShorter(older.trail.points, News(older, recent));
    var weights := Weights(points, LastIndex(older.trail.points), older.trail.weights);
    var joined := Cut(points, weights, older.trail.level, MAX_TRAIL_POINTS);
    joined.(truncated := joined.truncated || older.trail.truncated)
  }

  method AddRecent(older: OlderTrail, recent: seq<Sample>) returns (joined: Weighed)
    requires |older.trail.points| == |older.trail.weights|
    ensures joined == JoinRecent(older, recent)
  {
    var from := older.lastAt.GetOr(older.until);
    var known := KnownPoints(recent, Some(from));
    var news := recent[known..];
    assert news == News(older, recent);
    var Weighed(points, weights, level, truncated) := older.trail;
    var end := if |points| == 0 then 0 else |points| - 1;
    points := ExtendStays(points, news);
    ExtendedNoShorter(older.trail.points, news);
    weights := Weigh(points, end, weights);
    assert weights == Weights(points, LastIndex(older.trail.points), older.trail.weights);
    joined := CutTrail(points, weights, level, MAX_TRAIL_POINTS);
    joined := joined.(truncated := joined.truncated || truncated);
  }

  // ----- Weighing only the end of a trail -----

  lemma UpdateAfter(v: seq<nat>, w: seq<nat>, i: nat, weight: nat)
    requires i < |w|
    ensures (v + w)[|v| + i := weight] == v + w[i := weight]
  {
  }

  lemma {:induction false} FurthestShift(pre: seq<TrailPoint>, tail: seq<TrailPoint>, a: nat, b: nat, i: nat)
    requires a + 1 <= i <= b < |tail|
    ensures var (f, off) := Furthest(tail, a, b, i);
            Furthest(pre + tail, |pre| + a, |pre| + b, |pre| + i) == (|pre| + f, off)
    decreases i
  {
    if i > a + 1 {
      FurthestShift(pre, tail, a, b, i - 1);
      var whole := pre + tail;
      assert whole[|pre| + a] == tail[a] && whole[|pre| + b] == tail[b] && whole[|pre| + i - 1] == tail[i - 1];
    }
  }

  lemma {:induction false} FirstFromShift(pre: seq<TrailPoint>, tail: seq<TrailPoint>, i: nat, b: nat, time: int)
    requires i <= b < |tail|
    ensures FirstFrom(pre + tail, |pre| + i, |pre| + b, time) == |pre| + FirstFrom(tail, i, b, time)
    decreases b - i
  {
    if i < b && tail[i].first < time {
      FirstFromShift(pre, tail, i + 1, b, time);
    }
  }

  lemma {:induction false} SplitShift(pre: seq<TrailPoint>, tail: seq<TrailPoint>, a: nat, b: nat, limit: nat)
    requires a + 2 <= b < |tail|
    ensures var s := SplitOf(tail, a, b, limit);
            SplitOf(pre + tail, |pre| + a, |pre| + b, limit) == Split(|pre| + s.at, s.weight)
  {
    var whole := pre + tail;
    assert whole[|pre| + a] == tail[a] && whole[|pre| + b] == tail[b];
    FurthestShift(pre, tail, a, b, b);
    FirstFromShift(pre, tail, a + 1, b, tail[a].last + (tail[b].first - tail[a].last) / 2);
  }

  /** What a walk weighs when it is split in any given way. */
  ghost function WalkBy(split: (nat, nat, nat) -> Split, a: nat, b: nat, limit: nat, weights: seq<nat>): (r: seq<nat>)
    requires a <= b < |weights|
    ensures |r| == |weights|
    decreases b - a
  {
    if b - a < 2 || split(a, b, limit).weight == 0 || !(a < split(a, b, limit).at < b) then weights
    else
      var Split(at, weight) := split(a, b, limit);
      WalkBy(split, a, at, weight, WalkBy(split, at, b, weight, weights[at := weight]))
  }

  function SplitsOf(points: seq<TrailPoint>): (nat, nat, nat) -> Split {
    (a: nat, b: nat, limit: nat) => if a + 2 <= b < |points| then SplitOf(points, a, b, limit) else Split(0, 0)
  }

  lemma {:induction false} WalkIsBy(points: seq<TrailPoint>, a: nat, b: nat, limit: nat, weights: seq<nat>)
    requires a <= b < |points| == |weights| && limit > 0
    ensures WalkWeights(points, a, b, limit, weights) == WalkBy(SplitsOf(points), a, b, limit, weights)
    decreases b - a
  {
    if b - a >= 2 {
      var Split(at, weight) := SplitOf(points, a, b, limit);
      if weight > 0 {
        WalkIsBy(points, at, b, weight, weights[at := weight]);
        WalkIsBy(points, a, at, weight, WalkWeights(points, at, b, weight, weights[at := weight]));
      }
    }
  }

  /** Whether one way to split a part is another, so much further on. */
  ghost predicate ShiftedAt(split: (nat, nat, nat) -> Split, far: (nat, nat, nat) -> Split, offset: nat, a: nat, b: nat, limit: nat) {
    far(offset + a, offset + b, limit) == Split(offset + split(a, b, limit).at, split(a, b, limit).weight)
  }

  ghost predicate Shifted(split: (nat, nat, nat) -> Split, far: (nat, nat, nat) -> Split, offset: nat, length: nat) {
    forall a: nat, b: nat, limit: nat | a + 2 <= b < length :: ShiftedAt(split, far, offset, a, b, limit)
  }

  lemma {:induction false} WalkByShift(split: (nat, nat, nat) -> Split, far: (nat, nat, nat) -> Split,
                                       a: nat, b: nat, limit: nat, v: seq<nat>, w: seq<nat>)
    requires a <= b < |w| && Shifted(split, far, |v|, |w|)
    ensures WalkBy(far, |v| + a, |v| + b, limit, v + w) == v + WalkBy(split, a, b, limit, w)
    decreases b - a
  {
    if b - a >= 2 {
      assert ShiftedAt(split, far, |v|, a, b, limit);
      var Split(at, weight) := split(a, b, limit);
      if weight > 0 && a < at < b {
        var marked := w[at := weight];
        UpdateAfter(v, w, at, weight);
        WalkByShift(split, far, at, b, weight, v, marked);
        WalkByShift(split, far, a, at, weight, v, WalkBy(split, at, b, weight, marked));
      }
    }
  }

  lemma {:induction false} OneSplitShift(pre: seq<TrailPoint>, tail: seq<TrailPoint>, a: nat, b: nat, limit: nat)
    requires a + 2 <= b < |tail|
    ensures ShiftedAt(SplitsOf(tail), SplitsOf(pre + tail), |pre|, a, b, limit)
  {
    SplitShift(pre, tail, a, b, limit);
  }

  lemma SplitsShift(pre: seq<TrailPoint>, tail: seq<TrailPoint>)
    ensures Shifted(SplitsOf(tail), SplitsOf(pre + tail), |pre|, |tail|)
  {
    forall a: nat, b: nat, limit: nat | a + 2 <= b < |tail|
      ensures ShiftedAt(SplitsOf(tail), SplitsOf(pre + tail), |pre|, a, b, limit)
    {
      OneSplitShift(pre, tail, a, b, limit);
    }
  }

  /** What the rest of a trail weighs when its walks end, and are split, in any given way. */
  ghost function RestBy(split: (nat, nat, nat) -> Split, ends: nat -> bool, start: nat, to: nat, weights: seq<nat>): (r: seq<nat>)
    requires start < to <= |weights|
    ensures |r| == |weights|
    decreases |weights| - to
  {
    if to == |weights| then weights
    else if ends(to) then
      RestBy(split, ends, to, to + 1, WalkBy(split, start, to - 1, ALWAYS, weights[to - 1 := ALWAYS][to := ALWAYS]))
    else if to == |weights| - 1 then
      RestBy(split, ends, start, to + 1, WalkBy(split, start, to, ALWAYS, weights))
    else
      RestBy(split, ends, start, to + 1, weights)
  }

  function EndsOf(points: seq<TrailPoint>): nat -> bool {
    (to: nat) => 0 < to < |points| && EndsWalk(points, to)
  }

  lemma {:induction false} RestIsBy(points: seq<TrailPoint>, start: nat, to: nat, weights: seq<nat>)
    requires start < to <= |points| == |weights|
    ensures RestWeights(points, start, to, weights) == RestBy(SplitsOf(points), EndsOf(points), start, to, weights)
    decreases |points| - to
  {
    if to < |points| {
      if EndsWalk(points, to) {
        var ends := weights[to - 1 := ALWAYS][to := ALWAYS];
        WalkIsBy(points, start, to - 1, ALWAYS, ends);
        RestIsBy(points, to, to + 1, WalkWeights(points, start, to - 1, ALWAYS, ends));
      } else if to == |points| - 1 {
        WalkIsBy(points, start, to, ALWAYS, weights);
        RestIsBy(points, start, to + 1, WalkWeights(points, start, to, ALWAYS, weights));
      } else {
        RestIsBy(points, start, to + 1, weights);
      }
    }
  }

  lemma {:induction false} RestByShift(split: (nat, nat, nat) -> Split, far: (nat, nat, nat) -> Split, ends: nat -> bool, farEnds: nat -> bool,
                                       start: nat, to: nat, v: seq<nat>, w: seq<nat>)
    requires start < to <= |w| && Shifted(split, far, |v|, |w|)
    requires forall k: nat {:trigger ends(k)} | 0 < k < |w| :: farEnds(|v| + k) == ends(k)
    ensures RestBy(far, farEnds, |v| + start, |v| + to, v + w) == v + RestBy(split, ends, start, to, w)
    decreases |w| - to
  {
    if to < |w| {
      if ends(to) {
        var marked := w[to - 1 := ALWAYS][to := ALWAYS];
        UpdateAfter(v, w, to - 1, ALWAYS);
        UpdateAfter(v, w[to - 1 := ALWAYS], to, ALWAYS);
        WalkByShift(split, far, start, to - 1, ALWAYS, v, marked);
        RestByShift(split, far, ends, farEnds, to, to + 1, v, WalkBy(split, start, to - 1, ALWAYS, marked));
      } else if to == |w| - 1 {
        WalkByShift(split, far, start, to, ALWAYS, v, w);
        RestByShift(split, far, ends, farEnds, start, to + 1, v, WalkBy(split, start, to, ALWAYS, w));
      } else {
        RestByShift(split, far, ends, farEnds, start, to + 1, v, w);
      }
    }
  }

  lemma EndsShift(pre: seq<TrailPoint>, tail: seq<TrailPoint>)
    ensures forall k: nat {:trigger EndsOf(tail)(k)} | 0 < k < |tail| :: EndsOf(pre + tail)(|pre| + k) == EndsOf(tail)(k)
  {
    forall k: nat {:trigger EndsOf(tail)(k)} | 0 < k < |tail|
      ensures EndsOf(pre + tail)(|pre| + k) == EndsOf(tail)(k)
    {
      var whole := pre + tail;
      assert whole[|pre| + k] == tail[k] && whole[|pre| + k - 1] == tail[k - 1];
    }
  }

  lemma {:induction false} RestShift(pre: seq<TrailPoint>, tail: seq<TrailPoint>, v: seq<nat>, w: seq<nat>)
    requires tail != [] && |tail| == |w| && |v| == |pre|
    ensures RestWeights(pre + tail, |pre|, |pre| + 1, v + w) == v + RestWeights(tail, 0, 1, w)
  {
    SplitsShift(pre, tail);
    EndsShift(pre, tail);
    RestIsBy(tail, 0, 1, w);
    RestIsBy(pre + tail, |pre|, |pre| + 1, v + w);
    RestByShift(SplitsOf(tail), SplitsOf(pre + tail), EndsOf(tail), EndsOf(pre + tail), 0, 1, v, w);
  }

  /** What the end of a trail weighs does not depend on what is before it. */
  lemma {:induction false} WeightsOfTail(pre: seq<TrailPoint>, tail: seq<TrailPoint>, v: seq<nat>, last: nat)
    requires tail != [] && |v| == |pre|
    ensures Weights(pre + tail, |pre|, v + [last]) == v + Weights(tail, 0, [])
  {
    var w := Resized([], |tail|)[0 := ALWAYS][|tail| - 1 := ALWAYS];
    var n := |pre| + |tail|;
    assert Resized(v + [last], n)[|pre| := ALWAYS][n - 1 := ALWAYS] == v + w;
    RestShift(pre, tail, v, w);
  }

  // ----- Leaving out twice -----

  function Only<T>(element: T, weight: nat, level: nat): seq<T> {
    if weight > level then [element] else []
  }

  lemma AboveOneMore<T>(a: seq<T>, v: seq<nat>, element: T, weight: nat, level: nat)
    requires |a| == |v|
    ensures Above(a + [element], v + [weight], level) == Above(a, v, level) + Only(element, weight, level)
  {
    assert (a + [element])[..|a|] == a && (v + [weight])[..|v|] == v;
  }

  lemma ConcatAssociative<T>(a: seq<T>, b: seq<T>, c: seq<T>)
    ensures a + (b + c) == (a + b) + c
  {
  }

  lemma AllButLast<T>(s: seq<T>)
    requires s != []
    ensures s == s[..|s| - 1] + [s[|s| - 1]]
  {
  }

  lemma {:induction false} AboveConcat<T>(a: seq<T>, v: seq<nat>, b: seq<T>, w: seq<nat>, level: nat)
    requires |a| == |v| && |b| == |w|
    ensures Above(a + b, v + w, level) == Above(a, v, level) + Above(b, w, level)
    decreases |b|
  {
    if b == [] {
      assert a + b == a && v + w == v;
    } else {
      var n := |b| - 1;
      AboveConcat(a, v, b[..n], w[..n], level);
      AllButLast(b);
      AllButLast(w);
      AboveConcatStep(a, v, b[..n], w[..n], b[n], w[n], level);
    }
  }

  lemma AboveConcatStep<T>(a: seq<T>, v: seq<nat>, b: seq<T>, w: seq<nat>, x: T, y: nat, level: nat)
    requires |a| == |v| && |b| == |w|
    requires Above(a + b, v + w, level) == Above(a, v, level) + Above(b, w, level)
    ensures Above(a + (b + [x]), v + (w + [y]), level) == Above(a, v, level) + Above(b + [x], w + [y], level)
  {
    ConcatAssociative(a, b, [x]);
    ConcatAssociative(v, w, [y]);
    AboveOneMore(a + b, v + w, x, y, level);
    AboveOneMore(b, w, x, y, level);
  }

  lemma {:induction false} AboveTwice<T>(a: seq<T>, v: seq<nat>, fine: nat, coarse: nat)
    requires |a| == |v| && fine <= coarse
    ensures Above(Above(a, v, fine), Above(v, v, fine), coarse) == Above(a, v, coarse)
    decreases |a|
  {
    if a != [] {
      var n := |a| - 1;
      var (a', v', x, y) := (a[..n], v[..n], a[n], v[n]);
      assert a == a' + [x] && v == v' + [y];
      AboveTwice(a', v', fine, coarse);
      AboveOneMore(a', v', x, y, fine);
      AboveOneMore(v', v', y, y, fine);
      AboveOneMore(a', v', x, y, coarse);
      AboveTwiceStep(Above(a', v', fine), Above(v', v', fine), x, y, fine, coarse);
    }
  }

  lemma AboveTwiceStep<T>(a: seq<T>, v: seq<nat>, x: T, y: nat, fine: nat, coarse: nat)
    requires |a| == |v| && fine <= coarse
    ensures Above(a + Only(x, y, fine), v + Only(y, y, fine), coarse) == Above(a, v, coarse) + Only(x, y, coarse)
  {
    if y > fine {
      AboveOneMore(a, v, x, y, coarse);
    } else {
      assert a + [] == a && v + [] == v;
    }
  }

  ghost predicate AllAbove(v: seq<nat>, level: nat) {
    forall i | 0 <= i < |v| :: v[i] > level
  }

  /** Elements that are all above a level are all kept there. */
  lemma {:induction false} AboveAll<T>(a: seq<T>, v: seq<nat>, level: nat)
    requires |a| == |v| && AllAbove(v, level)
    ensures Above(a, v, level) == a
    decreases |a|
  {
    if a != [] {
      AboveAll(a[..|a| - 1], v[..|a| - 1], level);
    }
  }

  lemma {:induction false} AboveIsAbove(v: seq<nat>, level: nat)
    ensures AllAbove(Above(v, v, level), level)
    decreases |v|
  {
    if v != [] {
      AboveIsAbove(v[..|v| - 1], level);
    }
  }

  /** Weights that keep as many at every level from `level` on are cut at the same level. */
  lemma {:induction false} SameFitting(v: seq<nat>, w: seq<nat>, level: nat, max: nat)
    requires forall l | level <= l :: KeptAt(v, l) == KeptAt(w, l)
    ensures FirstFitting(v, level, max) == FirstFitting(w, level, max)
    decreases LAST_LEVEL + 1 - level
  {
    if level <= LAST_LEVEL {
      SameFitting(v, w, level + 1, max);
    }
  }

  /** What is above a level of a part that was thinned to a finer one, followed by another part, is what is above it of both. */
  lemma AboveThinned<T>(a: seq<T>, v: seq<nat>, b: seq<T>, w: seq<nat>, fine: nat, coarse: nat)
    requires |a| == |v| && |b| == |w| && fine <= coarse
    ensures Above(Above(a, v, fine) + b, Above(v, v, fine) + w, coarse) == Above(a + b, v + w, coarse)
    ensures KeptAt(Above(v, v, fine) + w, coarse) == KeptAt(v + w, coarse)
  {
    AboveTwice(a, v, fine, coarse);
    AboveConcat(Above(a, v, fine), Above(v, v, fine), b, w, coarse);
    AboveConcat(a, v, b, w, coarse);
  }

  lemma SameLevel(a: seq<TrailPoint>, v: seq<nat>, b: seq<TrailPoint>, w: seq<nat>, fine: nat, max: nat)
    requires |a| == |v| && |b| == |w|
    ensures FirstFitting(Above(v, v, fine) + w, fine, max) == FirstFitting(v + w, fine, max)
  {
    forall l | fine <= l
      ensures KeptAt(Above(v, v, fine) + w, l) == KeptAt(v + w, l)
    {
      AboveThinned(v, v, w, w, fine, l);
    }
    SameFitting(Above(v, v, fine) + w, v + w, fine, max);
  }

  /** Two trails with the same stays above the level they are cut at are cut to the same. */
  lemma SameCut(p: seq<TrailPoint>, v: seq<nat>, q: seq<TrailPoint>, w: seq<nat>, atLeast: nat, max: nat)
    requires |p| == |v| && |q| == |w|
    requires FirstFitting(v, atLeast, max) == FirstFitting(w, atLeast, max)
    requires var level := FirstFitting(w, atLeast, max).GetOr(LAST_LEVEL);
             Above(p, v, level) == Above(q, w, level) && Above(v, v, level) == Above(w, w, level)
    ensures Cut(p, v, Some(atLeast), max) == Cut(q, w, Some(atLeast), max)
  {
  }

  /** Cutting what a level left of the first part of a trail is cutting the trail at that level or a coarser one. */
  lemma CutTwice(a: seq<TrailPoint>, v: seq<nat>, b: seq<TrailPoint>, w: seq<nat>, fine: nat, max: nat)
    requires |a| == |v| && |b| == |w| && fine <= LAST_LEVEL
    ensures Cut(Above(a, v, fine) + b, Above(v, v, fine) + w, Some(fine), max) == Cut(a + b, v + w, Some(fine), max)
  {
    SameLevel(a, v, b, w, fine, max);
    FirstFittingIsFirst(v + w, fine, max);
    var level := FirstFitting(v + w, fine, max).GetOr(LAST_LEVEL);
    AboveThinned(a, v, b, w, fine, level);
    AboveThinned(v, v, w, w, fine, level);
    SameCut(Above(a, v, fine) + b, Above(v, v, fine) + w, a + b, v + w, fine, max);
  }

  // ----- The two parts against the trail as a whole -----

  /** The older samples' stays, thinned when they are read. */
  ghost function OlderCut(older: seq<Sample>): (r: Weighed)
    ensures |r.points| == |r.weights|
  {
    var stays := Extended([], older);
    Cut(stays, Weights(stays, 0, []), None, OLDER_MAX_POINTS)
  }

  /** The weights of all the stays: the older ones as they were, with their last an end, and the rest. */
  ghost function WholeWeights(older: seq<Sample>, news: seq<Sample>): (r: seq<nat>)
    ensures |r| == |Extended([], older + news)|
  {
    var before := Extended([], older);
    ExtendedInParts([], older, news);
    ExtendedNoShorter(before, news);
    Weights(Extended([], older + news), LastIndex(before), Weights(before, 0, []))
  }

  /** Whether an older part is what was read of some samples. */
  ghost predicate ReadFrom(part: OlderTrail, older: seq<Sample>) {
    part.trail.(truncated := OlderCut(older).truncated) == OlderCut(older)
  }

  /** Reading the hub's pages ends with one that has no points, if there is one. */
  predicate EndsWithEmpty(pages: seq<seq<Sample>>) {
    pages != [] && pages[0] == [] ==> |pages| == 1
  }

  /** A part read in pages is read from the samples the pages cover, and knows when the last of them was. */
  lemma PagesAreRead(pages: seq<seq<Sample>>, until: int, cutShort: bool, older: seq<Sample>)
    requires Increasing(older) && PagesOf(pages, older)
    ensures var part := OlderPart(pages, until, cutShort);
            && ReadFrom(part, older) && part.trail.truncated == (OlderCut(older).truncated || cutShort)
            && part.until == until && (EndsWithEmpty(pages) ==> part.lastAt == LastAt(older))
  {
    PagingIsInvisible(pages, older);
    if pages != [] && EndsWithEmpty(pages) {
      LastOfPages(pages, older);
    }
  }

  lemma LastOfPages(pages: seq<seq<Sample>>, older: seq<Sample>)
    requires PagesOf(pages, older) && pages != [] && EndsWithEmpty(pages)
    ensures LastAt(pages[0]) == LastAt(older)
  {
    if pages[0] == [] {
      var reach :| OthersReach(pages, older, reach);
      assert pages[1..] == [] && older[..reach] == older;
      assert PagesOf([], older[..reach]);
    } else {
      var page := pages[0];
      assert page[|page| - 1] == older[|older| - |page| + (|page| - 1)];
    }
  }

  /**
   What the hub has had since is what comes after the older samples, however many of those
   it repeats. Where there are none of those, it is everything exactly if it all came after
   the time the older part was asked for up to.
   */
  lemma NewsAreNew(part: OlderTrail, recent: seq<Sample>, whole: seq<Sample>, start: nat, reach: nat)
    requires Increasing(whole) && start <= reach <= |whole| && recent == whole[start..]
    requires part.lastAt == LastAt(whole[..reach])
    ensures News(part, recent) == whole[reach..] <==> reach > 0 || whole == [] || whole[0].at > part.until
  {
    if reach > 0 {
      KnownIsOverlap(recent, part.lastAt, whole, start, reach);
    } else {
      assert recent == whole && whole[reach..] == whole;
    }
  }

  /** A stay that is the last of some older ones, those before it, and those from it on once there are more samples. */
  lemma Parted(older: seq<Sample>, news: seq<Sample>)
    requires Extended([], older) != []
    ensures var before := Extended([], older);
            var n := |before| - 1;
            var (tail, weights) := (Extended([before[n]], news), Weights(before, 0, []));
            && tail != []
            && weights == weights[..n] + [ALWAYS]
            && before == before[..n] + [before[n]]
            && Extended([], older + news) == before[..n] + tail
            && WholeWeights(older, news) == weights[..n] + Weights(tail, 0, [])
  {
    var before := Extended([], older);
    var n := |before| - 1;
    var weights := Weights(before, 0, []);
    EndsAreKept(before, 0, [], n);
    AllButLast(before);
    AllButLast(weights);
    ExtendedAfterPrefix(before[..n], [before[n]], news);
    ExtendedInParts([], older, news);
    WeightsOfTail(before[..n], Extended([before[n]], news), weights[..n], ALWAYS);
  }

  /**
   Incremental is one-shot: unless the older part was too long at the last level, adding
   to it gives what thinning all the stays at once gives, at a level not finer than the
   older part's: the same stays, weights and level.
   */
  lemma JoinedIsOneShot(part: OlderTrail, recent: seq<Sample>, older: seq<Sample>, news: seq<Sample>)
    requires ReadFrom(part, older) && !OlderCut(older).truncated && News(part, recent) == news
    ensures var all := Cut(Extended([], older + news), WholeWeights(older, news), part.trail.level, MAX_TRAIL_POINTS);
            JoinRecent(part, recent) == all.(truncated := all.truncated || part.trail.truncated)
  {
    var before := Extended([], older);
    ExtendedInParts([], older, news);
    if part.trail.level == None {
      CutIsFinest(before, Weights(before, 0, []), None, OLDER_MAX_POINTS);
    } else {
      ThinnedJoinedIsOneShot(part, recent, older, news);
    }
  }

  /** Adding to some stays that were weighed, of which the last is an end, adds to and weighs that last one only. */
  lemma AddedAfterEnd(p: seq<TrailPoint>, v: seq<nat>, end: TrailPoint, news: seq<Sample>)
    requires |p| == |v|
    ensures var tail := Extended([end], news);
            && Extended(p + [end], news) == p + tail
            && Weights(p + tail, LastIndex(p + [end]), v + [ALWAYS]) == v + Weights(tail, 0, [])
  {
    ExtendedAfterPrefix(p, [end], news);
    WeightsOfTail(p, Extended([end], news), v, ALWAYS);
  }

  lemma DropLast<T>(p: seq<T>, x: T, drop: nat)
    requires drop <= |p|
    ensures (p + [x])[drop..] == p[drop..] + [x]
  {
  }

  /** What was kept of the older part but the first `drop` stays, and what the rest adds to it. */
  lemma JoinedParts(part: OlderTrail, older: seq<Sample>, news: seq<Sample>, level: nat, drop: nat)
    requires level < ALWAYS && Extended([], older) != []
    requires var before := Extended([], older);
             var weights := Weights(before, 0, []);
             && drop < |Above(before, weights, level)|
             && part.trail.points == Above(before, weights, level)[drop..]
             && part.trail.weights == Above(weights, weights, level)[drop..]
    ensures var before := Extended([], older);
            var n := |before| - 1;
            var weights := Weights(before, 0, []);
            var tail := Extended([before[n]], news);
            var (p, v) := (Above(before[..n], weights[..n], level), Above(weights[..n], weights[..n], level));
            && drop <= |p|
            && Extended(part.trail.points, news) == p[drop..] + tail
            && Weights(p[drop..] + tail, LastIndex(part.trail.points), part.trail.weights) == v[drop..] + Weights(tail, 0, [])
  {
    var before := Extended([], older);
    var n := |before| - 1;
    var weights := Weights(before, 0, []);
    Parted(older, news);
    AboveOneMore(before[..n], weights[..n], before[n], ALWAYS, level);
    AboveOneMore(weights[..n], weights[..n], ALWAYS, ALWAYS, level);
    var (p, v) := (Above(before[..n], weights[..n], level), Above(weights[..n], weights[..n], level));
    DropLast(p, before[n], drop);
    DropLast(v, ALWAYS, drop);
    AddedAfterEnd(p[drop..], v[drop..], before[n], news);
  }

  /** An older part that was thinned, but not too long at the last level, is all that is above its level. */
  lemma FittingPart(part: OlderTrail, older: seq<Sample>)
    requires ReadFrom(part, older) && !OlderCut(older).truncated && part.trail.level.Some?
    ensures var before := Extended([], older);
            var weights := Weights(before, 0, []);
            var level := part.trail.level.value;
            && before != [] && level <= LAST_LEVEL
            && part.trail.points == Above(before, weights, level)[0..]
            && part.trail.weights == Above(weights, weights, level)[0..]
            && |Above(before, weights, level)| > 0
  {
    var before := Extended([], older);
    var n := |before| - 1;
    var weights := Weights(before, 0, []);
    FirstFittingIsFirst(weights, 0, OLDER_MAX_POINTS);
    assert before != [];
    EndsAreKept(before, 0, [], n);
    AboveEndsWithLast(before, weights, part.trail.level.value);
  }

  lemma ThinnedJoinedIsOneShot(part: OlderTrail, recent: seq<Sample>, older: seq<Sample>, news: seq<Sample>)
    requires ReadFrom(part, older) && !OlderCut(older).truncated && News(part, recent) == news
    requires part.trail.level.Some?
    ensures var all := Cut(Extended([], older + news), WholeWeights(older, news), part.trail.level, MAX_TRAIL_POINTS);
            JoinRecent(part, recent) == all.(truncated := all.truncated || part.trail.truncated)
  {
    var before := Extended([], older);
    var n := |before| - 1;
    var (a, v) := (before[..n], Weights(before, 0, [])[..n]);
    var level := part.trail.level.value;
    FittingPart(part, older);
    JoinedParts(part, older, news, level, 0);
    var tail := Extended([before[n]], news);
    var (p, w) := (Above(a, v, level), Above(v, v, level));
    assert p[0..] == p && w[0..] == w;
    CutTwice(a, v, tail, Weights(tail, 0, []), level, MAX_TRAIL_POINTS);
    Parted(older, news);
  }

  /** An older part that was too long at the last level is the end of what is above it. */
  lemma TruncatedPart(part: OlderTrail, older: seq<Sample>) returns (drop: nat)
    requires ReadFrom(part, older) && OlderCut(older).truncated
    ensures var before := Extended([], older);
            var weights := Weights(before, 0, []);
            && before != [] && part.trail.level == Some(LAST_LEVEL)
            && drop < |Above(before, weights, LAST_LEVEL)|
            && part.trail.points == Above(before, weights, LAST_LEVEL)[drop..]
            && part.trail.weights == Above(weights, weights, LAST_LEVEL)[drop..]
  {
    var before := Extended([], older);
    var weights := Weights(before, 0, []);
    CutIsFinest(before, weights, None, OLDER_MAX_POINTS);
    FirstFittingIsFirst(weights, 0, OLDER_MAX_POINTS);
    KeptAtFalls(weights, FirstFitting(weights, 0, OLDER_MAX_POINTS).GetOr(LAST_LEVEL), LAST_LEVEL);
    drop := KeptAt(weights, LAST_LEVEL) - OLDER_MAX_POINTS;
  }

  /**
   When the older part was too long at the last level, what it makes with the rest is the
   end of what thinning all the stays at that level gives, and it says it is cut short.
   */
  lemma JoinedIsEndOfOneShot(part: OlderTrail, recent: seq<Sample>, older: seq<Sample>, news: seq<Sample>)
    requires ReadFrom(part, older) && OlderCut(older).truncated && part.trail.truncated && News(part, recent) == news
    ensures var joined := JoinRecent(part, recent);
            && joined.level == Some(LAST_LEVEL) && joined.truncated
            && SuffixOf(joined.points, Above(Extended([], older + news), WholeWeights(older, news), LAST_LEVEL))
  {
    var drop := TruncatedPart(part, older);
    JoinedParts(part, older, news, LAST_LEVEL, drop);
    Parted(older, news);
    var before := Extended([], older);
    var n := |before| - 1;
    var weights := Weights(before, 0, []);
    var tail := Extended([before[n]], news);
    EndOfEnd(before[..n], weights[..n], tail, Weights(tail, 0, []), drop);
  }

  /** Cutting, at the last level, the end of what is above it of one part, and another, gives the end of what is above it of both. */
  lemma EndOfEnd(a: seq<TrailPoint>, v: seq<nat>, b: seq<TrailPoint>, w: seq<nat>, drop: nat)
    requires |a| == |v| && |b| == |w| && drop <= |Above(a, v, LAST_LEVEL)|
    ensures var cut := Cut(Above(a, v, LAST_LEVEL)[drop..] + b, Above(v, v, LAST_LEVEL)[drop..] + w, Some(LAST_LEVEL), MAX_TRAIL_POINTS);
            cut.level == Some(LAST_LEVEL) && SuffixOf(cut.points, Above(a + b, v + w, LAST_LEVEL))
  {
    var (p, q) := (Above(a, v, LAST_LEVEL)[drop..] + b, Above(v, v, LAST_LEVEL)[drop..] + w);
    CutIsFinest(p, q, Some(LAST_LEVEL), MAX_TRAIL_POINTS);
    AboveOfEnd(a, v, b, w, LAST_LEVEL, drop);
    EndOfAnEnd(Cut(p, q, Some(LAST_LEVEL), MAX_TRAIL_POINTS).points, Above(p, q, LAST_LEVEL), Above(a + b, v + w, LAST_LEVEL));
  }

  lemma EndOfAnEnd<T>(a: seq<T>, b: seq<T>, c: seq<T>)
    requires SuffixOf(a, b) && SuffixOf(b, c)
    ensures SuffixOf(a, c)
  {
  }

  lemma EndOfConcat<T>(a: seq<T>, b: seq<T>, drop: nat)
    requires drop <= |a|
    ensures SuffixOf(a[drop..] + b, a + b)
  {
    assert a + b == a[..drop] + (a[drop..] + b);
  }

  lemma EndAllAbove(v: seq<nat>, level: nat, drop: nat)
    requires AllAbove(v, level) && drop <= |v|
    ensures AllAbove(v[drop..], level)
  {
  }

  lemma EndStaysAbove<T>(p: seq<T>, v: seq<nat>, level: nat, drop: nat)
    requires |p| == |v| && drop <= |p| && AllAbove(v, level)
    ensures Above(p[drop..], v[drop..], level) == p[drop..]
  {
    EndAllAbove(v, level, drop);
    AboveAll(p[drop..], v[drop..], level);
  }

  /** What is above a level of the end of what is above it of one part, and of another, is the end of that of both. */
  lemma AboveOfEnd<T>(a: seq<T>, v: seq<nat>, b: seq<T>, w: seq<nat>, level: nat, drop: nat)
    requires |a| == |v| && |b| == |w| && drop <= |Above(a, v, level)|
    ensures SuffixOf(Above(Above(a, v, level)[drop..] + b, Above(v, v, level)[drop..] + w, level), Above(a + b, v + w, level))
  {
    AboveIsAbove(v, level);
    EndStaysAbove(Above(a, v, level), Above(v, v, level), level, drop);
    AboveConcat(Above(a, v, level)[drop..], Above(v, v, level)[drop..], b, w, level);
    AboveConcat(a, v, b, w, level);
    EndOfConcat(Above(a, v, level), Above(b, w, level), drop);
  }

  // ----- The tolerance, for the trail that is sent -----

  /** The tolerance holds against every stay of the whole trail, for the older ones as well as the rest. */
  lemma {:induction false} WholeIsSound(older: seq<Sample>, news: seq<Sample>, level: nat, i: nat, j: nat)
    requires level < ALWAYS && Neighbours(WholeWeights(older, news), level, i, j)
    ensures Sound(Extended([], older + news), level, i, j)
  {
    var before := Extended([], older);
    var stays := Extended([], older + news);
    ExtendedInParts([], older, news);
    if LastIndex(before) <= i {
      ExtendedNoShorter(before, news);
      ThinnedIsSound(stays, LastIndex(before), Weights(before, 0, []), level, i, j);
    } else {
      EarlierIsSound(older, news, level, i, j);
    }
  }

  /** Before the older samples' last stay, which is an end, the weights are those of the older samples alone. */
  lemma {:induction false} EarlierIsSound(older: seq<Sample>, news: seq<Sample>, level: nat, i: nat, j: nat)
    requires level < ALWAYS && Neighbours(WholeWeights(older, news), level, i, j) && i < LastIndex(Extended([], older))
    ensures Sound(Extended([], older + news), level, i, j)
  {
    var (before, stays) := (Extended([], older), Extended([], older + news));
    var from := LastIndex(before);
    EarlierNeighbours(older, news, level, i, j);
    ThinnedIsSound(before, 0, [], level, i, j);
    Parted(older, news);
    FirstStayOnlyLasts(before[from], news);
    SoundWhenLastLasts(before, stays, level, i, j);
  }

  lemma {:induction false} EarlierNeighbours(older: seq<Sample>, news: seq<Sample>, level: nat, i: nat, j: nat)
    requires level < ALWAYS && Neighbours(WholeWeights(older, news), level, i, j) && i < LastIndex(Extended([], older))
    ensures j <= LastIndex(Extended([], older)) && Neighbours(Weights(Extended([], older), 0, []), level, i, j)
  {
    var before := Extended([], older);
    var (from, earlier) := (LastIndex(before), Weights(before, 0, []));
    Parted(older, news);
    assert earlier[from] == ALWAYS;
    assert WholeWeights(older, news)[from] == ALWAYS by {
      EndsAreKept(Extended([], older + news), from, earlier, from);
    }
    assert forall k | 0 <= k < from :: WholeWeights(older, news)[k] == earlier[k];
  }

  /** Lengthening the last of some stays takes nothing from what was promised of them. */
  lemma SoundWhenLastLasts(before: seq<TrailPoint>, stays: seq<TrailPoint>, level: nat, i: nat, j: nat)
    requires level < ALWAYS && i < j < |before| <= |stays| && Sound(before, level, i, j)
    requires forall k | 0 <= k < |before| - 1 :: stays[k] == before[k]
    requires var n := |before| - 1; stays[n] == before[n].(last := stays[n].last)
    ensures Sound(stays, level, i, j)
  {
    if j > i + 1 {
      forall k | i < k < j
        ensures OffSquared(stays[i], stays[j], stays[k]) <= Square(THIN_LEVELS[level].tiles)
      {
        assert OffSquared(before[i], before[j], before[k]) <= Square(THIN_LEVELS[level].tiles);
      }
      forall k | i < k <= j
        ensures !EndsWalk(stays, k)
      {
        assert !EndsWalk(before, k);
      }
    }
  }

  /** The last element above a level, and where it is. */
  lemma {:induction false} LastAbove<T>(elements: seq<T>, weights: seq<nat>, level: nat) returns (i: nat)
    requires |elements| == |weights| && Above(elements, weights, level) != []
    ensures i < |weights| && weights[i] > level && forall k | i < k < |weights| :: weights[k] <= level
    ensures var r := Above(elements, weights, level); elements[i] == r[|r| - 1]
    decreases |weights|
  {
    var n := |weights| - 1;
    if weights[n] > level {
      i := n;
    } else {
      i := LastAbove(elements[..n], weights[..n], level);
    }
  }

  /** Two elements that are next to each other above a level are neighbours at that level. */
  lemma {:induction false} AboveNeighbours<T>(elements: seq<T>, weights: seq<nat>, level: nat, t: nat) returns (i: nat, j: nat)
    requires |elements| == |weights| && t + 1 < |Above(elements, weights, level)|
    ensures Neighbours(weights, level, i, j)
    ensures elements[i] == Above(elements, weights, level)[t] && elements[j] == Above(elements, weights, level)[t + 1]
    decreases |weights|
  {
    var n := |weights| - 1;
    var before := Above(elements[..n], weights[..n], level);
    if t + 1 < |before| {
      i, j := AboveNeighbours(elements[..n], weights[..n], level, t);
    } else {
      i := LastAbove(elements[..n], weights[..n], level);
      j := n;
    }
  }

  lemma EndNeighbours<T>(elements: seq<T>, weights: seq<nat>, level: nat, end: seq<T>, t: nat) returns (i: nat, j: nat)
    requires |elements| == |weights| && SuffixOf(end, Above(elements, weights, level)) && t + 1 < |end|
    ensures Neighbours(weights, level, i, j)
    ensures elements[i] == end[t] && elements[j] == end[t + 1]
  {
    i, j := AboveNeighbours(elements, weights, level, |Above(elements, weights, level)| - |end| + t);
  }

  /** The trail that is sent is all the stays, or the end of those above the level it was cut at. */
  ghost predicate EndOfAbove(stays: seq<TrailPoint>, weights: seq<nat>, joined: Weighed)
    requires |stays| == |weights|
  {
    match joined.level
    case None => joined.points == stays
    case Some(level) => level <= LAST_LEVEL && SuffixOf(joined.points, Above(stays, weights, level))
  }

  lemma SentIsEndOfAbove(part: OlderTrail, recent: seq<Sample>, older: seq<Sample>, news: seq<Sample>)
    requires ReadFrom(part, older) && News(part, recent) == news && (OlderCut(older).truncated ==> part.trail.truncated)
    ensures EndOfAbove(Extended([], older + news), WholeWeights(older, news), JoinRecent(part, recent))
  {
    if OlderCut(older).truncated {
      JoinedIsEndOfOneShot(part, recent, older, news);
    } else {
      JoinedIsOneShot(part, recent, older, news);
      LevelOfPart(part, older);
      CutIsFinest(Extended([], older + news), WholeWeights(older, news), part.trail.level, MAX_TRAIL_POINTS);
    }
  }

  lemma LevelOfPart(part: OlderTrail, older: seq<Sample>)
    requires ReadFrom(part, older)
    ensures part.trail.level.GetOr(0) <= LAST_LEVEL
  {
    var before := Extended([], older);
    CutIsFinest(before, Weights(before, 0, []), None, OLDER_MAX_POINTS);
  }

  /** Whether stays i and j can be sent one after the other in a trail cut at a level, if at any. */
  ghost predicate MayFollow(stays: seq<TrailPoint>, cutAt: Option<nat>, i: nat, j: nat)
    requires i < j < |stays|
  {
    match cutAt
    case None => j == i + 1
    case Some(level) => level < ALWAYS && Sound(stays, level, i, j) && (stays[j].jump ==> j == i + 1)
  }

  /**
   The trail that is sent: between two of its points that follow each other the player
   took the very next step, or only walked, on one floor, within the tolerance of the
   level the trail was cut at, whatever stays the older part had left out before. A point
   reached by a break follows the one it was reached from.
   */
  lemma SentTrailIsSound(part: OlderTrail, recent: seq<Sample>, older: seq<Sample>, news: seq<Sample>, t: nat)
    returns (i: nat, j: nat)
    requires ReadFrom(part, older) && News(part, recent) == news && (OlderCut(older).truncated ==> part.trail.truncated)
    requires t + 1 < |JoinRecent(part, recent).points|
    ensures var stays := Extended([], older + news);
            var joined := JoinRecent(part, recent);
            && i < j < |stays|
            && stays[i] == joined.points[t] && stays[j] == joined.points[t + 1]
            && MayFollow(stays, joined.level, i, j)
  {
    SentIsEndOfAbove(part, recent, older, news);
    i, j := EndsFollow(older, news, JoinRecent(part, recent), t);
  }

  lemma EndsFollow(older: seq<Sample>, news: seq<Sample>, joined: Weighed, t: nat) returns (i: nat, j: nat)
    requires EndOfAbove(Extended([], older + news), WholeWeights(older, news), joined)
    requires t + 1 < |joined.points|
    ensures var stays := Extended([], older + news);
            && i < j < |stays|
            && stays[i] == joined.points[t] && stays[j] == joined.points[t + 1]
            && MayFollow(stays, joined.level, i, j)
  {
    if joined.level.None? {
      i, j := t, t + 1;
    } else {
      i, j := EndNeighbours(Extended([], older + news), WholeWeights(older, news), joined.level.value, joined.points, t);
      NeighboursMayFollow(older, news, joined.level.value, i, j);
    }
  }

  lemma NeighboursMayFollow(older: seq<Sample>, news: seq<Sample>, level: nat, i: nat, j: nat)
    requires level < ALWAYS && Neighbours(WholeWeights(older, news), level, i, j)
    ensures MayFollow(Extended([], older + news), Some(level), i, j)
  {
    WholeIsSound(older, news, level, i, j);
    JumpEndsWalk(Extended([], older + news), level, i, j);
  }

  lemma JumpEndsWalk(stays: seq<TrailPoint>, level: nat, i: nat, j: nat)
    requires level < ALWAYS && i < j < |stays| && Sound(stays, level, i, j)
    ensures stays[j].jump ==> j == i + 1
  {
    assert stays[j].jump ==> EndsWalk(stays, j);
  }

  ghost predicate SameLast(p: seq<TrailPoint>, q: seq<TrailPoint>) {
    p != [] && q != [] && p[|p| - 1] == q[|q| - 1]
  }

  lemma SameLastOfThree(p: seq<TrailPoint>, q: seq<TrailPoint>, r: seq<TrailPoint>)
    requires SameLast(p, q) && SameLast(q, r)
    ensures SameLast(p, r)
  {
  }

  lemma CutOfEnds(points: seq<TrailPoint>, weights: seq<nat>, level: Option<nat>, max: nat)
    requires |points| == |weights| && points != [] && weights[|points| - 1] == ALWAYS && level.GetOr(0) <= LAST_LEVEL && max >= 2
    ensures var cut := Cut(points, weights, level, max);
            |cut.points| <= max && SameLast(cut.points, points)
  {
    CutIsFinest(points, weights, level, max);
    CutKeepsLast(points, weights, level, max);
  }

  /** A cut of a weighed trail fits, and ends with its last stay. */
  lemma CutOfWeighed(points: seq<TrailPoint>, from: nat, earlier: seq<nat>, level: Option<nat>, max: nat)
    requires from < |points| && |earlier| <= from + 1 && level.GetOr(0) <= LAST_LEVEL && max >= 2
    ensures var cut := Cut(points, Weights(points, from, earlier), level, max);
            |cut.points| <= max && SameLast(cut.points, points)
  {
    EndsAreKept(points, from, earlier, |points| - 1);
    CutOfEnds(points, Weights(points, from, earlier), level, max);
  }

  /** What is left of an older part, if anything was read, ends with its last stay. */
  lemma PartEndsWithLast(part: OlderTrail, older: seq<Sample>)
    requires ReadFrom(part, older) && older != []
    ensures SameLast(part.trail.points, Extended([], older)) && |part.trail.weights| == |part.trail.points|
  {
    CutOfWeighed(Extended([], older), 0, [], None, OLDER_MAX_POINTS);
  }

  /** Stays with the same last one end the same after the same samples. */
  lemma SameEnd(p: seq<TrailPoint>, q: seq<TrailPoint>, samples: seq<Sample>)
    requires SameLast(p, q)
    ensures SameLast(Extended(p, samples), Extended(q, samples))
  {
    var end := p[|p| - 1];
    AllButLast(p);
    AllButLast(q);
    ExtendedAfterPrefix(p[..|p| - 1], [end], samples);
    ExtendedAfterPrefix(q[..|q| - 1], [end], samples);
  }

  lemma JoinedEndsWithLast(part: OlderTrail, recent: seq<Sample>)
    requires part.trail.points != [] && |part.trail.points| == |part.trail.weights|
    requires part.trail.level.GetOr(0) <= LAST_LEVEL
    ensures |JoinRecent(part, recent).points| <= MAX_TRAIL_POINTS
    ensures SameLast(JoinRecent(part, recent).points, Extended(part.trail.points, News(part, recent)))
  {
    var p := part.trail.points;
    ExtendedNoShorter(p, News(part, recent));
    CutOfWeighed(Extended(p, News(part, recent)), LastIndex(p), part.trail.weights, part.trail.level, MAX_TRAIL_POINTS);
  }

  /** Without older samples, a trail is a cut of the stays of the others. */
  lemma NothingOlder(part: OlderTrail, recent: seq<Sample>, news: seq<Sample>)
    requires ReadFrom(part, []) && News(part, recent) == news && news != []
    ensures |JoinRecent(part, recent).points| <= MAX_TRAIL_POINTS
    ensures SameLast(JoinRecent(part, recent).points, Extended([], news))
  {
    assert part.trail.points == [] && part.trail.weights == [] && part.trail.level == None;
    CutOfWeighed(Extended([], news), 0, [], None, MAX_TRAIL_POINTS);
  }

  /** A trail that is sent is never too long, and ends with the newest stay. */
  lemma SentTrailFits(part: OlderTrail, recent: seq<Sample>, older: seq<Sample>, news: seq<Sample>)
    requires ReadFrom(part, older) && News(part, recent) == news && older + news != []
    ensures |JoinRecent(part, recent).points| <= MAX_TRAIL_POINTS
    ensures SameLast(JoinRecent(part, recent).points, Extended([], older + news))
  {
    if older == [] {
      assert older + news == news;
      NothingOlder(part, recent, news);
    } else {
      LevelOfPart(part, older);
      PartEndsWithLast(part, older);
      JoinedEndsWithLast(part, recent);
      SameEnd(part.trail.points, Extended([], older), news);
      ExtendedInParts([], older, news);
      SameLastOfThree(JoinRecent(part, recent).points, Extended(part.trail.points, news), Extended([], older + news));
    }
  }

  // ----- From the hub's pages to the trail that is sent -----

  /** What the hub has of a trail: its older samples, read in pages, and the recent ones, which may repeat some of those. */
  ghost predicate ReadAs(whole: seq<Sample>, reach: nat, pages: seq<seq<Sample>>, until: int, recent: seq<Sample>) {
    && Increasing(whole) && reach <= |whole|
    && PagesOf(pages, whole[..reach]) && EndsWithEmpty(pages)
    && (exists start | 0 <= start <= reach :: recent == whole[start..])
    && (reach == 0 && whole != [] ==> whole[0].at > until)
  }

  lemma PartsOfWhole(whole: seq<Sample>, reach: nat, pages: seq<seq<Sample>>, until: int, cutShort: bool, recent: seq<Sample>)
    requires ReadAs(whole, reach, pages, until, recent)
    ensures var part := OlderPart(pages, until, cutShort);
            && ReadFrom(part, whole[..reach]) && News(part, recent) == whole[reach..]
            && part.trail.truncated == (OlderCut(whole[..reach]).truncated || cutShort)
            && part.trail.level == OlderCut(whole[..reach]).level
  {
    var start :| 0 <= start <= reach && recent == whole[start..];
    PagesAreRead(pages, until, cutShort, whole[..reach]);
    NewsAreNew(OlderPart(pages, until, cutShort), recent, whole, start, reach);
  }

  /** The trail that is sent when it is read so. */
  ghost function SentTrail(pages: seq<seq<Sample>>, until: int, cutShort: bool, recent: seq<Sample>): Weighed {
    JoinRecent(OlderPart(pages, until, cutShort), recent)
  }

  /**
   Read in whatever pages, however the recent samples overlap the older ones: the trail that
   is sent is the whole one, thinned at once at a level not finer than the older part's.
   */
  lemma TrailIsOneShot(whole: seq<Sample>, reach: nat, pages: seq<seq<Sample>>, until: int, cutShort: bool, recent: seq<Sample>)
    requires ReadAs(whole, reach, pages, until, recent) && !OlderCut(whole[..reach]).truncated
    ensures var (all, weights) := (Extended([], whole), WholeWeights(whole[..reach], whole[reach..]));
            && |weights| == |all|
            && var cut := Cut(all, weights, OlderCut(whole[..reach]).level, MAX_TRAIL_POINTS);
               SentTrail(pages, until, cutShort, recent) == cut.(truncated := cut.truncated || cutShort)
  {
    assert whole == whole[..reach] + whole[reach..];
    PartsOfWhole(whole, reach, pages, until, cutShort, recent);
    JoinedIsOneShot(OlderPart(pages, until, cutShort), recent, whole[..reach], whole[reach..]);
  }

  /** When the older part alone is too long, it is the end of what all the stays give at the last level. */
  lemma TrailIsEndOfOneShot(whole: seq<Sample>, reach: nat, pages: seq<seq<Sample>>, until: int, cutShort: bool, recent: seq<Sample>)
    requires ReadAs(whole, reach, pages, until, recent) && OlderCut(whole[..reach]).truncated
    ensures var (all, weights) := (Extended([], whole), WholeWeights(whole[..reach], whole[reach..]));
            var sent := SentTrail(pages, until, cutShort, recent);
            && |weights| == |all| && sent.level == Some(LAST_LEVEL) && sent.truncated
            && SuffixOf(sent.points, Above(all, weights, LAST_LEVEL))
  {
    assert whole == whole[..reach] + whole[reach..];
    PartsOfWhole(whole, reach, pages, until, cutShort, recent);
    JoinedIsEndOfOneShot(OlderPart(pages, until, cutShort), recent, whole[..reach], whole[reach..]);
  }

  /** However it is read, it is never too long, and ends where the player was last. */
  lemma TrailFits(whole: seq<Sample>, reach: nat, pages: seq<seq<Sample>>, until: int, cutShort: bool, recent: seq<Sample>)
    requires ReadAs(whole, reach, pages, until, recent) && whole != []
    ensures var sent := SentTrail(pages, until, cutShort, recent);
            |sent.points| <= MAX_TRAIL_POINTS && SameLast(sent.points, Extended([], whole))
  {
    assert whole == whole[..reach] + whole[reach..];
    PartsOfWhole(whole, reach, pages, until, cutShort, recent);
    SentTrailFits(OlderPart(pages, until, cutShort), recent, whole[..reach], whole[reach..]);
  }

  /** And between two of its points only what the tolerance allows was left out. */
  lemma TrailIsSound(whole: seq<Sample>, reach: nat, pages: seq<seq<Sample>>, until: int, cutShort: bool, recent: seq<Sample>, t: nat)
    returns (i: nat, j: nat)
    requires ReadAs(whole, reach, pages, until, recent) && t + 1 < |SentTrail(pages, until, cutShort, recent).points|
    ensures var (all, sent) := (Extended([], whole), SentTrail(pages, until, cutShort, recent));
            i < j < |all| && all[i] == sent.points[t] && all[j] == sent.points[t + 1] && MayFollow(all, sent.level, i, j)
  {
    assert whole == whole[..reach] + whole[reach..];
    PartsOfWhole(whole, reach, pages, until, cutShort, recent);
    i, j := SentTrailIsSound(OlderPart(pages, until, cutShort), recent, whole[..reach], whole[reach..], t);
  }

  // ----- What fits is sent whole -----

  lemma CutOfFew(points: seq<TrailPoint>, weights: seq<nat>, max: nat)
    requires |points| == |weights| && max >= 2
    ensures var r := Cut(points, weights, None, max);
            (r.level == None <==> |points| <= max) && (r.level == None ==> r == Weighed(points, weights, None, false))
  {
  }

  lemma PartOfFew(part: OlderTrail, older: seq<Sample>)
    requires ReadFrom(part, older)
    ensures part.trail.level == None <==> |Extended([], older)| <= 2700
    ensures part.trail.level == None ==> part.trail.points == Extended([], older)
  {
    var before := Extended([], older);
    CutOfFew(before, Weights(before, 0, []), OLDER_MAX_POINTS);
  }

  /** A part with a level gives a trail with one, and any other the whole trail exactly if that is short. */
  lemma JoinedOfFew(part: OlderTrail, recent: seq<Sample>)
    requires |part.trail.points| == |part.trail.weights|
    ensures var (joined, points) := (JoinRecent(part, recent), Extended(part.trail.points, News(part, recent)));
            && (joined.level == None <==> part.trail.level == None && |points| <= 3000)
            && (joined.level == None ==> joined.points == points && joined.truncated == part.trail.truncated)
  {
    var points := Extended(part.trail.points, News(part, recent));
    ExtendedNoShorter(part.trail.points, News(part, recent));
    var weights := Weights(points, LastIndex(part.trail.points), part.trail.weights);
    CutOfFew(points, weights, MAX_TRAIL_POINTS);
  }

  /**
   Every stay is sent exactly if the older part has no more than 2700 and all have no more
   than 3000 stays; only then the trail has no level.
   */
  lemma ShortTrailIsWhole(whole: seq<Sample>, reach: nat, pages: seq<seq<Sample>>, until: int, cutShort: bool, recent: seq<Sample>)
    requires ReadAs(whole, reach, pages, until, recent)
    ensures var (sent, all) := (SentTrail(pages, until, cutShort, recent), Extended([], whole));
            && (sent.level == None <==> |Extended([], whole[..reach])| <= 2700 && |all| <= 3000)
            && (sent.level == None ==> sent.points == all)
  {
    assert whole == whole[..reach] + whole[reach..];
    PartsOfWhole(whole, reach, pages, until, cutShort, recent);
    ExtendedInParts([], whole[..reach], whole[reach..]);
    PartOfFew(OlderPart(pages, until, cutShort), whole[..reach]);
    JoinedOfFew(OlderPart(pages, until, cutShort), recent);
  }

  lemma {:induction false} ExtendedGrows(stays: seq<TrailPoint>, samples: seq<Sample>)
    ensures |Extended(stays, samples)| <= |stays| + |samples|
    decreases |samples|
  {
    if samples != [] {
      ExtendedGrows(stays, samples[..|samples| - 1]);
    }
  }

  lemma FewKeepLevel(points: seq<TrailPoint>, weights: seq<nat>, level: Option<nat>, max: nat)
    requires |points| == |weights| <= max && level.GetOr(0) <= LAST_LEVEL
    ensures Cut(points, weights, level, max).level == level
  {
    if level.Some? {
      assert KeptAt(weights, level.value) <= max;
      assert FirstFitting(weights, level.value, max) == Some(level.value);
    }
  }

  lemma PartIsShort(part: OlderTrail, older: seq<Sample>)
    requires ReadFrom(part, older)
    ensures |part.trail.points| <= 2700
  {
    var before := Extended([], older);
    CutIsFinest(before, Weights(before, 0, []), None, OLDER_MAX_POINTS);
  }

  /** As many samples as were left room for never make a trail coarser. */
  lemma FewNewsKeepLevel(part: OlderTrail, recent: seq<Sample>, older: seq<Sample>)
    requires ReadFrom(part, older) && |News(part, recent)| <= 300
    ensures JoinRecent(part, recent).level == part.trail.level
  {
    var points := Extended(part.trail.points, News(part, recent));
    PartIsShort(part, older);
    LevelOfPart(part, older);
    ExtendedGrows(part.trail.points, News(part, recent));
    ExtendedNoShorter(part.trail.points, News(part, recent));
    FewKeepLevel(points, Weights(points, LastIndex(part.trail.points), part.trail.weights), part.trail.level, MAX_TRAIL_POINTS);
  }
}
