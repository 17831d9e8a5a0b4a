/**
 The hub's samples merged into stays, and a trail read in pages
 (server/src/hub/trails.rs).
 */
module Stays {
  import opened Options
  import opened TrailPoints

  predicate Walked(sample: Sample) {
    sample.via == None || sample.via == Some(Move)
  }

  predicate SameSpot(stay: TrailPoint, sample: Sample) {
    && (stay.x, stay.y, stay.plane) == (sample.x, sample.y, sample.plane)
    && stay.boat == sample.onBoat.GetOr(false)
    && stay.world == sample.world
  }

  /** Whether a sample right after a stay is part of it. */
  predicate Continues(stay: TrailPoint, sample: Sample) {
    && Walked(sample)
    && SameSpot(stay, sample)
    && Seconds(sample.at) - stay.last <= TRAIL_GAP_SECS
  }

  function StayOf(sample: Sample): TrailPoint {
    var at := Seconds(sample.at);
    TrailPoint(sample.x, sample.y, sample.plane, at, at, sample.onBoat.GetOr(false), sample.world, sample.via, false)
  }

  function AddSample(stays: seq<TrailPoint>, sample: Sample): seq<TrailPoint> {
    if stays == [] then [StayOf(sample)]
    else
      var stay := stays[|stays| - 1];
      if Continues(stay, sample) then stays[..|stays| - 1] + [stay.(last := Seconds(sample.at))]
      else stays + [StayOf(sample).(jump := IsBreak(stay, StayOf(sample)))]
  }

  /** What a trail's stays are after some more samples. */
  function Extended(stays: seq<TrailPoint>, samples: seq<Sample>): seq<TrailPoint> {
    if samples == [] then stays
    else AddSample(Extended(stays, samples[..|samples| - 1]), samples[|samples| - 1])
  }

  method ExtendStays(stays: seq<TrailPoint>, samples: seq<Sample>) returns (r: seq<TrailPoint>)
    ensures r == Extended(stays, samples)
  {
    r := stays;
    for n := 0 to |samples|
      invariant r == Extended(stays, samples[..n])
    {
      assert samples[..n + 1][..n] == samples[..n];
      var sample := samples[n];
      var at := Seconds(sample.at);
      if r != [] && Continues(r[|r| - 1], sample) {
        r := r[|r| - 1 := r[|r| - 1].(last := at)];
      } else {
        var next := StayOf(sample);
        if r != [] {
          next := next.(jump := IsBreak(r[|r| - 1], next));
        }
        r := r + [next];
      }
    }
    assert samples[..|samples|] == samples;
  }

  // ----- Extending in parts -----

  /** Extending by one stretch of samples and then by another is extending by both. */
  lemma {:induction false} ExtendedInParts(stays: seq<TrailPoint>, a: seq<Sample>, b: seq<Sample>)
    ensures Extended(Extended(stays, a), b) == Extended(stays, a + b)
    decreases |b|
  {
    if b == [] {
      assert a + b == a;
    } else {
      assert (a + b)[..|a + b| - 1] == a + b[..|b| - 1];
      ExtendedInParts(stays, a, b[..|b| - 1]);
    }
  }

  lemma AddAfterPrefix(prefix: seq<TrailPoint>, stays: seq<TrailPoint>, sample: Sample)
    requires stays != []
    ensures AddSample(prefix + stays, sample) == prefix + AddSample(stays, sample)
    ensures AddSample(stays, sample) != []
  {
    var whole := prefix + stays;
    assert whole[|whole| - 1] == stays[|stays| - 1];
    assert whole[..|whole| - 1] == prefix + stays[..|stays| - 1];
  }

  /** Only the last stay of a trail matters to what is added after it; the others stay as they are. */
  lemma {:induction false} ExtendedAfterPrefix(prefix: seq<TrailPoint>, stays: seq<TrailPoint>, samples: seq<Sample>)
    requires stays != []
    ensures Extended(prefix + stays, samples) == prefix + Extended(stays, samples)
    ensures Extended(stays, samples) != []
    decreases |samples|
  {
    if samples == [] {
    } else {
      var n := |samples| - 1;
      ExtendedAfterPrefix(prefix, stays, samples[..n]);
      AddAfterPrefix(prefix, Extended(stays, samples[..n]), samples[n]);
    }
  }

  /** The first stay of a trail can only last longer when more samples come after it. */
  lemma {:induction false} FirstStayOnlyLasts(stay: TrailPoint, samples: seq<Sample>)
    ensures var r := Extended([stay], samples);
            r != [] && r[0] == stay.(last := r[0].last)
    decreases |samples|
  {
    if samples != [] {
      FirstStayOnlyLasts(stay, samples[..|samples| - 1]);
    }
  }

  // ----- What the stays are: maximal runs of samples -----

  /** Whether a stay is that of a run of samples: on its spot, without a gap or a break in between. */
  ghost predicate StayOfRun(run: seq<Sample>, stay: TrailPoint)
    requires run != []
  {
    && stay.first == Seconds(run[0].at)
    && stay.last == Seconds(run[|run| - 1].at)
    && stay.via == run[0].via
    && (forall i | 0 <= i < |run| :: SameSpot(stay, run[i]))
    && (forall i | 0 < i < |run| :: Walked(run[i]))
    && (forall i, j | 0 <= i && j == i + 1 && j < |run| :: Seconds(run[j].at) - Seconds(run[i].at) <= TRAIL_GAP_SECS)
  }

  /** Whether a stay is that of a run, and had to begin there after the stays before it. */
  ghost predicate Follows(before: seq<TrailPoint>, stay: TrailPoint, run: seq<Sample>)
    requires run != []
  {
    && StayOfRun(run, stay)
    && if before == [] then !stay.jump
       else
         var last := before[|before| - 1];
         !Continues(last, run[0]) && stay.jump == IsBreak(last, stay)
  }

  /** Whether the stays are those of the runs, each of which had to begin where it does. */
  ghost predicate RunsOf(runs: seq<seq<Sample>>, stays: seq<TrailPoint>) {
    && |runs| == |stays|
    && (stays != [] ==>
          var n := |stays| - 1;
          runs[n] != [] && Follows(stays[..n], stays[n], runs[n]) && RunsOf(runs[..n], stays[..n]))
  }

  /** The samples of some runs, one run after the other. */
  ghost function Samples(runs: seq<seq<Sample>>): seq<Sample> {
    if runs == [] then [] else Samples(runs[..|runs| - 1]) + runs[|runs| - 1]
  }

  lemma {:induction false} ExtendedHasRuns(samples: seq<Sample>) returns (runs: seq<seq<Sample>>)
    ensures Samples(runs) == samples && RunsOf(runs, Extended([], samples))
    decreases |samples|
  {
    if samples == [] {
      return [];
    }
    var n := |samples| - 1;
    var before := ExtendedHasRuns(samples[..n]);
    runs := AddSampleKeepsRuns(before, Extended([], samples[..n]), samples[n]);
    assert samples[..n] + [samples[n]] == samples;
  }

  lemma AddSampleKeepsRuns(runs: seq<seq<Sample>>, stays: seq<TrailPoint>, sample: Sample)
    returns (after: seq<seq<Sample>>)
    requires RunsOf(runs, stays)
    ensures Samples(after) == Samples(runs) + [sample] && RunsOf(after, AddSample(stays, sample))
  {
    var n := |stays| - 1;
    if stays != [] && Continues(stays[n], sample) {
      RunGrows(stays[..n], stays[n], runs[n], sample);
      after := runs[..n] + [runs[n] + [sample]];
      assert after[..n] == runs[..n] && AddSample(stays, sample)[..n] == stays[..n];
    } else {
      after := runs + [[sample]];
      assert after[..n + 1] == runs && AddSample(stays, sample)[..n + 1] == stays;
    }
  }

  lemma RunGrows(before: seq<TrailPoint>, stay: TrailPoint, run: seq<Sample>, sample: Sample)
    requires run != [] && Follows(before, stay, run) && Continues(stay, sample)
    ensures Follows(before, stay.(last := Seconds(sample.at)), run + [sample])
  {
  }

  /** Extending by a run that had to begin where it does adds its one stay. */
  lemma {:induction false} RunIsOneStay(before: seq<TrailPoint>, stay: TrailPoint, run: seq<Sample>)
    requires run != [] && Follows(before, stay, run)
    ensures Extended(before, run) == before + [stay]
    decreases |run|
  {
    var n := |run| - 1;
    if n == 0 {
      assert run[..0] == [];
    } else {
      var shorter := stay.(last := Seconds(run[n - 1].at));
      RunShrinks(before, stay, run);
      RunIsOneStay(before, shorter, run[..n]);
      assert AddSample(before + [shorter], run[n]) == before + [stay];
    }
  }

  lemma RunShrinks(before: seq<TrailPoint>, stay: TrailPoint, run: seq<Sample>)
    requires |run| > 1 && Follows(before, stay, run)
    ensures var n := |run| - 1;
            var shorter := stay.(last := Seconds(run[n - 1].at));
            && Follows(before, shorter, run[..n])
            && Continues(shorter, run[n])
            && stay == shorter.(last := Seconds(run[n].at))
  {
  }

  lemma {:induction false} RunsDetermineStays(runs: seq<seq<Sample>>, stays: seq<TrailPoint>)
    requires RunsOf(runs, stays)
    ensures stays == Extended([], Samples(runs))
    decreases |stays|
  {
    if stays != [] {
      var n := |stays| - 1;
      RunsDetermineStays(runs[..n], stays[..n]);
      assert stays == stays[..n] + [stays[n]];
      assert Samples(runs) == Samples(runs[..n]) + runs[n];
      RunAppended(Samples(runs[..n]), runs[n], stays[..n], stays[n]);
    }
  }

  lemma RunAppended(samples: seq<Sample>, run: seq<Sample>, before: seq<TrailPoint>, stay: TrailPoint)
    requires run != [] && before == Extended([], samples) && Follows(before, stay, run)
    ensures Extended([], samples + run) == before + [stay]
  {
    RunIsOneStay(before, stay, run);
    ExtendedInParts([], samples, run);
  }

  /**
   The stays of a trail are exactly the maximal runs of its samples: runs on one spot
   without a gap or a break, each of which had to end where the next begins.
   */
  lemma StaysAreMaximalRuns(samples: seq<Sample>, stays: seq<TrailPoint>)
    ensures stays == Extended([], samples) <==> exists runs :: Samples(runs) == samples && RunsOf(runs, stays)
  {
    var r := ExtendedHasRuns(samples);
    if runs :| Samples(runs) == samples && RunsOf(runs, stays) {
      RunsDetermineStays(runs, stays);
    }
  }

  // ----- Time -----

  ghost predicate Increasing(samples: seq<Sample>) {
    forall i, j | 0 <= i < j < |samples| :: samples[i].at < samples[j].at
  }

  ghost predicate InOrder(stays: seq<TrailPoint>) {
    && (forall i | 0 <= i < |stays| :: stays[i].first <= stays[i].last)
    && (forall i, j | 0 <= i < j < |stays| :: stays[i].last <= stays[j].first)
  }

  /** Whether the stays are in order, and the last of them ends at `time`. */
  ghost predicate InOrderUpTo(stays: seq<TrailPoint>, time: int) {
    InOrder(stays) && stays != [] && stays[|stays| - 1].last == time
  }

  lemma AddKeepsOrder(stays: seq<TrailPoint>, sample: Sample, time: int)
    requires InOrderUpTo(stays, time) && time <= Seconds(sample.at)
    ensures InOrderUpTo(AddSample(stays, sample), Seconds(sample.at))
  {
  }

  /** Samples in the order of their times give stays in the order of theirs. */
  lemma {:induction false} StaysInOrder(samples: seq<Sample>)
    requires Increasing(samples) && samples != []
    ensures InOrderUpTo(Extended([], samples), Seconds(samples[|samples| - 1].at))
    decreases |samples|
  {
    var n := |samples| - 1;
    if n == 0 {
      assert samples[..0] == [];
    } else {
      StaysInOrder(samples[..n]);
      AddKeepsOrder(Extended([], samples[..n]), samples[n], Seconds(samples[n - 1].at));
    }
  }

  /** Where a stay is, and where a sample. */
  function Spot(stay: TrailPoint): (int, int, int, bool, Option<int>) {
    (stay.x, stay.y, stay.plane, stay.boat, stay.world)
  }

  function SampleSpot(sample: Sample): (int, int, int, bool, Option<int>) {
    (sample.x, sample.y, sample.plane, sample.onBoat == Some(true), sample.world)
  }

  /** Whether a stay has a sample: where it was, and when. */
  ghost predicate Has(stay: TrailPoint, sample: Sample) {
    Spot(stay) == SampleSpot(sample) && stay.first <= Seconds(sample.at) <= stay.last
  }

  ghost predicate HasSample(stays: seq<TrailPoint>, sample: Sample) {
    exists stay :: stay in stays && Has(stay, sample)
  }

  lemma AddHasSample(stays: seq<TrailPoint>, sample: Sample, time: int)
    requires stays == [] || (InOrderUpTo(stays, time) && time <= Seconds(sample.at))
    ensures HasSample(AddSample(stays, sample), sample)
    ensures forall other :: HasSample(stays, other) ==> HasSample(AddSample(stays, sample), other)
  {
    var (n, r) := (|stays|, AddSample(stays, sample));
    assert r[|r| - 1] in r && Has(r[|r| - 1], sample);
    forall other | HasSample(stays, other)
      ensures HasSample(r, other)
    {
      var stay :| stay in stays && Has(stay, other);
      var i :| 0 <= i < n && stays[i] == stay;
      assert r[i] in r && Has(r[i], other);
    }
  }

  /** Each sample is in a stay that is where it was, then. */
  lemma {:induction false} EverySampleHasStay(samples: seq<Sample>, i: nat)
    requires Increasing(samples) && i < |samples|
    ensures HasSample(Extended([], samples), samples[i])
    decreases |samples|
  {
    var n := |samples| - 1;
    if n > 0 {
      StaysInOrder(samples[..n]);
      AddHasSample(Extended([], samples[..n]), samples[n], Seconds(samples[n - 1].at));
      if i < n {
        EverySampleHasStay(samples[..n], i);
      }
    } else {
      assert samples[..0] == [] && Extended([], samples) == AddSample([], samples[0]);
      AddHasSample([], samples[0], 0);
    }
  }

  /** Whether one stay comes after another in the same place only for a reason: more than a gap, or a step that was not walked. */
  ghost predicate ApartFor(stay: TrailPoint, next: TrailPoint) {
    Spot(stay) == Spot(next) ==> next.first - stay.last > 300 || (next.via.Some? && next.via != Some(Move))
  }

  /** Two stays after one another are in one place only for a reason. */
  lemma {:induction false} StaysAreApart(samples: seq<Sample>, i: nat, j: nat)
    requires j == i + 1 < |Extended([], samples)|
    ensures ApartFor(Extended([], samples)[i], Extended([], samples)[j])
    decreases |samples|
  {
    if samples != [] {
      var n := |samples| - 1;
      if j < |Extended([], samples[..n])| {
        StaysAreApart(samples[..n], i, j);
      }
    }
  }

  // ----- Pages -----

  /** How many points of a page, from its first on, are no later than `lastAt`. */
  function KnownPoints(page: seq<Sample>, lastAt: Option<int>): (n: nat)
    ensures n <= |page|
    ensures forall i | 0 <= i < n :: lastAt.Some? && page[i].at <= lastAt.value
    ensures n < |page| ==> lastAt.None? || page[n].at > lastAt.value
  {
    if page == [] || lastAt.None? || page[0].at > lastAt.value then 0
    else 1 + KnownPoints(page[1..], lastAt)
  }

  function LastAt(page: seq<Sample>): Option<int> {
    if page == [] then None else Some(page[|page| - 1].at)
  }

  /** The stays of some pages, the newest first, and when their last point was. */
  function Joined(pages: seq<seq<Sample>>): (seq<TrailPoint>, Option<int>) {
    if pages == [] then ([], None)
    else
      var (stays, lastAt) := Joined(pages[1..]);
      var page := pages[0];
      (Extended(stays, page[KnownPoints(page, lastAt)..]), LastAt(page).OrElse(lastAt))
  }

  method JoinPages(pages: seq<seq<Sample>>) returns (stays: seq<TrailPoint>)
    ensures stays == Joined(pages).0
  {
    stays := [];
    var lastAt := None;
    for i := |pages| downto 0
      invariant (stays, lastAt) == Joined(pages[i..])
    {
      assert pages[i..][1..] == pages[i + 1..];
      var page := pages[i];
      var known := KnownPoints(page, lastAt);
      stays := ExtendStays(stays, page[known..]);
      lastAt := LastAt(page).OrElse(lastAt);
    }
  }

  /**
   Whether the pages, the newest first, are what a reader of `whole` got: each page runs
   to the end of what is left, and the ones before it reach at least to its beginning. The
   hub's pages overlap by one point, that of a page's end.
   */
  ghost predicate PagesOf(pages: seq<seq<Sample>>, whole: seq<Sample>)
    decreases |pages|, 1
  {
    if pages == [] then whole == []
    else
      && EndOf(pages[0], whole)
      && exists reach :: OthersReach(pages, whole, reach)
  }

  ghost predicate EndOf(page: seq<Sample>, whole: seq<Sample>) {
    |page| <= |whole| && forall i | 0 <= i < |page| :: page[i] == whole[|whole| - |page| + i]
  }

  /** Whether all pages but the first are those of what `whole` begins with, up to `reach`. */
  ghost predicate OthersReach(pages: seq<seq<Sample>>, whole: seq<Sample>, reach: int)
    requires pages != []
    decreases |pages|, 0
  {
    |whole| - |pages[0]| <= reach && 0 <= reach <= |whole| && PagesOf(pages[1..], whole[..reach])
  }

  lemma ExtendedInTwo(stays: seq<TrailPoint>, whole: seq<Sample>, cut: nat)
    requires cut <= |whole|
    ensures Extended(Extended(stays, whole[..cut]), whole[cut..]) == Extended(stays, whole)
  {
    ExtendedInParts(stays, whole[..cut], whole[cut..]);
    assert whole[..cut] + whole[cut..] == whole;
  }

  lemma PageExtends(page: seq<Sample>, whole: seq<Sample>, start: nat, reach: nat)
    requires start <= reach <= |whole| && page == whole[start..]
    ensures Extended(Extended([], whole[..reach]), page[reach - start..]) == Extended([], whole)
  {
    assert page[reach - start..] == whole[reach..];
    ExtendedInTwo([], whole, reach);
  }

  lemma PageMovesLastAt(page: seq<Sample>, whole: seq<Sample>, start: nat, reach: nat)
    requires start <= reach <= |whole| && page == whole[start..]
    ensures LastAt(page).OrElse(LastAt(whole[..reach])) == LastAt(whole)
  {
    if page == [] {
      assert whole[..reach] == whole;
    }
  }

  lemma KnownIsOverlap(page: seq<Sample>, lastAt: Option<int>, whole: seq<Sample>, start: nat, reach: nat)
    requires Increasing(whole) && start <= reach <= |whole|
    requires page == whole[start..] && lastAt == LastAt(whole[..reach])
    ensures KnownPoints(page, lastAt) == reach - start
  {
    var n := KnownPoints(page, lastAt);
    assert forall i | 0 <= i < |page| :: page[i] == whole[start + i];
    assert n >= reach - start;
    assert reach < |whole| ==> page[reach - start] == whole[reach];
    assert n <= reach - start;
  }

  lemma JoinedStep(pages: seq<seq<Sample>>, stays: seq<TrailPoint>, lastAt: Option<int>)
    requires pages != [] && Joined(pages[1..]) == (stays, lastAt)
    ensures Joined(pages) == (Extended(stays, pages[0][KnownPoints(pages[0], lastAt)..]), LastAt(pages[0]).OrElse(lastAt))
  {
  }

  /** A page more, when those before it give the stays up to where they reach. */
  lemma OnePageMore(pages: seq<seq<Sample>>, whole: seq<Sample>, reach: nat)
    requires Increasing(whole) && pages != [] && EndOf(pages[0], whole) && |whole| - |pages[0]| <= reach <= |whole|
    requires Joined(pages[1..]) == (Extended([], whole[..reach]), LastAt(whole[..reach]))
    ensures Joined(pages) == (Extended([], whole), LastAt(whole))
  {
    var (page, lastAt) := (pages[0], LastAt(whole[..reach]));
    var start := |whole| - |page|;
    assert page == whole[start..];
    JoinedStep(pages, Extended([], whole[..reach]), lastAt);
    KnownIsOverlap(page, lastAt, whole, start, reach);
    PageExtends(page, whole, start, reach);
    PageMovesLastAt(page, whole, start, reach);
  }

  lemma PagesReach(pages: seq<seq<Sample>>, whole: seq<Sample>) returns (reach: nat)
    requires Increasing(whole) && PagesOf(pages, whole) && pages != []
    ensures EndOf(pages[0], whole)
    ensures |whole| - |pages[0]| <= reach <= |whole| && PagesOf(pages[1..], whole[..reach]) && Increasing(whole[..reach])
  {
    reach :| OthersReach(pages, whole, reach);
  }

  /** However a trail is cut into pages, its stays are those of the whole. */
  lemma {:induction false} PagingIsInvisible(pages: seq<seq<Sample>>, whole: seq<Sample>)
    requires Increasing(whole) && PagesOf(pages, whole)
    ensures Joined(pages) == (Extended([], whole), LastAt(whole))
  {
    if pages != [] {
      var reach := PagesReach(pages, whole);
      PagingIsInvisible(pages[1..], whole[..reach]);
      OnePageMore(pages, whole, reach);
    }
  }
}
