/**
 Where a player is seen live, and that joined with the hub's history
 (site/src/canvas-map/trail-model.js, `observeLive` and `mergeTrail`).
 */
module LiveTrail {
  import opened Options
  import opened TrailWire
  import opened SiteTrail
  import opened Replay

  const LIVE_MAX_POINTS: nat := 240
  const LIVE_MAX_AGE_S: real := 3600.0
  const MARKER_LAG_S: real := 15.0

  /** Where a player is seen. */
  datatype Seen = Seen(x: int, y: int, plane: int, boat: bool, world: Option<int>)

  predicate SameTile(p: SitePoint, x: int, y: int, plane: int) {
    p.x == x && p.y == y && p.plane == plane
  }

  /** Where a point is, for a player or a player on a boat. */
  function Spot(p: SitePoint): (int, int, int, bool) {
    (p.x, p.y, p.plane, p.boat)
  }

  function LivePoint(seen: Seen, t: real): SitePoint {
    SitePoint(seen.x, seen.y, seen.plane, t, t, seen.boat, seen.world, None, true)
  }

  /** Whether a sighting is one more of the stay the buffer ends with. */
  predicate GoesOn(points: seq<SitePoint>, seen: Seen, back: bool) {
    && !back && points != []
    && var last := points[|points| - 1];
       SameTile(last, seen.x, seen.y, seen.plane) && last.boat == seen.boat
  }

  /** The buffer with a sighting noted. */
  function Noted(points: seq<SitePoint>, seen: Seen, now: real, back: bool): seq<SitePoint> {
    var n := |points|;
    if GoesOn(points, seen, back) then points[n - 1 := points[n - 1].(t1 := MaxReal(points[n - 1].t1, now))]
    else points + [LivePoint(seen, if n > 0 then MaxReal(now, points[n - 1].t1) else now)]
  }

  /** How many points go: those over the limit, and then those that are too old, the last one aside. */
  function TooOld(points: seq<SitePoint>, drop: nat, oldest: real): (r: nat)
    requires drop <= |points|
    ensures drop <= r <= |points|
    decreases |points| - drop
  {
    if drop < |points| - 1 && points[drop].t1 < oldest then TooOld(points, drop + 1, oldest) else drop
  }

  function OverLimit(count: nat, maxPoints: nat): nat {
    if count > maxPoints then count - maxPoints else 0
  }

  function Observed(points: seq<SitePoint>, seen: Seen, now: real, maxPoints: nat, maxAge: real, back: bool): seq<SitePoint> {
    var noted := Noted(points, seen, now, back);
    noted[TooOld(noted, OverLimit(|noted|, maxPoints), now - maxAge)..]
  }

  class LiveBuffer {
    var points: seq<SitePoint>

    constructor ()
      ensures points == []
    {
      points := [];
    }

    /** Notes where a player is now. Returns whether that added a point. */
    method Observe(seen: Seen, now: real, maxPoints: nat, maxAge: real, back: bool) returns (moved: bool)
      modifies this
      ensures points == Observed(old(points), seen, now, maxPoints, maxAge, back)
      ensures moved <==> back || old(points) == [] || Spot(old(points)[|old(points)| - 1]) != (seen.x, seen.y, seen.plane, seen.boat)
    {
      moved := false;
      var n := |points|;
      if !back && n > 0 && SameTile(points[n - 1], seen.x, seen.y, seen.plane) && points[n - 1].boat == seen.boat {
        var last := points[n - 1];
        points := points[n - 1 := last.(t1 := MaxReal(last.t1, now))];
      } else {
        var time := if n > 0 then MaxReal(now, points[n - 1].t1) else now;
        points := points + [LivePoint(seen, time)];
        moved := true;
      }
      var drop := OverLimit(|points|, maxPoints);
      while drop < |points| - 1 && points[drop].t1 < now - maxAge
        invariant drop <= |points|
        invariant points == Noted(old(points), seen, now, back)
        invariant TooOld(points, drop, now - maxAge) == TooOld(points, OverLimit(|points|, maxPoints), now - maxAge)
      {
        drop := drop + 1;
      }
      points := points[drop..];
    }
  }

  // ----- What the buffer keeps -----

  lemma NotedIsOrdered(points: seq<SitePoint>, seen: Seen, now: real, back: bool)
    requires Ordered(points)
    ensures Ordered(Noted(points, seen, now, back))
  {
    var noted := Noted(points, seen, now, back);
    var n := |points|;
    if n > 0 && !GoesOn(points, seen, back) {
      assert forall i | 0 <= i < n - 1 :: points[i].t1 <= points[n - 1].t0 <= points[n - 1].t1;
    }
  }

  lemma {:induction false} TooOldAreOld(points: seq<SitePoint>, drop: nat, oldest: real)
    requires drop <= |points|
    ensures var r := TooOld(points, drop, oldest);
            && (forall i | drop <= i < r :: points[i].t1 < oldest)
            && (r < |points| - 1 ==> points[r].t1 >= oldest)
            && (drop < |points| ==> r < |points|)
    decreases |points| - drop
  {
    if drop < |points| - 1 && points[drop].t1 < oldest {
      TooOldAreOld(points, drop + 1, oldest);
    }
  }

  /** Whether the newest stay is where a player was seen, up to then. */
  ghost predicate EndsWith(points: seq<SitePoint>, seen: Seen, now: real) {
    && points != []
    && var last := points[|points| - 1];
       SameTile(last, seen.x, seen.y, seen.plane) && last.boat == seen.boat && last.t1 >= now
  }

  lemma DroppingKeepsOrder(points: seq<SitePoint>, drop: nat, oldest: real)
    requires Ordered(points) && drop <= |points|
    ensures var kept := points[TooOld(points, drop, oldest)..];
            Ordered(kept) && forall i | 0 <= i < |kept| - 1 :: kept[i].t1 >= oldest
  {
    TooOldAreOld(points, drop, oldest);
    var r := TooOld(points, drop, oldest);
    forall i | r <= i < |points| - 1
      ensures points[i].t1 >= oldest
    {
      if i > r {
        assert points[r].t1 <= points[i].t0 <= points[i].t1;
      }
    }
  }

  lemma NotedEnds(points: seq<SitePoint>, seen: Seen, now: real, back: bool)
    ensures EndsWith(Noted(points, seen, now, back), seen, now)
  {
  }

  ghost predicate SuffixOfPoints(suffix: seq<SitePoint>, whole: seq<SitePoint>) {
    |suffix| <= |whole| && suffix == whole[|whole| - |suffix|..]
  }

  /**
   What may be left of a buffer: its end, in order, no more than the limit, with only the
   newest stay older than `oldest`, the rest of the older ones gone, and no others but for
   the limit; and the newest stay is still where the player was seen.
   */
  ghost predicate WellTrimmed(r: seq<SitePoint>, points: seq<SitePoint>, seen: Seen, now: real, maxPoints: nat, oldest: real) {
    && SuffixOfPoints(r, points) && Ordered(r) && |r| <= maxPoints
    && (forall i | 0 <= i < |r| - 1 :: r[i].t1 >= oldest)
    && (|points| <= maxPoints ==> forall i | 0 <= i < |points| - |r| :: points[i].t1 < oldest)
    && (maxPoints > 0 ==> EndsWith(r, seen, now))
  }

  lemma TrimmingKeepsOrder(points: seq<SitePoint>, seen: Seen, now: real, maxPoints: nat, oldest: real)
    requires Ordered(points) && EndsWith(points, seen, now)
    ensures WellTrimmed(points[TooOld(points, OverLimit(|points|, maxPoints), oldest)..], points, seen, now, maxPoints, oldest)
  {
    var drop := OverLimit(|points|, maxPoints);
    DroppingKeepsOrder(points, drop, oldest);
    TooOldAreOld(points, drop, oldest);
    var dropped := TooOld(points, drop, oldest);
    assert |points[dropped..]| == |points| - dropped <= maxPoints;
    assert maxPoints > 0 ==> points[dropped..][|points| - dropped - 1] == points[|points| - 1];
  }

  /**
   Noting a sighting, whatever the clock says, leaves a buffer in order that ends where the
   player was seen and has lost no more than it must of what was noted.
   */
  lemma ObservingKeepsOrder(points: seq<SitePoint>, seen: Seen, now: real, maxPoints: nat, maxAge: real, back: bool)
    requires Ordered(points)
    ensures WellTrimmed(Observed(points, seen, now, maxPoints, maxAge, back), Noted(points, seen, now, back),
                        seen, now, maxPoints, now - maxAge)
  {
    NotedIsOrdered(points, seen, now, back);
    NotedEnds(points, seen, now, back);
    TrimmingKeepsOrder(Noted(points, seen, now, back), seen, now, maxPoints, now - maxAge);
  }

  datatype Sighting = Sighting(seen: Seen, now: real, back: bool)

  /** The buffer after some sightings, with the limits there are. */
  function AfterSightings(sightings: seq<Sighting>): seq<SitePoint> {
    if sightings == [] then []
    else
      var s := sightings[|sightings| - 1];
      Observed(AfterSightings(sightings[..|sightings| - 1]), s.seen, s.now, LIVE_MAX_POINTS, LIVE_MAX_AGE_S, s.back)
  }

  /** Over any sightings the buffer stays in order and within its limit, and ends where the player was seen last. */
  lemma {:induction false} BufferStaysInOrder(sightings: seq<Sighting>)
    ensures var r := AfterSightings(sightings);
            && Ordered(r) && |r| <= LIVE_MAX_POINTS
            && (sightings != [] ==>
                  EndsWith(r, sightings[|sightings| - 1].seen, sightings[|sightings| - 1].now))
    decreases |sightings|
  {
    if sightings != [] {
      var n := |sightings| - 1;
      var s := sightings[n];
      BufferStaysInOrder(sightings[..n]);
      ObservingKeepsOrder(AfterSightings(sightings[..n]), s.seen, s.now, LIVE_MAX_POINTS, LIVE_MAX_AGE_S, s.back);
    }
  }

  /** Whether no two stays after one another are in one place. */
  ghost predicate Moves(points: seq<SitePoint>) {
    forall i, j | 0 <= i && j == i + 1 < |points| :: Spot(points[i]) != Spot(points[j])
  }

  /** Of a player who has not been away, no two stays after one another are in one place. */
  lemma {:induction false} BufferMoves(sightings: seq<Sighting>)
    requires forall i | 0 <= i < |sightings| :: !sightings[i].back
    ensures Moves(AfterSightings(sightings))
    decreases |sightings|
  {
    if sightings != [] {
      var n := |sightings| - 1;
      BufferMoves(sightings[..n]);
      var noted := Noted(AfterSightings(sightings[..n]), sightings[n].seen, sightings[n].now, false);
      assert !sightings[n].back;
      NotedMoves(AfterSightings(sightings[..n]), sightings[n].seen, sightings[n].now);
      EndMoves(noted, TooOld(noted, OverLimit(|noted|, LIVE_MAX_POINTS), sightings[n].now - LIVE_MAX_AGE_S));
    }
  }

  lemma NotedMoves(points: seq<SitePoint>, seen: Seen, now: real)
    requires Moves(points)
    ensures Moves(Noted(points, seen, now, false))
  {
  }

  lemma EndMoves(points: seq<SitePoint>, drop: nat)
    requires Moves(points) && drop <= |points|
    ensures Moves(points[drop..])
  {
    forall i, j | 0 <= i && j == i + 1 < |points[drop..]|
      ensures Spot(points[drop..][i]) != Spot(points[drop..][j])
    {
      var (k, l) := (drop + i, drop + j);
      assert Spot(points[k]) != Spot(points[l]);
    }
  }

  // ----- Joining with the history -----

  predicate SamePlace(a: SitePoint, b: SitePoint) {
    SameTile(a, b.x, b.y, b.plane) && a.boat == b.boat
  }

  /** Whether a point comes within a gap of the end of a trail. */
  predicate Continues(merged: seq<SitePoint>, point: SitePoint) {
    merged != [] && point.t0 - merged[|merged| - 1].t1 <= GAP_S
  }

  function Appended(merged: seq<SitePoint>, point: SitePoint, continues: bool): seq<SitePoint> {
    var n := |merged|;
    if n > 0 && continues && SamePlace(merged[n - 1], point) then
      merged[n - 1 := merged[n - 1].(t1 := MaxReal(merged[n - 1].t1, point.t1))]
    else
      var t0 := if n > 0 then MaxReal(point.t0, merged[n - 1].t1) else point.t0;
      merged + [point.(t0 := t0, t1 := MaxReal(point.t1, t0))]
  }

  /** Whether a live point is later than the history: from `asOf` on, which an older server doesn't say. */
  predicate IsNews(history: seq<SitePoint>, asOf: Option<real>, point: SitePoint) {
    history == [] || (asOf.Some? && point.t0 >= asOf.value)
  }

  /** A sighting from where the span begins on. */
  function Clipped(seen: SitePoint, from: Option<real>): SitePoint {
    if from.Some? && seen.t0 < from.value then seen.(t0 := from.value) else seen
  }

  predicate InSpan(seen: SitePoint, from: Option<real>) {
    from.None? || seen.t1 >= from.value
  }

  function WithLive(history: seq<SitePoint>, live: seq<SitePoint>, asOf: Option<real>, from: Option<real>): seq<SitePoint> {
    if live == [] then history
    else
      var seen := live[|live| - 1];
      var merged := WithLive(history, live[..|live| - 1], asOf, from);
      var point := Clipped(seen, from);
      if InSpan(seen, from) && IsNews(history, asOf, point) then Appended(merged, point, Continues(merged, point)) else merged
  }

  /** Where the marker of an online player is, and since when it counts. */
  datatype Head = Head(seen: Seen, t: real)

  function Marker(head: Head): SitePoint {
    LivePoint(head.seen, head.t)
  }

  /** Whether the history, newer than the marker, ends somewhere else. */
  predicate IsBehind(history: seq<SitePoint>, live: seq<SitePoint>, marker: SitePoint, asOf: Option<real>) {
    live != [] &&
    var arrived := live[|live| - 1];
    && SamePlace(arrived, marker)
    && !IsNews(history, asOf, arrived)
    && var newest := history[|history| - 1];
       !SamePlace(newest, marker) && newest.t1 >= arrived.t0 - MARKER_LAG_S
  }

  function Merged(history: seq<SitePoint>, live: seq<SitePoint>, head: Option<Head>, asOf: Option<real>, from: Option<real>): seq<SitePoint> {
    var merged := WithLive(history, live, asOf, from);
    if head.Some? && !IsBehind(history, live, Marker(head.value), asOf) then Appended(merged, Marker(head.value), true) else merged
  }

  method MergeTrail(history: seq<SitePoint>, live: seq<SitePoint>, head: Option<Head>, asOf: Option<real>, from: Option<real>)
    returns (merged: seq<SitePoint>)
    ensures merged == Merged(history, live, head, asOf, from)
  {
    merged := history;
    for n := 0 to |live|
      invariant merged == WithLive(history, live[..n], asOf, from)
    {
      assert live[..n + 1][..n] == live[..n];
      var seen := live[n];
      if from.Some? && seen.t1 < from.value {
        continue;
      }
      var point := if from.Some? && seen.t0 < from.value then seen.(t0 := from.value) else seen;
      if IsNews(history, asOf, point) {
        merged := Appended(merged, point, Continues(merged, point));
      }
    }
    assert live[..|live|] == live;
    if head.Some? {
      var marker := Marker(head.value);
      if !IsBehind(history, live, marker, asOf) {
        merged := Appended(merged, marker, true);
      }
    }
  }

  /** Whether a trail begins with the history, the last stay of which may have lasted longer. */
  ghost predicate BeginsWith(merged: seq<SitePoint>, history: seq<SitePoint>) {
    && |history| <= |merged|
    && (forall i | 0 <= i < |history| - 1 :: merged[i] == history[i])
    && (history != [] ==>
          var n := |history| - 1;
          merged[n] == history[n].(t1 := merged[n].t1) && merged[n].t1 >= history[n].t1)
  }

  /** Whether nothing that was added begins before the span. */
  ghost predicate AddedInSpan(merged: seq<SitePoint>, history: seq<SitePoint>, from: Option<real>) {
    from.Some? ==> forall i | |history| <= i < |merged| :: merged[i].t0 >= from.value
  }

  lemma AppendKeepsOrder(merged: seq<SitePoint>, point: SitePoint, continues: bool, history: seq<SitePoint>)
    requires Ordered(merged) && point.t0 <= point.t1 && BeginsWith(merged, history)
    ensures Ordered(Appended(merged, point, continues)) && BeginsWith(Appended(merged, point, continues), history)
  {
    var n := |merged|;
    if n > 0 {
      assert forall i | 0 <= i < n - 1 :: merged[i].t1 <= merged[n - 1].t0 <= merged[n - 1].t1;
    }
  }

  /** Appending adds a point before the span exactly when it is a new one that begins before it. */
  lemma AppendInSpan(merged: seq<SitePoint>, point: SitePoint, continues: bool, history: seq<SitePoint>, from: Option<real>)
    requires AddedInSpan(merged, history, from) && |history| <= |merged|
    ensures var n := |merged|;
            AddedInSpan(Appended(merged, point, continues), history, from) <==>
              || from.None? || point.t0 >= from.value
              || (n > 0 && merged[n - 1].t1 >= from.value)
              || (n > 0 && continues && SamePlace(merged[n - 1], point))
  {
    var (n, r) := (|merged|, Appended(merged, point, continues));
    assert |r| > n ==> r[n].t0 == if n > 0 then MaxReal(point.t0, merged[n - 1].t1) else point.t0;
    assert forall i | |history| <= i < n && i < |r| :: r[i].t0 == merged[i].t0;
  }

  lemma {:induction false} WithLiveKeepsOrder(history: seq<SitePoint>, live: seq<SitePoint>, asOf: Option<real>, from: Option<real>)
    requires Ordered(history) && Ordered(live)
    ensures var merged := WithLive(history, live, asOf, from);
            Ordered(merged) && BeginsWith(merged, history) && AddedInSpan(merged, history, from)
    decreases |live|
  {
    if live != [] {
      var n := |live| - 1;
      WithLiveKeepsOrder(history, live[..n], asOf, from);
      var merged := WithLive(history, live[..n], asOf, from);
      var point := Clipped(live[n], from);
      if InSpan(live[n], from) {
        AppendKeepsOrder(merged, point, Continues(merged, point), history);
        AppendInSpan(merged, point, Continues(merged, point), history, from);
      }
    }
  }

  /**
   The history with what was seen live since keeps its stays in order, begins with the
   history, the last stay of which may have lasted longer, and ends with the marker unless
   that is behind the history.
   */
  lemma MergedTrailIsInOrder(history: seq<SitePoint>, live: seq<SitePoint>, head: Option<Head>, asOf: Option<real>, from: Option<real>)
    requires Ordered(history) && Ordered(live)
    ensures var merged := Merged(history, live, head, asOf, from);
            && Ordered(merged) && BeginsWith(merged, history)
            && (head.Some? && !IsBehind(history, live, Marker(head.value), asOf) ==>
                  merged != [] && SamePlace(merged[|merged| - 1], Marker(head.value)) && merged[|merged| - 1].t1 >= head.value.t)
  {
    WithLiveKeepsOrder(history, live, asOf, from);
    if head.Some? {
      AppendKeepsOrder(WithLive(history, live, asOf, from), Marker(head.value), true, history);
    }
  }

  /** Whether a live point is one the history is joined with. */
  predicate IsJoined(history: seq<SitePoint>, seen: SitePoint, asOf: Option<real>, from: Option<real>) {
    InSpan(seen, from) && IsNews(history, asOf, Clipped(seen, from))
  }

  ghost predicate AnyJoined(history: seq<SitePoint>, live: seq<SitePoint>, asOf: Option<real>, from: Option<real>) {
    exists i | 0 <= i < |live| :: IsJoined(history, live[i], asOf, from)
  }

  lemma AnyJoinedGrows(history: seq<SitePoint>, live: seq<SitePoint>, asOf: Option<real>, from: Option<real>)
    requires live != []
    ensures AnyJoined(history, live, asOf, from) <==>
            AnyJoined(history, live[..|live| - 1], asOf, from) || IsJoined(history, live[|live| - 1], asOf, from)
  {
    var before := live[..|live| - 1];
    assert forall i | 0 <= i < |before| :: before[i] == live[i];
    if AnyJoined(history, before, asOf, from) {
      var i :| 0 <= i < |before| && IsJoined(history, before[i], asOf, from);
      assert IsJoined(history, live[i], asOf, from);
    }
  }

  ghost predicate Reaches(trail: seq<SitePoint>, from: real) {
    trail != [] && trail[|trail| - 1].t1 >= from
  }

  lemma AppendReaches(merged: seq<SitePoint>, seen: SitePoint, continues: bool, from: real)
    requires seen.t1 >= from
    ensures Reaches(Appended(merged, Clipped(seen, Some(from)), continues), from)
  {
  }

  /** A joined live point takes the trail into the span; without one it is the history. */
  lemma {:induction false} JoinedReachSpan(history: seq<SitePoint>, live: seq<SitePoint>, asOf: Option<real>, from: real)
    ensures var seen := WithLive(history, live, asOf, Some(from));
            if AnyJoined(history, live, asOf, Some(from)) then Reaches(seen, from) else seen == history
    decreases |live|
  {
    if live != [] {
      var (before, seen) := (live[..|live| - 1], live[|live| - 1]);
      JoinedReachSpan(history, before, asOf, from);
      AnyJoinedGrows(history, live, asOf, Some(from));
      var merged := WithLive(history, before, asOf, Some(from));
      if IsJoined(history, seen, asOf, Some(from)) {
        AppendReaches(merged, seen, Continues(merged, Clipped(seen, Some(from))), from);
      }
    }
  }

  /**
   With a marker no older than the span, as the page's is, nothing that is added begins
   before the span.
   */
  lemma MergedTrailIsInSpan(history: seq<SitePoint>, live: seq<SitePoint>, head: Option<Head>, asOf: Option<real>, from: real)
    requires Ordered(history) && Ordered(live) && (head.Some? ==> head.value.t >= from)
    ensures AddedInSpan(Merged(history, live, head, asOf, Some(from)), history, Some(from))
  {
    OlderMarkerInSpan(history, live, head, asOf, from);
  }

  /**
   For any marker: nothing that is added begins before the span exactly if the marker does
   not, or is behind the history, or a live point was joined, or the history reaches the span
   or ends where the marker is.
   */
  lemma OlderMarkerInSpan(history: seq<SitePoint>, live: seq<SitePoint>, head: Option<Head>, asOf: Option<real>, from: real)
    requires Ordered(history) && Ordered(live)
    ensures AddedInSpan(Merged(history, live, head, asOf, Some(from)), history, Some(from)) <==>
              || head.None? || head.value.t >= from || IsBehind(history, live, Marker(head.value), asOf)
              || AnyJoined(history, live, asOf, Some(from))
              || Reaches(history, from) || (history != [] && SamePlace(history[|history| - 1], Marker(head.value)))
  {
    WithLiveKeepsOrder(history, live, asOf, Some(from));
    JoinedReachSpan(history, live, asOf, from);
    if head.Some? {
      AppendInSpan(WithLive(history, live, asOf, Some(from)), Marker(head.value), true, history, Some(from));
    }
  }

  /** A marker dated before the span, which the page has none of, would be such a point of its own. */
  lemma MarkerBeforeSpan(seen: Seen)
    ensures !AddedInSpan(Merged([], [], Some(Head(seen, 0.0)), None, Some(1.0)), [], Some(1.0))
  {
    OlderMarkerInSpan([], [], Some(Head(seen, 0.0)), None, 1.0);
  }

  // ----- What a joined trail is made of -----

  /** When a sighting began, in the span. */
  function Since(seen: SitePoint, from: Option<real>): real {
    if from.Some? then MaxReal(seen.t0, from.value) else seen.t0
  }

  /** Whether a sighting is of the span and, if there is a history, began when it was given or later. */
  predicate IsLater(history: seq<SitePoint>, seen: SitePoint, asOf: Option<real>, from: Option<real>) {
    && (from.Some? ==> seen.t1 >= from.value)
    && (history != [] ==> asOf.Some? && Since(seen, from) >= asOf.value)
  }

  function LaterSightings(history: seq<SitePoint>, live: seq<SitePoint>, asOf: Option<real>, from: Option<real>): set<SitePoint> {
    set i | 0 <= i < |live| && IsLater(history, live[i], asOf, from) :: live[i]
  }

  /** Whether a point is a sighting's, which begins with it, with the span, or when the player left the point before. */
  ghost predicate BeginsAs(merged: seq<SitePoint>, k: nat, seen: SitePoint, from: Option<real>)
    requires k < |merged|
  {
    && merged[k] == seen.(t0 := merged[k].t0, t1 := merged[k].t1)
    && merged[k].t0 == if k == 0 then Since(seen, from) else MaxReal(Since(seen, from), merged[k - 1].t1)
  }

  ghost predicate AddedAreSeen(merged: seq<SitePoint>, count: nat, seen: set<SitePoint>, from: Option<real>) {
    forall k | count <= k < |merged| :: IsSeen(merged, k, seen, from)
  }

  ghost predicate IsSeen(merged: seq<SitePoint>, k: nat, seen: set<SitePoint>, from: Option<real>)
    requires k < |merged|
  {
    exists p :: p in seen && BeginsAs(merged, k, p, from)
  }

  /** Whether a trail has a point, with or after the last of so many, where a sighting was and until it ended. */
  ghost predicate IsIn(merged: seq<SitePoint>, count: nat, seen: SitePoint) {
    exists k | 0 <= k < |merged| :: count <= k + 1 && Spot(merged[k]) == Spot(seen) && merged[k].t1 >= seen.t1
  }

  ghost predicate SeenAreIn(merged: seq<SitePoint>, count: nat, seen: set<SitePoint>) {
    forall p | p in seen :: IsIn(merged, count, p)
  }

  /** Whether the player was seen in a place at a moment, or no longer than a gap after it. */
  ghost predicate SeenBy(point: SitePoint, time: real, seen: set<SitePoint>, from: Option<real>) {
    exists p :: p in seen && Spot(p) == Spot(point) && Since(p, from) - GAP_S <= time <= p.t1
  }

  /** Whether at every moment of what was added the player was seen there, but for where a point begins. */
  ghost predicate NoAbsence(merged: seq<SitePoint>, history: seq<SitePoint>, seen: set<SitePoint>, from: Option<real>) {
    forall k, time {:trigger SeenBy(merged[k], time, seen, from)} | 0 <= k < |merged| && |history| <= k + 1
      && (if k < |history| then history[k].t1 else merged[k].t0) < time <= merged[k].t1 :: SeenBy(merged[k], time, seen, from)
  }

  /** Whether what was added is in one place with the point before only after more than a gap. */
  ghost predicate NoTwins(merged: seq<SitePoint>, count: nat) {
    forall i, j | 0 <= i && j == i + 1 < |merged| && count <= j && Spot(merged[i]) == Spot(merged[j]) ::
      merged[j].t0 - merged[i].t1 > GAP_S
  }

  /** Whether a trail is the history and just the stays of some sightings. */
  ghost predicate IsMadeOf(merged: seq<SitePoint>, history: seq<SitePoint>, seen: set<SitePoint>, from: Option<real>) {
    && BeginsWith(merged, history)
    && AddedAreSeen(merged, |history|, seen, from) && SeenAreIn(merged, |history|, seen)
    && NoAbsence(merged, history, seen, from) && NoTwins(merged, |history|)
  }

  lemma AppendedIsSeen(merged: seq<SitePoint>, count: nat, all: set<SitePoint>, from: Option<real>, seen: SitePoint, continues: bool)
    requires AddedAreSeen(merged, count, all, from) && count <= |merged|
    ensures AddedAreSeen(Appended(merged, Clipped(seen, from), continues), count, all + {seen}, from)
  {
    var r := Appended(merged, Clipped(seen, from), continues);
    forall k | count <= k < |r|
      ensures IsSeen(r, k, all + {seen}, from)
    {
      if k < |merged| {
        assert IsSeen(merged, k, all, from);
        var p :| p in all && BeginsAs(merged, k, p, from);
        assert BeginsAs(r, k, p, from);
      } else {
        assert BeginsAs(r, k, seen, from);
      }
    }
  }

  lemma AppendedIsIn(merged: seq<SitePoint>, count: nat, all: set<SitePoint>, from: Option<real>, seen: SitePoint, continues: bool)
    requires SeenAreIn(merged, count, all) && count <= |merged|
    ensures SeenAreIn(Appended(merged, Clipped(seen, from), continues), count, all + {seen})
  {
    var r := Appended(merged, Clipped(seen, from), continues);
    forall p | p in all + {seen}
      ensures IsIn(r, count, p)
    {
      if p in all {
        var k :| 0 <= k < |merged| && count <= k + 1 && Spot(merged[k]) == Spot(p) && merged[k].t1 >= p.t1;
        assert Spot(r[k]) == Spot(p) && r[k].t1 >= p.t1;
      } else {
        var n := |r| - 1;
        assert Spot(r[n]) == Spot(p) && r[n].t1 >= p.t1;
      }
    }
  }

  lemma AppendedNoAbsence(merged: seq<SitePoint>, history: seq<SitePoint>, all: set<SitePoint>, from: Option<real>, seen: SitePoint)
    requires NoAbsence(merged, history, all, from) && BeginsWith(merged, history)
    ensures NoAbsence(Appended(merged, Clipped(seen, from), Continues(merged, Clipped(seen, from))), history, all + {seen}, from)
  {
    var point := Clipped(seen, from);
    var r := Appended(merged, point, Continues(merged, point));
    forall k, time {:trigger SeenBy(r[k], time, all + {seen}, from)} | 0 <= k < |r| && |history| <= k + 1
      && (if k < |history| then history[k].t1 else r[k].t0) < time <= r[k].t1
      ensures SeenBy(r[k], time, all + {seen}, from)
    {
      if k < |merged| && time <= merged[k].t1 {
        assert SeenBy(merged[k], time, all, from);
        var p :| p in all && Spot(p) == Spot(merged[k]) && Since(p, from) - GAP_S <= time <= p.t1;
        assert p in all + {seen};
      } else {
        assert Spot(seen) == Spot(r[k]) && Since(seen, from) - GAP_S <= time <= seen.t1;
        assert seen in all + {seen};
      }
    }
  }

  lemma AppendedNoTwins(merged: seq<SitePoint>, count: nat, point: SitePoint)
    requires NoTwins(merged, count)
    ensures NoTwins(Appended(merged, point, Continues(merged, point)), count)
  {
  }

  lemma LaterGrow(history: seq<SitePoint>, live: seq<SitePoint>, asOf: Option<real>, from: Option<real>)
    requires live != []
    ensures var (seen, before) := (live[|live| - 1], LaterSightings(history, live[..|live| - 1], asOf, from));
            LaterSightings(history, live, asOf, from) == if IsLater(history, seen, asOf, from) then before + {seen} else before
  {
    var before := live[..|live| - 1];
    assert forall i | 0 <= i < |before| :: before[i] == live[i];
    forall p | p in LaterSightings(history, live, asOf, from)
      ensures p in LaterSightings(history, before, asOf, from) || (p == live[|live| - 1] && IsLater(history, p, asOf, from))
    {
      var i :| 0 <= i < |live| && IsLater(history, live[i], asOf, from) && p == live[i];
      assert i < |before| ==> before[i] == p;
    }
    forall p | p in LaterSightings(history, before, asOf, from)
      ensures p in LaterSightings(history, live, asOf, from)
    {
      var i :| 0 <= i < |before| && IsLater(history, before[i], asOf, from) && p == before[i];
      assert live[i] == p;
    }
  }

  /**
   What was seen live is in the trail just as far as it is of the span and began when the
   history was given, or later: each such sighting has a point, no other has one, a point
   covers no absence, and a stay that goes on has only one.
   */
  lemma {:induction false} LiveTrailIsMadeOf(history: seq<SitePoint>, live: seq<SitePoint>, asOf: Option<real>, from: Option<real>)
    requires Ordered(history) && Ordered(live)
    ensures IsMadeOf(WithLive(history, live, asOf, from), history, LaterSightings(history, live, asOf, from), from)
    decreases |live|
  {
    if live != [] {
      var (before, seen) := (live[..|live| - 1], live[|live| - 1]);
      LiveTrailIsMadeOf(history, before, asOf, from);
      LaterGrow(history, live, asOf, from);
      WithLiveKeepsOrder(history, live, asOf, from);
      if IsLater(history, seen, asOf, from) {
        AppendedIsMadeOf(WithLive(history, before, asOf, from), history, LaterSightings(history, before, asOf, from), from, seen);
      }
    }
  }

  lemma AppendedIsMadeOf(merged: seq<SitePoint>, history: seq<SitePoint>, all: set<SitePoint>, from: Option<real>, seen: SitePoint)
    requires IsMadeOf(merged, history, all, from)
    requires BeginsWith(Appended(merged, Clipped(seen, from), Continues(merged, Clipped(seen, from))), history)
    ensures IsMadeOf(Appended(merged, Clipped(seen, from), Continues(merged, Clipped(seen, from))), history, all + {seen}, from)
  {
    var point := Clipped(seen, from);
    AppendedIsSeen(merged, |history|, all, from, seen, Continues(merged, point));
    AppendedIsIn(merged, |history|, all, from, seen, Continues(merged, point));
    AppendedNoAbsence(merged, history, all, from, seen);
    AppendedNoTwins(merged, |history|, point);
  }

  /** Any other sighting could as well not have been. */
  lemma {:induction false} OthersAddNothing(history: seq<SitePoint>, live: seq<SitePoint>, i: nat, asOf: Option<real>, from: Option<real>)
    requires i < |live| && !IsLater(history, live[i], asOf, from)
    ensures WithLive(history, live[..i] + live[i + 1..], asOf, from) == WithLive(history, live, asOf, from)
    decreases |live|
  {
    var n := |live| - 1;
    var rest := live[..i] + live[i + 1..];
    if i == n {
      assert rest == live[..n];
    } else {
      OthersAddNothing(history, live[..n], i, asOf, from);
      assert rest[..n - 1] == live[..n][..i] + live[..n][i + 1..];
      assert rest[n - 1] == live[n];
    }
  }

  /**
   Whether the marker waits for the hub: the last sighting is where it is and began before
   the history was given, and the history ends in another place, no more than the marker's lag
   before that.
   */
  predicate HubIsFurther(history: seq<SitePoint>, live: seq<SitePoint>, head: Head, asOf: Option<real>) {
    && history != [] && live != []
    && var (newest, seen, place) := (history[|history| - 1], live[|live| - 1], (head.seen.x, head.seen.y, head.seen.plane, head.seen.boat));
       Spot(seen) == place && (asOf.Some? ==> seen.t0 < asOf.value) && Spot(newest) != place && seen.t0 - newest.t1 <= 15.0
  }

  /** Whether a trail ends with the marker: the last stay has gone on until then, or there is one more. */
  ghost predicate EndsAtMarker(merged: seq<SitePoint>, before: seq<SitePoint>, head: Head) {
    var place := (head.seen.x, head.seen.y, head.seen.plane, head.seen.boat);
    var n := |before|;
    if n > 0 && Spot(before[n - 1]) == place then
      merged == before[..n - 1] + [before[n - 1].(t1 := MaxReal(before[n - 1].t1, head.t))]
    else
      && |merged| == n + 1 && merged[..n] == before && Spot(merged[n]) == place && merged[n].live
      && merged[n].t0 == merged[n].t1 == if n > 0 then MaxReal(before[n - 1].t1, head.t) else head.t
  }

  /** The marker ends the trail, whatever there is before it, unless it waits for the hub, when the trail is as without it. */
  lemma MarkerEndsTrail(history: seq<SitePoint>, live: seq<SitePoint>, head: Head, asOf: Option<real>, from: Option<real>)
    ensures var before := Merged(history, live, None, asOf, from);
            var merged := Merged(history, live, Some(head), asOf, from);
            if HubIsFurther(history, live, head, asOf) then merged == before else EndsAtMarker(merged, before, head)
  {
  }

  /** The whole trail, but for the marker, is the history and what was seen since. */
  lemma MergedTrailIsMadeOf(history: seq<SitePoint>, live: seq<SitePoint>, asOf: Option<real>, from: Option<real>)
    requires Ordered(history) && Ordered(live)
    ensures IsMadeOf(Merged(history, live, None, asOf, from), history, LaterSightings(history, live, asOf, from), from)
  {
    LiveTrailIsMadeOf(history, live, asOf, from);
  }
}
