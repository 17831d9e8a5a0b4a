/**
 How long a stay is needed as a trail is thinned, level by level
 (server/src/hub/trails.rs).
 */
module Weighing {
  import opened TrailPoints

  /** What a thinned trail may lose: how far off its line may be, and how long it may take between two points. */
  datatype Level = Level(tiles: real, seconds: int)

  const THIN_LEVELS: seq<Level> := [
    Level(1.0, 60), Level(2.0, 60), Level(3.0, 60), Level(4.0, 60), Level(4.0, 120),
    Level(4.0, 300), Level(4.0, 600), Level(4.0, 1800), Level(4.0, 3600), Level(4.0, 21600)]

  /** What an end weighs: above every level. */
  const ALWAYS: nat := 10
  const MAX_WEIGHED_POINTS: nat := 2048

  // ----- One part of a walk -----

  /** How many of the levels a line that is off by the root of `offSquared` is too far off for. */
  function LevelsForTheWay(levels: seq<Level>, offSquared: real): (n: nat)
    ensures n <= |levels|
  {
    if levels == [] then 0
    else
      var n := LevelsForTheWay(levels[..|levels| - 1], offSquared);
      if offSquared > Square(levels[|levels| - 1].tiles) then n + 1 else n
  }

  /** How many of the levels a step of so many seconds takes too long for. */
  function LevelsForTheTime(levels: seq<Level>, long: int): (n: nat)
    ensures n <= |levels|
  {
    if levels == [] then 0
    else
      var n := LevelsForTheTime(levels[..|levels| - 1], long);
      if long > levels[|levels| - 1].seconds then n + 1 else n
  }

  /**
   The stay between `a` and `i` that the line from a to b is furthest off for, the first
   of those, and the square of how far; the stay after `a` when it is not off for any.
   */
  function Furthest(points: seq<TrailPoint>, a: nat, b: nat, i: nat): (r: (nat, real))
    requires a + 1 <= i <= b < |points|
    ensures a < r.0 && (r.0 < i || r.0 == a + 1)
    decreases i
  {
    if i == a + 1 then (a + 1, 0.0)
    else
      var (furthest, off) := Furthest(points, a, b, i - 1);
      var distance := OffSquared(points[a], points[b], points[i - 1]);
      if distance > off then (i - 1, distance) else (furthest, off)
  }

  /** The first of the stays from `i` up to `b` that doesn't begin before `time`. */
  function FirstFrom(points: seq<TrailPoint>, i: nat, b: nat, time: int): (r: nat)
    requires i <= b < |points|
    ensures i <= r <= b
    decreases b - i
  {
    if i == b || points[i].first >= time then i else FirstFrom(points, i + 1, b, time)
  }

  function Min(m: nat, n: nat): nat {
    if n < m then n else m
  }

  /** How the part between two kept stays is split, if it is: where, and the weight of that stay. */
  datatype Split = Split(at: nat, weight: nat)

  /** Where a part is split and how much that stay weighs: by need, or in the middle when the part is too long to look at. */
  function SplitOf(points: seq<TrailPoint>, a: nat, b: nat, limit: nat): (r: Split)
    requires a + 2 <= b < |points|
    ensures a < r.at < b
    ensures r.weight <= limit
  {
    if b - a > MAX_WEIGHED_POINTS then Split(a + (b - a) / 2, limit) else SplitByNeed(points, a, b, limit)
  }

  function SplitByNeed(points: seq<TrailPoint>, a: nat, b: nat, limit: nat): (r: Split)
    requires a + 2 <= b < |points|
    ensures a < r.at < b
    ensures r.weight <= limit
  {
    var (furthest, off) := Furthest(points, a, b, b);
    var long := points[b].first - points[a].last;
    var forTheWay := LevelsForTheWay(THIN_LEVELS, off);
    var forTheTime := LevelsForTheTime(THIN_LEVELS, long);
    var weight := Min(if forTheWay < forTheTime then forTheTime else forTheWay, limit);
    var at :=
      if forTheWay >= forTheTime then furthest
      else Min(FirstFrom(points, a + 1, b, points[a].last + long / 2), b - 1);
    Split(at, weight)
  }

  // ----- A walk -----

  /** The weights after the part from a to b has been weighed, along with all it is split into. */
  function WalkWeights(points: seq<TrailPoint>, a: nat, b: nat, limit: nat, weights: seq<nat>): (r: seq<nat>)
    requires a <= b < |points| == |weights| && limit > 0
    ensures |r| == |weights|
    ensures forall k | 0 <= k < |weights| && (k <= a || b <= k) :: r[k] == weights[k]
    decreases b - a
  {
    if b - a < 2 then weights
    else
      var split := SplitOf(points, a, b, limit);
      if split.weight == 0 then weights
      else
        var right := WalkWeights(points, split.at, b, split.weight, weights[split.at := split.weight]);
        WalkWeights(points, a, split.at, split.weight, right)
  }

  /** A part of a walk that is still to be weighed. */
  datatype Part = Part(a: nat, b: nat, limit: nat)

  ghost predicate PartsOf(points: seq<TrailPoint>, parts: seq<Part>) {
    forall i | 0 <= i < |parts| :: parts[i].a <= parts[i].b < |points| && parts[i].limit > 0
  }

  /** The weights after all the parts on the stack have been weighed, the top one first. */
  ghost function StackWeights(points: seq<TrailPoint>, parts: seq<Part>, weights: seq<nat>): (r: seq<nat>)
    requires PartsOf(points, parts) && |weights| == |points|
    ensures |r| == |weights|
    decreases |parts|
  {
    if parts == [] then weights
    else
      var top := parts[|parts| - 1];
      StackWeights(points, parts[..|parts| - 1], WalkWeights(points, top.a, top.b, top.limit, weights))
  }

  /** What is left to do: a part is split into two that have one step less between them. */
  ghost function StackSize(parts: seq<Part>): nat {
    if parts == [] then 0
    else
      var top := parts[|parts| - 1];
      StackSize(parts[..|parts| - 1]) + if top.a < top.b then 2 * (top.b - top.a) - 1 else 1
  }

  method FindSplit(points: seq<TrailPoint>, a: nat, b: nat, limit: nat) returns (split: Split)
    requires a + 2 <= b < |points|
    ensures split == SplitOf(points, a, b, limit)
  {
    if b - a > MAX_WEIGHED_POINTS {
      return Split(a + (b - a) / 2, limit);
    }
    var furthest, off := a + 1, 0.0;
    for i := a + 1 to b
      invariant (furthest, off) == Furthest(points, a, b, i)
    {
      var distance := OffSquared(points[a], points[b], points[i]);
      if distance > off {
        furthest, off := i, distance;
      }
    }
    var long := points[b].first - points[a].last;
    var forTheWay := LevelsForTheWay(THIN_LEVELS, off);
    var forTheTime := LevelsForTheTime(THIN_LEVELS, long);
    var weight := Min(if forTheWay < forTheTime then forTheTime else forTheWay, limit);
    var at;
    if forTheWay >= forTheTime {
      at := furthest;
    } else {
      var halfway := points[a].last + long / 2;
      at := Min(FirstFrom(points, a + 1, b, halfway), b - 1);
    }
    return Split(at, weight);
  }

  lemma OnTop(points: seq<TrailPoint>, parts: seq<Part>, top: Part, weights: seq<nat>)
    requires PartsOf(points, parts + [top]) && |weights| == |points|
    ensures PartsOf(points, parts) && top.a <= top.b < |points| && top.limit > 0
    ensures StackSize(parts + [top]) == StackSize(parts) + if top.a < top.b then 2 * (top.b - top.a) - 1 else 1
    ensures StackWeights(points, parts + [top], weights) ==
            StackWeights(points, parts, WalkWeights(points, top.a, top.b, top.limit, weights))
  {
    assert (parts + [top])[..|parts|] == parts;
    assert (parts + [top])[|parts|] == top;
    forall i | 0 <= i < |parts|
      ensures parts[i].a <= parts[i].b < |points| && parts[i].limit > 0
    {
      assert (parts + [top])[i] == parts[i];
    }
  }

  lemma TwoParts(points: seq<TrailPoint>, left: Part, right: Part, weights: seq<nat>)
    requires |weights| == |points|
    requires left.a < left.b == right.a < right.b < |points| && left.limit > 0 && right.limit > 0
    ensures var halves := [left, right];
            && PartsOf(points, halves)
            && StackSize(halves) == 2 * (right.b - left.a) - 2
            && StackWeights(points, halves, weights) ==
                 WalkWeights(points, left.a, left.b, left.limit,
                   WalkWeights(points, right.a, right.b, right.limit, weights))
  {
    assert [left, right] == [left] + [right];
    OnTop(points, [left], right, weights);
    assert [left] == [] + [left];
    OnTop(points, [], left, WalkWeights(points, right.a, right.b, right.limit, weights));
  }

  /** Weighs one part from the stack. Returns the parts it was split into. */
  method WeighPart(points: seq<TrailPoint>, part: Part, weights: array<nat>) returns (halves: seq<Part>)
    requires part.a <= part.b < |points| == weights.Length && part.limit > 0
    modifies weights
    ensures PartsOf(points, halves)
    ensures StackSize(halves) < if part.a < part.b then 2 * (part.b - part.a) - 1 else 1
    ensures StackWeights(points, halves, weights[..]) ==
            WalkWeights(points, part.a, part.b, part.limit, old(weights[..]))
  {
    var Part(a, b, limit) := part;
    if b - a < 2 {
      return [];
    }
    var split := FindSplit(points, a, b, limit);
    if split.weight == 0 {
      return [];
    }
    weights[split.at] := split.weight;
    assert weights[..] == old(weights[..])[split.at := split.weight];
    halves := [Part(a, split.at, split.weight), Part(split.at, b, split.weight)];
    TwoParts(points, halves[0], halves[1], weights[..]);
  }

  lemma {:induction false} StackWeightsInParts(points: seq<TrailPoint>, parts: seq<Part>, more: seq<Part>, weights: seq<nat>)
    requires PartsOf(points, parts) && PartsOf(points, more) && |weights| == |points|
    ensures StackSize(parts + more) == StackSize(parts) + StackSize(more)
    ensures StackWeights(points, parts + more, weights) ==
            StackWeights(points, parts, StackWeights(points, more, weights))
    decreases |more|
  {
    var n := |more| - 1;
    if more == [] {
      assert parts + more == parts;
    } else {
      assert (parts + more)[..|parts| + n] == parts + more[..n];
      StackWeightsInParts(points, parts, more[..n], WalkWeights(points, more[n].a, more[n].b, more[n].limit, weights));
    }
  }

  method WeighWalk(points: seq<TrailPoint>, from: nat, to: nat, weights: array<nat>)
    requires from <= to < |points| == weights.Length
    modifies weights
    ensures weights[..] == WalkWeights(points, from, to, ALWAYS, old(weights[..]))
  {
    var parts := [Part(from, to, ALWAYS)];
    assert parts[..0] == [];
    while parts != []
      invariant PartsOf(points, parts)
      invariant StackWeights(points, parts, weights[..]) == WalkWeights(points, from, to, ALWAYS, old(weights[..]))
      decreases StackSize(parts)
    {
      var part := parts[|parts| - 1];
      parts := parts[..|parts| - 1];
      var halves := WeighPart(points, part, weights);
      StackWeightsInParts(points, parts, halves, weights[..]);
      parts := parts + halves;
    }
  }

  // ----- A whole trail -----

  /** Whether both sides of the step to `to` are needed at every level: a break, or another floor. */
  predicate EndsWalk(points: seq<TrailPoint>, to: nat)
    requires 0 < to < |points|
  {
    points[to].jump || points[to].plane != points[to - 1].plane
  }

  /** Weights brought to the length of the trail, like Rust's Vec::resize. */
  function Resized(weights: seq<nat>, length: nat): (r: seq<nat>)
    ensures |r| == length
  {
    if length <= |weights| then weights[..length]
    else weights + seq(length - |weights|, i => 0)
  }

  /** The weights after the rest of the trail, from the step to `to` on, has been weighed; a walk began at `start`. */
  function RestWeights(points: seq<TrailPoint>, start: nat, to: nat, weights: seq<nat>): (r: seq<nat>)
    requires start < to <= |points| == |weights|
    ensures |r| == |weights|
    decreases |points| - to
  {
    if to == |points| then weights
    else if EndsWalk(points, to) then
      RestWeights(points, to, to + 1, WalkWeights(points, start, to - 1, ALWAYS, weights[to - 1 := ALWAYS][to := ALWAYS]))
    else if to == |points| - 1 then
      RestWeights(points, start, to + 1, WalkWeights(points, start, to, ALWAYS, weights))
    else
      RestWeights(points, start, to + 1, weights)
  }

  /** The weights of a trail of which the stays before `from` were weighed before. */
  function Weights(points: seq<TrailPoint>, from: nat, weights: seq<nat>): (r: seq<nat>)
    requires points != [] ==> from < |points|
    ensures |r| == |points|
  {
    var resized := Resized(weights, |points|);
    if points == [] then resized
    else RestWeights(points, from, from + 1, resized[from := ALWAYS][|points| - 1 := ALWAYS])
  }

  method Weigh(points: seq<TrailPoint>, from: nat, weights: seq<nat>) returns (r: seq<nat>)
    requires points != [] ==> from < |points|
    ensures r == Weights(points, from, weights)
  {
    var resized := Resized(weights, |points|);
    if points == [] {
      return resized;
    }
    var last := |points| - 1;
    var w := new nat[|points|](i requires 0 <= i < |resized| => resized[i]);
    assert w[..] == resized;
    w[from] := ALWAYS;
    w[last] := ALWAYS;
    assert w[..] == resized[from := ALWAYS][last := ALWAYS];
    var start := from;
    for to := from + 1 to |points|
      invariant start < to
      invariant RestWeights(points, start, to, w[..]) == Weights(points, from, weights)
    {
      if EndsWalk(points, to) {
        ghost var before: seq<nat> := w[..];
        w[to - 1] := ALWAYS;
        w[to] := ALWAYS;
        assert w[..] == before[to - 1 := ALWAYS][to := ALWAYS];
        WeighWalk(points, start, to - 1, w);
        start := to;
      } else if to == last {
        WeighWalk(points, start, to, w);
      }
    }
    return w[..];
  }
}
