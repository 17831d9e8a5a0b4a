/**
 The hub's XP series, a point only where the XP changed, made into rows with the XP of
 every skill (server/src/hub/xp.rs, `xp_series_to_rows`).
 */
module XpRows {
  import opened Options

  const SKILL_ORDER: seq<string> := [
    "Agility", "Attack", "Construction", "Cooking", "Crafting", "Defence", "Farming", "Firemaking",
    "Fishing", "Fletching", "Herblore", "Hitpoints", "Hunter", "Magic", "Mining", "Prayer", "Ranged",
    "Runecraft", "Slayer", "Smithing", "Strength", "Thieving", "Woodcutting", "Sailing"]

  const SKILL_COUNT: nat := 24
  const I32_MAX := 0x7fff_ffff

  datatype XpPoint = XpPoint(at: int, xp: int)

  /** The series of a skill, as the hub names it. */
  datatype XpLine = XpLine(skill: string, points: seq<XpPoint>)

  /** The series of a skill the site knows, by its place in SKILL_ORDER. */
  datatype Line = Line(skill: nat, points: seq<XpPoint>)

  datatype Row = Row(time: int, data: seq<int>)

  function LowerCase(c: char): char {
    if 'A' <= c <= 'Z' then (c as int + 32) as char else c
  }

  predicate SameIgnoringCase(a: string, b: string) {
    |a| == |b| && forall i | 0 <= i < |a| :: LowerCase(a[i]) == LowerCase(b[i])
  }

  /** Where a skill is in SKILL_ORDER, looking from `from` on. */
  function SkillIndexFrom(name: string, from: nat): (r: Option<nat>)
    ensures r.Some? ==> from <= r.value < SKILL_COUNT && SameIgnoringCase(SKILL_ORDER[r.value], name)
    ensures r.None? ==> forall i | from <= i < SKILL_COUNT :: !SameIgnoringCase(SKILL_ORDER[i], name)
    decreases SKILL_COUNT - from
  {
    if from >= SKILL_COUNT then None
    else if SameIgnoringCase(SKILL_ORDER[from], name) then Some(from)
    else SkillIndexFrom(name, from + 1)
  }

  /** The series of the skills that are known. */
  function LinesOf(series: seq<XpLine>): (r: seq<Line>)
    ensures forall l | l in r :: l.skill < SKILL_COUNT
  {
    if series == [] then []
    else
      var n := |series| - 1;
      var index := SkillIndexFrom(series[n].skill, 0);
      LinesOf(series[..n]) + if index.Some? then [Line(index.value, series[n].points)] else []
  }

  function Clamped(xp: int): int {
    if xp < 0 then 0 else if xp > I32_MAX then I32_MAX else xp
  }

  // ----- The simple definition -----

  /** The XP of a series at a time: that of its last point up to then, 0 before its first. */
  function ValueAt(points: seq<XpPoint>, time: int): int {
    if points == [] then 0
    else
      var n := |points| - 1;
      if points[n].at <= time then Clamped(points[n].xp) else ValueAt(points[..n], time)
  }

  /** The times of all points. */
  ghost function TimesOf(lines: seq<Line>): set<int> {
    set l, p | l in lines && p in l.points :: p.at
  }

  ghost predicate InTime(points: seq<XpPoint>) {
    forall i, j | 0 <= i < j < |points| :: points[i].at <= points[j].at
  }

  /** One series a skill, each in the order of time. */
  ghost predicate Proper(lines: seq<Line>) {
    && (forall i | 0 <= i < |lines| :: lines[i].skill < SKILL_COUNT && InTime(lines[i].points))
    && (forall i, j | 0 <= i < j < |lines| :: lines[i].skill != lines[j].skill)
  }

  /** A row says of every skill with a series what that is worth at the row's time, and 0 of the others. */
  ghost predicate RowRight(lines: seq<Line>, row: Row) {
    && |row.data| == SKILL_COUNT
    && (forall i | 0 <= i < |lines| && lines[i].skill < SKILL_COUNT :: row.data[lines[i].skill] == ValueAt(lines[i].points, row.time))
    && (forall skill | 0 <= skill < SKILL_COUNT && (forall i | 0 <= i < |lines| :: lines[i].skill != skill) :: row.data[skill] == 0)
  }

  /** How far two numbers are apart. */
  function Apart(m: int, n: int): nat {
    if m < n then n - m else m - n
  }

  /** A value is the number nearest to the XP of the last point up to then that fits, and 0 before the first point. */
  lemma {:induction false} ValueIsNearest(points: seq<XpPoint>, time: int, i: nat, other: int)
    requires InTime(points)
    ensures 0 <= ValueAt(points, time) <= 0x7fff_ffff
    ensures (forall j | 0 <= j < |points| :: time < points[j].at) ==> ValueAt(points, time) == 0
    ensures i < |points| && points[i].at <= time && (i + 1 < |points| ==> time < points[i + 1].at) && 0 <= other <= 0x7fff_ffff ==>
              Apart(ValueAt(points, time), points[i].xp) <= Apart(other, points[i].xp)
    decreases |points|
  {
    if points != [] {
      var n := |points| - 1;
      if i < n && points[n].at <= time {
        assert points[i + 1].at <= points[n].at;
      }
      ValueIsNearest(points[..n], time, i, other);
    }
  }

  // ----- Reading each point once -----

  /** How many points of a series are read once all up to a time are. */
  ghost predicate ReadUpTo(points: seq<XpPoint>, position: nat, time: int) {
    && position <= |points|
    && (forall i | 0 <= i < position :: points[i].at <= time)
    && (position < |points| ==> points[position].at > time)
  }

  /** The last point read has the XP of the series at that time. */
  lemma {:induction false} LastReadIsValue(points: seq<XpPoint>, position: nat, time: int)
    requires InTime(points) && ReadUpTo(points, position, time)
    ensures ValueAt(points, time) == if position == 0 then 0 else Clamped(points[position - 1].xp)
    decreases |points|
  {
    if position < |points| {
      var n := |points| - 1;
      assert points[position].at <= points[n].at;
      LastReadIsValue(points[..n], position, time);
    }
  }

  /** Reads the points of a series up to a time. Returns where it is then, and the XP, `xp` when there was no new point. */
  method ReadLine(points: seq<XpPoint>, from: nat, time: int, xp: int) returns (position: nat, value: int)
    requires from <= |points|
    ensures from <= position <= |points| && (position < |points| ==> points[position].at > time)
    ensures forall i | from <= i < position :: points[i].at <= time
    ensures value == if position == from then xp else Clamped(points[position - 1].xp)
  {
    position, value := from, xp;
    while position < |points| && points[position].at <= time
      invariant from <= position <= |points|
      invariant forall i | from <= i < position :: points[i].at <= time
      invariant value == if position == from then xp else Clamped(points[position - 1].xp)
    {
      value := Clamped(points[position].xp);
      position := position + 1;
    }
  }

  /** Where the lines are, and what is known of their skills, when all points up to a time are read. */
  ghost predicate Current(lines: seq<Line>, positions: seq<nat>, current: seq<int>, i: nat, time: int)
    requires i < |lines| == |positions| && |current| == SKILL_COUNT && lines[i].skill < SKILL_COUNT
  {
    && ReadUpTo(lines[i].points, positions[i], time)
    && current[lines[i].skill] == if positions[i] == 0 then 0 else Clamped(lines[i].points[positions[i] - 1].xp)
  }

  /** Nothing is known of a skill without a series. */
  ghost predicate OthersZero(lines: seq<Line>, current: seq<int>)
    requires |current| == SKILL_COUNT
  {
    forall skill | 0 <= skill < SKILL_COUNT && (forall i | 0 <= i < |lines| :: lines[i].skill != skill) :: current[skill] == 0
  }

  /** Whether everything up to some time that is not after `time` has been read of a line, and the skills are what they were then. */
  ghost predicate Behind(lines: seq<Line>, positions: seq<nat>, current: seq<int>, i: nat, time: int)
    requires i < |lines| == |positions| && |current| == SKILL_COUNT && lines[i].skill < SKILL_COUNT
  {
    && positions[i] <= |lines[i].points|
    && (forall k | 0 <= k < positions[i] :: lines[i].points[k].at <= time)
    && current[lines[i].skill] == if positions[i] == 0 then 0 else Clamped(lines[i].points[positions[i] - 1].xp)
  }

  ghost predicate Shaped(lines: seq<Line>, positions: seq<nat>, current: seq<int>) {
    && |positions| == |lines| && |current| == SKILL_COUNT
    && forall i | 0 <= i < |lines| :: lines[i].skill < SKILL_COUNT && positions[i] <= |lines[i].points|
  }

  /** All lines of proper series are behind a time, or have been read up to it. */
  ghost predicate AllBehind(lines: seq<Line>, positions: seq<nat>, current: seq<int>, time: int)
    requires Shaped(lines, positions, current)
  {
    OthersZero(lines, current) && forall i | 0 <= i < |lines| :: Behind(lines, positions, current, i, time)
  }

  ghost predicate AllCurrent(lines: seq<Line>, positions: seq<nat>, current: seq<int>, time: int)
    requires Shaped(lines, positions, current)
  {
    OthersZero(lines, current) && forall i | 0 <= i < |lines| :: Current(lines, positions, current, i, time)
  }

  /** The first `n` lines have been read up to a time, and the others are behind it. */
  ghost predicate PartlyRead(lines: seq<Line>, positions: seq<nat>, current: seq<int>, n: nat, time: int)
    requires Shaped(lines, positions, current)
  {
    && OthersZero(lines, current)
    && (forall i | 0 <= i < n && i < |lines| :: Current(lines, positions, current, i, time))
    && (forall i | n <= i < |lines| :: Behind(lines, positions, current, i, time))
  }

  /** Reading one more line touches no other line's skill. */
  lemma OneMoreLine(lines: seq<Line>, positions: seq<nat>, current: seq<int>, n: nat, time: int, position: nat, value: int)
    requires Shaped(lines, positions, current) && Proper(lines) && n < |lines| && PartlyRead(lines, positions, current, n, time)
    requires positions[n] <= position <= |lines[n].points|
    requires position < |lines[n].points| ==> lines[n].points[position].at > time
    requires forall i | positions[n] <= i < position :: lines[n].points[i].at <= time
    requires value == if position == positions[n] then current[lines[n].skill] else Clamped(lines[n].points[position - 1].xp)
    ensures PartlyRead(lines, positions[n := position], current[lines[n].skill := value], n + 1, time)
  {
    var (p, c) := (positions[n := position], current[lines[n].skill := value]);
    assert Behind(lines, positions, current, n, time);
    forall i | 0 <= i < n
      ensures Current(lines, p, c, i, time)
    {
      assert Current(lines, positions, current, i, time) && lines[i].skill != lines[n].skill;
    }
    forall i | n + 1 <= i < |lines|
      ensures Behind(lines, p, c, i, time)
    {
      assert Behind(lines, positions, current, i, time) && lines[n].skill != lines[i].skill;
    }
  }

  /** Reads every line up to a time. */
  method ReadLines(lines: seq<Line>, positions: seq<nat>, current: seq<int>, time: int)
    returns (positions': seq<nat>, current': seq<int>)
    requires Shaped(lines, positions, current)
    ensures Shaped(lines, positions', current')
    ensures Proper(lines) && AllBehind(lines, positions, current, time) ==> AllCurrent(lines, positions', current', time)
  {
    positions', current' := positions, current;
    for n := 0 to |lines|
      invariant Shaped(lines, positions', current')
      invariant Proper(lines) && AllBehind(lines, positions, current, time) ==> PartlyRead(lines, positions', current', n, time)
    {
      var Line(skill, points) := lines[n];
      var position, value := ReadLine(points, positions'[n], time, current'[skill]);
      if Proper(lines) && AllBehind(lines, positions, current, time) {
        OneMoreLine(lines, positions', current', n, time, position, value);
      }
      positions' := positions'[n := position];
      current' := current'[skill := value];
    }
  }

  /** What has been read up to a time is behind any later one. */
  lemma CurrentIsBehind(lines: seq<Line>, positions: seq<nat>, current: seq<int>, time: int, later: int)
    requires Shaped(lines, positions, current) && AllCurrent(lines, positions, current, time) && time <= later
    ensures AllBehind(lines, positions, current, later)
  {
    forall i | 0 <= i < |lines|
      ensures Behind(lines, positions, current, i, later)
    {
      assert Current(lines, positions, current, i, time);
    }
  }

  lemma {:induction false} LeastOf(times: set<int>) returns (least: int)
    requires times != {}
    ensures least in times && forall t | t in times :: least <= t
    decreases |times|
  {
    if forall t: int :: t !in times {
      assert false;
    }
    var t :| t in times;
    if times == {t} {
      least := t;
    } else {
      var rest := LeastOf(times - {t});
      least := if t < rest then t else rest;
      assert forall u | u in times :: u == t || u in times - {t};
    }
  }

  ghost predicate Ascending(rows: seq<Row>) {
    forall i, j | 0 <= i < j < |rows| :: rows[i].time < rows[j].time
  }

  method Times(lines: seq<Line>) returns (times: set<int>)
    ensures times == TimesOf(lines)
  {
    times := {};
    for n := 0 to |lines|
      invariant times == TimesOf(lines[..n])
    {
      var points := lines[n].points;
      assert lines[..n + 1] == lines[..n] + [lines[n]];
      for m := 0 to |points|
        invariant times == TimesOf(lines[..n]) + set p | p in points[..m] :: p.at
      {
        assert points[..m + 1] == points[..m] + [points[m]];
        times := times + {points[m].at};
      }
      assert points[..|points|] == points;
    }
    assert lines[..|lines|] == lines;
  }

  ghost function RowTimes(rows: seq<Row>): set<int> {
    set row | row in rows :: row.time
  }

  /** The rows so far are those of the times that have had their turn, all before those that have not. */
  ghost predicate RowsFor(rows: seq<Row>, all: set<int>, left: set<int>) {
    && Ascending(rows)
    && left <= all && RowTimes(rows) == all - left
    && forall row, t | row in rows && t in left :: row.time < t
  }

  lemma OneMoreRow(rows: seq<Row>, all: set<int>, left: set<int>, row: Row)
    requires RowsFor(rows, all, left) && row.time in left && forall t | t in left :: row.time <= t
    ensures RowsFor(rows + [row], all, left - {row.time})
  {
    var more := rows + [row];
    assert forall r :: r in more <==> r in rows || r == row;
    assert RowTimes(more) == RowTimes(rows) + {row.time} by {
      assert row in more;
    }
    assert forall i | 0 <= i < |rows| :: rows[i] in rows;
  }

  /**
   One row for each time at which something changed, in order; and when each skill has one
   series, in order, every row says what the skills are worth at its time.
   */
  method XpSeriesToRows(series: seq<XpLine>) returns (rows: seq<Row>)
    ensures Ascending(rows) && RowTimes(rows) == TimesOf(LinesOf(series))
    ensures Proper(LinesOf(series)) ==> forall row | row in rows :: RowRight(LinesOf(series), row)
  {
    var lines := LinesOf(series);
    var times := Times(lines);
    var positions: seq<nat> := seq(|lines|, i => 0);
    var current: seq<int> := seq(SKILL_COUNT, i => 0);
    rows := [];
    while times != {}
      invariant RowsFor(rows, TimesOf(lines), times)
      invariant Shaped(lines, positions, current)
      invariant Proper(lines) ==> forall t | t in times :: AllBehind(lines, positions, current, t)
      invariant Proper(lines) ==> forall row | row in rows :: RowRight(lines, row)
    {
      ghost var least := LeastOf(times);
      var time :| time in times && forall t | t in times :: time <= t;
      positions, current := ReadLines(lines, positions, current, time);
      var row := Row(time, current);
      OneMoreRow(rows, TimesOf(lines), times, row);
      rows := rows + [row];
      times := times - {time};
      if Proper(lines) {
        RowIsRight(lines, positions, row);
        forall t | t in times
          ensures AllBehind(lines, positions, current, t)
        {
          CurrentIsBehind(lines, positions, current, time, t);
        }
      }
    }
  }

  lemma RowIsRight(lines: seq<Line>, positions: seq<nat>, row: Row)
    requires Proper(lines) && Shaped(lines, positions, row.data) && AllCurrent(lines, positions, row.data, row.time)
    ensures RowRight(lines, row)
  {
    forall i | 0 <= i < |lines|
      ensures row.data[lines[i].skill] == ValueAt(lines[i].points, row.time)
    {
      assert Current(lines, positions, row.data, i, row.time);
      LastReadIsValue(lines[i].points, positions[i], row.time);
    }
  }
}
