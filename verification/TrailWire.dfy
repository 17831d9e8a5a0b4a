/**
 A trail as it travels from the server to the site: written by
 server/src/hub/trails.rs (`trail_json`), read by site/src/canvas-map/trail-model.js
 (`decodeTrail`).
 */
module TrailWire {
  import opened Options
  import opened TrailPoints
  import opened Cutting

  /** What is sent: rows [x, y, plane, last, dwell, flags, via] without trailing zeros, and [index, world] where the world changes. */
  datatype Wire =
    | Wire(rows: seq<seq<int>>, worlds: seq<(int, int)>, step: int, truncated: bool, asOf: Option<real>)
    | BareRows(rows: seq<seq<int>>)  // from an older server

  /** A point on the site, which has everything one tile further north. */
  datatype SitePoint = SitePoint(
    x: int, y: int, plane: int, t0: real, t1: real, boat: bool, world: Option<int>, via: Option<Via>, live: bool)

  const FLAG_BOAT := 1
  const IDLE_S: real := 60.0

  // ----- Writing -----

  function ViaCode(via: Option<Via>): int {
    match via
    case None => 0
    case Some(Move) => 1
    case Some(Entrance) => 2
    case Some(House) => 3
    case Some(Teleport) => 4
    case Some(Gap) => 5
    case Some(Instance) => 6
    case Some(Other) => 7
  }

  function FullRow(p: TrailPoint): seq<int> {
    [p.x, p.y, p.plane, p.last, p.last - p.first, if p.boat then FLAG_BOAT else 0, ViaCode(p.via)]
  }

  /** A row without the zeros at its end, the first four entries aside. */
  function Trimmed(row: seq<int>): seq<int> {
    if |row| > 4 && row[|row| - 1] == 0 then Trimmed(row[..|row| - 1]) else row
  }

  function RowsOf(points: seq<TrailPoint>): (r: seq<seq<int>>)
    ensures |r| == |points|
  {
    if points == [] then []
    else RowsOf(points[..|points| - 1]) + [Trimmed(FullRow(points[|points| - 1]))]
  }

  /** The list of worlds after one more point. */
  function AddWorld(worlds: seq<(int, int)>, index: int, world: Option<int>): seq<(int, int)> {
    if world.Some? && (worlds == [] || worlds[|worlds| - 1].1 != world.value) then worlds + [(index, world.value)] else worlds
  }

  function WorldsOf(points: seq<TrailPoint>): seq<(int, int)> {
    if points == [] then []
    else var n := |points| - 1; AddWorld(WorldsOf(points[..n]), n, points[n].world)
  }

  /** A trail as it is sent; the hub gave its newest points at `asOf`, in milliseconds. */
  function WireOf(trail: BuiltTrail, asOf: int): Wire {
    Wire(RowsOf(trail.points), WorldsOf(trail.points), trail.step, trail.truncated, Some(asOf as real / 1000.0))
  }

  method TrailJson(trail: BuiltTrail, asOf: int) returns (wire: Wire)
    ensures wire == WireOf(trail, asOf)
  {
    var rows: seq<seq<int>> := [];
    var worlds: seq<(int, int)> := [];
    for index := 0 to |trail.points|
      invariant rows == RowsOf(trail.points[..index]) && worlds == WorldsOf(trail.points[..index])
    {
      assert trail.points[..index + 1][..index] == trail.points[..index];
      var point := trail.points[index];
      if point.world.Some? {
        if worlds == [] || worlds[|worlds| - 1].1 != point.world.value {
          worlds := worlds + [(index, point.world.value)];
        }
      }
      var entry := FullRow(point);
      while |entry| > 4 && entry[|entry| - 1] == 0
        invariant Trimmed(entry) == Trimmed(FullRow(point))
        decreases |entry|
      {
        entry := entry[..|entry| - 1];
      }
      rows := rows + [entry];
    }
    assert trail.points[..|trail.points|] == trail.points;
    return Wire(rows, worlds, trail.step, trail.truncated, Some(asOf as real / 1000.0));
  }

  // ----- Reading -----

  /** The label of a code, one the site doesn't know being one it can't tell. */
  function ViaOf(code: int): Option<Via> {
    match code
    case 0 => None
    case 1 => Some(Move)
    case 2 => Some(Entrance)
    case 3 => Some(House)
    case 4 => Some(Teleport)
    case 5 => Some(Gap)
    case 6 => Some(Instance)
    case _ => Some(Other)
  }

  /** An entry of a row, 0 when it was left out. */
  function Entry(row: seq<int>, k: nat): int {
    if k < |row| then row[k] else 0
  }

  /** The point of a row, unless one of its first four entries is missing. */
  function ReadRow(row: seq<int>, world: Option<int>): Option<SitePoint> {
    if |row| < 4 then None
    else
      var time := row[3];
      Some(SitePoint(row[0], row[1] + 1, row[2], (time - Entry(row, 4)) as real, time as real,
                     Entry(row, 5) % 2 == FLAG_BOAT, world, ViaOf(Entry(row, 6)), false))
  }

  /** How far the list of worlds is read at a row, and the world there. */
  function ScanWorlds(worlds: seq<(int, int)>, next: nat, world: Option<int>, index: int): (r: (nat, Option<int>))
    requires next <= |worlds|
    ensures r.0 <= |worlds|
    decreases |worlds| - next
  {
    if next < |worlds| && worlds[next].0 <= index then ScanWorlds(worlds, next + 1, Some(worlds[next].1), index)
    else (next, world)
  }

  /** The points of the first rows, and how far the worlds are read. */
  function ReadRows(rows: seq<seq<int>>, worlds: seq<(int, int)>): (r: (seq<SitePoint>, nat, Option<int>))
    ensures r.1 <= |worlds|
  {
    if rows == [] then ([], 0, None)
    else
      var n := |rows| - 1;
      var (points, next, world) := ReadRows(rows[..n], worlds);
      var (next', world') := ScanWorlds(worlds, next, world, n);
      var point := ReadRow(rows[n], world');
      (if point.Some? then points + [point.value] else points, next', world')
  }

  function StepOf(wire: Wire): real {
    if wire.BareRows? || wire.step == 0 then IDLE_S else wire.step as real
  }

  /** When the hub gave a trail, where the server says. */
  function AsOf(wire: Wire): Option<real> {
    if wire.BareRows? then None else wire.asOf
  }

  method DecodeTrail(wire: Wire) returns (points: seq<SitePoint>, step: real, asOf: Option<real>)
    ensures points == ReadRows(wire.rows, if wire.BareRows? then [] else wire.worlds).0
    ensures step == StepOf(wire) && asOf == AsOf(wire)
  {
    var worlds := if wire.BareRows? then [] else wire.worlds;
    points := [];
    var world: Option<int> := None;
    var nextWorld: nat := 0;
    for index := 0 to |wire.rows|
      invariant nextWorld <= |worlds|
      invariant (points, nextWorld, world) == ReadRows(wire.rows[..index], worlds)
    {
      assert wire.rows[..index + 1][..index] == wire.rows[..index];
      ghost var scanned := ScanWorlds(worlds, nextWorld, world, index);
      while nextWorld < |worlds| && worlds[nextWorld].0 <= index
        invariant nextWorld <= |worlds|
        invariant ScanWorlds(worlds, nextWorld, world, index) == scanned
      {
        world := Some(worlds[nextWorld].1);
        nextWorld := nextWorld + 1;
      }
      var point := ReadRow(wire.rows[index], world);
      if point.Some? {
        points := points + [point.value];
      }
    }
    assert wire.rows[..|wire.rows|] == wire.rows;
    step, asOf := StepOf(wire), AsOf(wire);
  }

  // ----- Reading what was written -----

  lemma {:induction false} TrimmedKeepsEntries(row: seq<int>, k: nat)
    ensures Entry(Trimmed(row), k) == Entry(row, k)
    ensures |row| >= 4 ==> |Trimmed(row)| >= 4 && Trimmed(row)[..4] == row[..4]
    decreases |row|
  {
    if |row| > 4 && row[|row| - 1] == 0 {
      TrimmedKeepsEntries(row[..|row| - 1], k);
      assert row[..|row| - 1][..4] == row[..4];
    }
  }

  /** A point as the site has it: one tile north, in the world it was last known to be in. */
  function OnSite(p: TrailPoint, world: Option<int>): SitePoint {
    SitePoint(p.x, p.y + 1, p.plane, p.first as real, p.last as real, p.boat, world, p.via, false)
  }

  lemma RowRoundTrip(p: TrailPoint, world: Option<int>)
    ensures ReadRow(Trimmed(FullRow(p)), world) == Some(OnSite(p, world))
  {
    var row := FullRow(p);
    TrimmedKeepsEntries(row, 4);
    TrimmedKeepsEntries(row, 5);
    TrimmedKeepsEntries(row, 6);
    var read := Trimmed(row)[..4];
    assert read[0] == p.x && read[1] == p.y && read[2] == p.plane && read[3] == p.last;
  }

  /** The world of the last of the points up to `i` that has one. */
  ghost function LatestWorld(points: seq<TrailPoint>, i: nat): Option<int>
    requires i < |points|
  {
    if points[i].world.Some? || i == 0 then points[i].world else LatestWorld(points, i - 1)
  }

  /** The worlds of the first points are the first of the worlds, and the others come later. */
  lemma {:induction false} WorldsInParts(points: seq<TrailPoint>, n: nat)
    requires n <= |points|
    ensures WorldsOf(points[..n]) <= WorldsOf(points)
    ensures var k := |WorldsOf(points[..n])|; forall i | k <= i < |WorldsOf(points)| :: n <= WorldsOf(points)[i].0
    decreases |points|
  {
    if n == |points| {
      assert points[..n] == points;
    } else {
      var last := |points| - 1;
      WorldsInParts(points[..last], n);
      assert points[..last][..n] == points[..n];
    }
  }

  lemma {:induction false} WorldsAreEarlier(points: seq<TrailPoint>)
    ensures forall i | 0 <= i < |WorldsOf(points)| :: 0 <= WorldsOf(points)[i].0 < |points|
    ensures var w := WorldsOf(points);
            points != [] ==> LatestWorld(points, |points| - 1) == if w == [] then None else Some(w[|w| - 1].1)
    decreases |points|
  {
    if points != [] {
      var n := |points| - 1;
      WorldsAreEarlier(points[..n]);
      if n > 0 {
        LatestWorldOfPrefix(points, n - 1, n);
      }
    }
  }

  lemma {:induction false} LatestWorldOfPrefix(points: seq<TrailPoint>, i: nat, n: nat)
    requires i < n <= |points|
    ensures LatestWorld(points[..n], i) == LatestWorld(points, i)
    decreases i
  {
    if i > 0 {
      LatestWorldOfPrefix(points, i - 1, n);
    }
  }

  /** Scanning at row n from where the rows before it left off comes to just where the worlds of the points up to n end. */
  lemma ScanStep(points: seq<TrailPoint>, n: nat, world: Option<int>)
    requires n < |points|
    requires var w := WorldsOf(points[..n]); world == if w == [] then None else Some(w[|w| - 1].1)
    requires |WorldsOf(points[..n])| <= |WorldsOf(points)|
    ensures ScanWorlds(WorldsOf(points), |WorldsOf(points[..n])|, world, n) ==
            (|WorldsOf(points[..n + 1])|, LatestWorld(points, n))
  {
    var all := WorldsOf(points);
    WorldsInParts(points, n);
    WorldsInParts(points, n + 1);
    WorldsAreEarlier(points[..n + 1]);
    LatestWorldOfPrefix(points, n, n + 1);
    assert points[..n + 1][..n] == points[..n];
    var k := |WorldsOf(points[..n])|;
    var k' := |WorldsOf(points[..n + 1])|;
    assert k' < |all| ==> all[k'].0 > n;
    if k' > k {
      assert k' == k + 1 && all[k] == WorldsOf(points[..n + 1])[k];
      assert ScanWorlds(all, k, world, n) == ScanWorlds(all, k + 1, Some(all[k].1), n);
    }
  }

  lemma {:induction false} ReadWritten(points: seq<TrailPoint>, n: nat)
    requires n <= |points|
    ensures var (read, next, world) := ReadRows(RowsOf(points[..n]), WorldsOf(points));
            var w := WorldsOf(points[..n]);
            && |read| == n
            && (forall i | 0 <= i < n :: read[i] == OnSite(points[i], LatestWorld(points, i)))
            && next == |w| && world == if w == [] then None else Some(w[|w| - 1].1)
    decreases n
  {
    if n > 0 {
      var m := n - 1;
      ReadWritten(points, m);
      assert points[..n][..m] == points[..m];
      assert RowsOf(points[..n])[..m] == RowsOf(points[..m]);
      ScanStep(points, m, ReadRows(RowsOf(points[..m]), WorldsOf(points)).2);
      RowRoundTrip(points[m], LatestWorld(points, m));
      WorldsAreEarlier(points[..n]);
      LatestWorldOfPrefix(points, m, n);
    }
  }

  /**
   Whatever zeros were left out of its rows, the site reads back every point of a trail
   that was sent, each in the world it was last known to be in.
   */
  lemma DecodeReadsTrailJson(points: seq<TrailPoint>)
    ensures var read := ReadRows(RowsOf(points), WorldsOf(points)).0;
            && |read| == |points|
            && forall i | 0 <= i < |points| :: read[i] == OnSite(points[i], LatestWorld(points, i))
  {
    ReadWritten(points, |points|);
    assert points[..|points|] == points;
  }

  /** The server's codes and the site's labels are each other's inverse. */
  lemma ViaRoundTrip(via: Option<Via>, code: int)
    ensures ViaOf(ViaCode(via)) == via
    ensures ViaCode(ViaOf(code)) == code <==> 0 <= code <= 7
  {
  }

  /** The step a trail is sent with is the one it is drawn with, and its time is read to the millisecond. */
  lemma StepRoundTrip(trail: Weighed, asOf: int)
    ensures StepOf(WireOf(Built(trail), asOf)) == Built(trail).step as real
    ensures AsOf(WireOf(Built(trail), asOf)).Some? && AsOf(WireOf(Built(trail), asOf)).value * 1000.0 == asOf as real
  {
  }
}
