/**
 The points of a player's trail and how two of them, or a line between two of
 them, are judged (server/src/hub/trails.rs).

 Floating-point numbers are reals here. A distance is only ever compared with a
 positive bound or with another distance, so its square stands for it.
 */
module TrailPoints {
  import opened Options

  /** The hub's label of the step to a point. */
  datatype Via = Move | Entrance | House | Teleport | Gap | Instance | Other

  /** A point of the hub's location history; `at` is in nanoseconds. */
  datatype Sample = Sample(
    at: int, x: int, y: int, plane: int,
    world: Option<int>, onBoat: Option<bool>, via: Option<Via>)

  /** A stay on one tile; `first` and `last` are its samples' seconds. */
  datatype TrailPoint = TrailPoint(
    x: int, y: int, plane: int, first: int, last: int,
    boat: bool, world: Option<int>, via: Option<Via>, jump: bool)

  const NANOS_PER_SEC := 1_000_000_000
  const TRAIL_IDLE_SECS := 60
  const TRAIL_GAP_SECS := 300
  const RUN_TILES_PER_SEC: real := 2.0 / 0.6
  const TIME_SLACK_SECS := 1

  /** The second a sample falls in. */
  function Seconds(at: int): int {
    at / NANOS_PER_SEC
  }

  function Abs(n: int): nat {
    if n < 0 then -n else n
  }

  function Max(m: int, n: int): int {
    if m < n then n else m
  }

  /** The ranges of coordinates between which nobody walks. */
  datatype Band = Surface | Underground | Instanced | Elsewhere

  function BandOf(x: int, y: int): Band {
    if x >= 6400 then Instanced
    else if y < 4224 then Surface
    else if 8448 <= y < 10624 then Underground
    else Elsewhere
  }

  /** Whether a step is anything but walked. */
  predicate IsBreak(a: TrailPoint, b: TrailPoint) {
    if a.boat != b.boat || (a.world.Some? && b.world.Some? && a.world != b.world) then true
    else match b.via
      case Some(Move) => false
      case Some(_) => true
      case None =>
        var elapsed := Max(b.first - a.last, 1);
        var distance := Max(Abs(a.x - b.x), Abs(a.y - b.y));
        || BandOf(a.x, a.y) != BandOf(b.x, b.y)
        || elapsed > TRAIL_GAP_SECS
        || distance as real > 0.75 * RUN_TILES_PER_SEC * elapsed as real
  }

  /** Whether two worlds are known and not the same. */
  predicate WorldsDiffer(a: TrailPoint, b: TrailPoint) {
    a.world.Some? && b.world.Some? && a.world.value != b.world.value
  }

  /**
   A step is a break exactly when it is onto or off a boat, to another world or labelled as
   anything but a move; or when it has no label and is to another part of the map, a gap, or
   more than five tiles every two seconds.
   */
  lemma BreakExactly(a: TrailPoint, b: TrailPoint)
    ensures var seconds := if b.first - a.last > 1 then b.first - a.last else 1;
            IsBreak(a, b) <==>
              || a.boat != b.boat || WorldsDiffer(a, b) || (b.via.Some? && b.via != Some(Move))
              || (b.via == None && (BandOf(a.x, a.y) != BandOf(b.x, b.y) || seconds > 300
                                    || 2 * Abs(a.x - b.x) > 5 * seconds || 2 * Abs(a.y - b.y) > 5 * seconds))
  {
    var (seconds, distance) := (Max(b.first - a.last, 1), Max(Abs(a.x - b.x), Abs(a.y - b.y)));
    assert 0.75 * RUN_TILES_PER_SEC * seconds as real == 2.5 * seconds as real;
  }

  // ----- How far a line is off -----

  function Times(r: real, s: real): real {
    r * s
  }

  function Square(r: real): real {
    Times(r, r)
  }

  /** Rust's clamp, which panics when the bounds are not in order. */
  function Clamp(value: real, low: real, high: real): real
    requires low <= high
  {
    if value < low then low else if value > high then high else value
  }

  /** The share of the line (dx, dy) that lies nearest to (px, py), not kept to the line's ends. */
  function Nearest(dx: real, dy: real, px: real, py: real): real {
    var length := Square(dx) + Square(dy);
    if length > 0.0 then (px * dx + py * dy) / length else 0.0
  }

  /** The squared distance from (px, py) to where the share s of the line (dx, dy) ends. */
  function SquaredTo(dx: real, dy: real, px: real, py: real, s: real): real {
    Square(px - dx * s) + Square(py - dy * s)
  }

  /** How much of the way from `a` to the point after it is done at `time`, at an even pace. */
  function Reached(a: TrailPoint, span: int, time: int): (r: real)
    requires span > 0
    ensures 0.0 <= r <= 1.0
  {
    Clamp((time - a.last) as real / span as real, 0.0, 1.0)
  }

  /** The shares of the way on which the player may be at `time`, a second either way. */
  function Reach(a: TrailPoint, b: TrailPoint, time: int): (r: (real, real))
    ensures 0.0 <= r.0 <= r.1 <= 1.0
  {
    var span := b.first - a.last;
    if span > 0 then
      DivideMonotone((time - TIME_SLACK_SECS - a.last) as real, (time + TIME_SLACK_SECS - a.last) as real, span as real);
      (Reached(a, span, time - TIME_SLACK_SECS), Reached(a, span, time + TIME_SLACK_SECS))
    else
      (0.0, 1.0)
  }

  lemma DivideMonotone(m: real, n: real, d: real)
    requires m <= n && d > 0.0
    ensures m / d <= n / d
  {
    var q := (n - m) / d;
    assert q * d == n - m;
    assert n / d == m / d + q;
  }

  function OffSquaredAt(a: TrailPoint, b: TrailPoint, p: TrailPoint, time: int): real {
    var (dx, dy) := ((b.x - a.x) as real, (b.y - a.y) as real);
    var (px, py) := ((p.x - a.x) as real, (p.y - a.y) as real);
    var (from, to) := Reach(a, b, time);
    SquaredTo(dx, dy, px, py, Clamp(Nearest(dx, dy, px, py), from, to))
  }

  /** What leaving out `p` between `a` and `b` would cost: the square of a distance. */
  function OffSquared(a: TrailPoint, b: TrailPoint, p: TrailPoint): real {
    var first := OffSquaredAt(a, b, p, p.first);
    var last := OffSquaredAt(a, b, p, p.last);
    if first < last then last else first
  }

  // ----- What that distance means -----

  /** The squared distance from (px, py) to the line's share s, against that to the nearest share. */
  lemma SquaredToNearest(dx: real, dy: real, px: real, py: real, s: real, n: real)
    requires n == Nearest(dx, dy, px, py)
    ensures SquaredTo(dx, dy, px, py, s)
         == SquaredTo(dx, dy, px, py, n) + Times(Square(dx) + Square(dy), Square(s - n))
  {
    var length := Square(dx) + Square(dy);
    if length > 0.0 {
      assert n * length == px * dx + py * dy;
      Expand(dx, dy, px, py, s, length, n);
      Expand(dx, dy, px, py, n, length, n);
      assert length * Square(s - n) == length * s * s - 2.0 * (n * length) * s + n * length * n;
    } else {
      SquarePositive(dx);
      SquarePositive(dy);
    }
  }

  lemma Expand(dx: real, dy: real, px: real, py: real, s: real, length: real, n: real)
    requires length == Square(dx) + Square(dy) && n * length == px * dx + py * dy
    ensures SquaredTo(dx, dy, px, py, s) == px * px + py * py - 2.0 * (n * length) * s + length * s * s
  {
    assert Square(px - dx * s) == px * px - 2.0 * (px * dx) * s + (dx * dx) * s * s;
    assert Square(py - dy * s) == py * py - 2.0 * (py * dy) * s + (dy * dy) * s * s;
  }

  lemma TimesPositive(r: real, s: real)
    requires r > 0.0 && s > 0.0
    ensures Times(r, s) > 0.0
  {
  }

  lemma TimesOfNegatives(r: real, s: real)
    ensures Times(-r, -s) == Times(r, s)
  {
  }

  lemma SquarePositive(r: real)
    ensures Square(r) >= 0.0
    ensures Square(r) > 0.0 || r == 0.0
  {
    if r > 0.0 {
      TimesPositive(r, r);
    } else if r < 0.0 {
      TimesPositive(-r, -r);
      TimesOfNegatives(r, r);
    }
  }

  /** Keeping the nearest share to [low, high] gives the nearest share within [low, high]. */
  lemma ClampIsNearest(dx: real, dy: real, px: real, py: real, low: real, high: real, s: real)
    requires low <= s <= high
    ensures SquaredTo(dx, dy, px, py, Clamp(Nearest(dx, dy, px, py), low, high)) <= SquaredTo(dx, dy, px, py, s)
  {
    var n := Nearest(dx, dy, px, py);
    var along := Clamp(n, low, high);
    SquaredToNearest(dx, dy, px, py, s, n);
    SquaredToNearest(dx, dy, px, py, along, n);
    ClampNearer(n, low, high, s);
    SquarePositive(dx);
    SquarePositive(dy);
    ScaleMonotone(Square(dx) + Square(dy), Square(along - n), Square(s - n));
  }

  lemma ClampNearer(n: real, low: real, high: real, s: real)
    requires low <= s <= high
    ensures Square(Clamp(n, low, high) - n) <= Square(s - n)
  {
    if n < low {
      SquareMonotone(low - n, s - n);
    } else if n > high {
      SquareMonotone(n - high, n - s);
      assert Square(high - n) == Square(n - high) && Square(s - n) == Square(n - s);
    } else {
      SquarePositive(s - n);
    }
  }

  lemma SquareMonotone(m: real, n: real)
    requires 0.0 <= m <= n
    ensures Square(m) <= Square(n)
  {
    ScaleMonotone(m, m, n);
    ScaleMonotone(n, m, n);
    assert Times(n, m) == Times(m, n);
  }

  lemma ScaleMonotone(scale: real, m: real, n: real)
    requires m <= n && scale >= 0.0
    ensures Times(scale, m) <= Times(scale, n)
  {
    if scale == 0.0 || m == n {
    } else {
      TimesPositive(scale, n - m);
    }
    assert Times(scale, n) == Times(scale, m) + Times(scale, n - m);
  }

  lemma OffSquaredPositive(a: TrailPoint, b: TrailPoint, p: TrailPoint)
    ensures OffSquared(a, b, p) >= 0.0
  {
    SquaredToPositive((b.x - a.x) as real, (b.y - a.y) as real, (p.x - a.x) as real, (p.y - a.y) as real);
  }

  lemma SquaredToPositive(dx: real, dy: real, px: real, py: real)
    ensures forall s :: SquaredTo(dx, dy, px, py, s) >= 0.0
  {
    forall s
      ensures SquaredTo(dx, dy, px, py, s) >= 0.0
    {
      SquarePositive(px - dx * s);
      SquarePositive(py - dy * s);
    }
  }

  /** Whether the straight way from `a` to `b`, after its share s, is at most the root of `bound` from `p`. */
  predicate PassesBy(a: TrailPoint, b: TrailPoint, p: TrailPoint, s: real, bound: real) {
    SquaredTo((b.x - a.x) as real, (b.y - a.y) as real, (p.x - a.x) as real, (p.y - a.y) as real, s) <= bound
  }

  /**
   `OffSquared` is within a bound exactly when, at both ends of the stay, some place the
   player has on the straight way within a second of that time is within the bound.
   */
  lemma OffSquaredIsLeast(a: TrailPoint, b: TrailPoint, p: TrailPoint, bound: real)
    ensures OffSquared(a, b, p) <= bound <==>
            forall time | time == p.first || time == p.last ::
              exists s :: Reach(a, b, time).0 <= s <= Reach(a, b, time).1 && PassesBy(a, b, p, s, bound)
  {
    OffSquaredAtIsLeast(a, b, p, p.first, bound);
    OffSquaredAtIsLeast(a, b, p, p.last, bound);
  }

  lemma OffSquaredAtIsLeast(a: TrailPoint, b: TrailPoint, p: TrailPoint, time: int, bound: real)
    ensures OffSquaredAt(a, b, p, time) <= bound <==>
            exists s :: Reach(a, b, time).0 <= s <= Reach(a, b, time).1 && PassesBy(a, b, p, s, bound)
  {
    var (dx, dy) := ((b.x - a.x) as real, (b.y - a.y) as real);
    var (px, py) := ((p.x - a.x) as real, (p.y - a.y) as real);
    var (from, to) := Reach(a, b, time);
    if s :| from <= s <= to && PassesBy(a, b, p, s, bound) {
      ClampIsNearest(dx, dy, px, py, from, to, s);
    }
    if OffSquaredAt(a, b, p, time) <= bound {
      assert PassesBy(a, b, p, Clamp(Nearest(dx, dy, px, py), from, to), bound);
    }
  }

  /** A stay that a line is off for by no more than `bound` lies within `bound` of the drawn segment. */
  lemma OffSquaredBoundsSegment(a: TrailPoint, b: TrailPoint, p: TrailPoint, bound: real)
    requires OffSquared(a, b, p) <= bound
    ensures exists s :: 0.0 <= s <= 1.0 && PassesBy(a, b, p, s, bound)
  {
    OffSquaredAtIsLeast(a, b, p, p.first, bound);
  }
}
