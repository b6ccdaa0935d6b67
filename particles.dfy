/** The embers of the flame: how a particle is spawned from the current
    temperature, when it retires, and how the particle group is pruned on
    every frame.  Lengths are exact rationals (`real`), not floats. */
module Particles {

  const WIDTH: int := 800
  const HEIGHT: int := 600
  /** Width of the horizontal band in which embers are spawned. */
  const FIRE_SIZE: int := 300
  const FIRE_LEFT: int := (WIDTH - FIRE_SIZE) / 2
  const FIRE_RIGHT: int := (WIDTH + FIRE_SIZE) / 2
  /** Embers start between HEIGHT and HEIGHT + SPAWN_DEPTH, below the screen. */
  const SPAWN_DEPTH: int := 100

  const MIN_SPEED: real := 1.4
  const MAX_SPEED: real := 3.0
  const MIN_SIZE: real := 16.0
  const MAX_SIZE: real := 30.0
  /** An ember whose width has shrunk to this or less retires. */
  const MIN_WIDTH: real := 3.0
  /** The factor applied to the image on a random shrink. */
  const SHRINK: real := 0.9
  /** The drift frequency is a random fraction of this. */
  const DRIFT_SCALE: real := 0.006

  /** pygame's `clamp(value, min, max)` on reals; `FlameState.Clamp` is its
      integer twin, for the temperature. */
  function ClampReal(v: real, lo: real, hi: real): (r: real)
    requires lo <= hi
    ensures lo <= r <= hi
    ensures lo <= v <= hi ==> r == v
    ensures v < lo ==> r == lo
    ensures v > hi ==> r == hi
  {
    if v < lo then lo else if v > hi then hi else v
  }

  /** A floating rectangle: left, top, width and height; y grows downwards. */
  datatype Rect = Rect(x: real, y: real, w: real, h: real)
  {
    function Bottom(): real { y + h }
    function Right(): real { x + w }
    function CenterX(): real { x + w / 2.0 }
    function CenterY(): real { y + h / 2.0 }
  }

  /** The square of side `side` centred on (cx, cy). */
  function Centered(cx: real, cy: real, side: real): (r: Rect)
    ensures r.CenterX() == cx && r.CenterY() == cy
    ensures r.w == side && r.h == side
  {
    Rect(cx - side / 2.0, cy - side / 2.0, side, side)
  }

  /** One ember.  `speed` is added to the top edge every frame (negative:
      upwards), `offset` is the drift frequency, `originX` the drift anchor,
      `colorOffset` the per-ember colour perturbation, `size` the side of the
      square image at spawn (a later shrink shows only in `rect`) and `rect`
      where it currently is. */
  datatype Particle = Particle(speed: real, offset: real, originX: int,
                               colorOffset: int, size: real, rect: Rect)

  /** The four random draws behind one ember: its x in the fire band, how far
      below the screen it starts, the unit random number scaled into the
      drift frequency, and the colour offset. */
  datatype Draw = Draw(x: int, dy: int, unit: real, colorOffset: int)

  predicate ValidDraw(d: Draw) {
    FIRE_LEFT <= d.x <= FIRE_RIGHT && 0 <= d.dy <= SPAWN_DEPTH &&
    0.0 <= d.unit < 1.0 && 1200 <= d.colorOffset <= 1800
  }

  /** A new ember at (x, y) while the flame has temperature `temp`: the
      hotter the fire, the faster it rises and the larger it starts. */
  function Spawn(temp: int, x: int, y: int, unit: real, colorOffset: int): (p: Particle)
    requires 0.0 <= unit < 1.0
    ensures -MAX_SPEED <= p.speed <= -MIN_SPEED
    ensures MIN_SIZE <= p.size <= MAX_SIZE
    ensures 700 <= temp <= 1500 ==> p.speed == -(temp as real / 500.0)
    ensures temp >= 1500 ==> p.speed == -MAX_SPEED
    ensures temp <= 700 ==> p.speed == -MIN_SPEED
    ensures 1600 <= temp + y <= 3000 ==> p.size == (temp + y) as real / 100.0
    ensures temp + y >= 3000 ==> p.size == MAX_SIZE
    ensures temp + y <= 1600 ==> p.size == MIN_SIZE
    ensures p.rect.CenterX() == x as real && p.rect.CenterY() == y as real
    ensures p.rect.w == p.size && p.rect.h == p.size
    ensures 0.0 <= p.offset < DRIFT_SCALE
    ensures p.originX == x && p.colorOffset == colorOffset
  {
    var speed := -ClampReal(temp as real / 500.0, MIN_SPEED, MAX_SPEED);
    var s := ClampReal((temp + y) as real / 100.0, MIN_SIZE, MAX_SIZE);
    Particle(speed, unit * DRIFT_SCALE, x, colorOffset, s, Centered(x as real, y as real, s))
  }

  /** The ember that the burst loop creates from one set of draws. */
  function SpawnFrom(temp: int, d: Draw): Particle
    requires ValidDraw(d)
  {
    Spawn(temp, d.x, HEIGHT + d.dy, d.unit, d.colorOffset)
  }

  /** The embers one burst creates, one per draw, in draw order. */
  function Burst(temp: int, draws: seq<Draw>): (r: seq<Particle>)
    requires forall i :: 0 <= i < |draws| ==> ValidDraw(draws[i])
    ensures |r| == |draws|
    ensures forall i :: 0 <= i < |r| ==> r[i] == SpawnFrom(temp, draws[i])
  {
    seq(|draws|, i requires 0 <= i < |draws| => SpawnFrom(temp, draws[i]))
  }

  /** Every ember of a burst starts inside the speed and size bounds, in the
      fire band and below the bottom edge of the screen. */
  lemma BurstInBounds(temp: int, draws: seq<Draw>, p: Particle)
    requires forall i :: 0 <= i < |draws| ==> ValidDraw(draws[i])
    requires p in Burst(temp, draws)
    ensures -MAX_SPEED <= p.speed <= -MIN_SPEED
    ensures MIN_SIZE <= p.size <= MAX_SIZE
    ensures FIRE_LEFT as real <= p.rect.CenterX() <= FIRE_RIGHT as real
    ensures HEIGHT as real <= p.rect.CenterY() <= (HEIGHT + SPAWN_DEPTH) as real
  {
    var b := Burst(temp, draws);
    var i :| 0 <= i < |b| && b[i] == p;
    assert p == SpawnFrom(temp, draws[i]);
  }

  /** Within the flame's own range [1000, 9000] and the spawn depth, the
      lower size clamp never applies, and from 1500 on every ember rises at
      the top speed. */
  lemma SpawnInGameRange(temp: int, d: Draw)
    requires 1000 <= temp <= 9000 && ValidDraw(d)
    ensures var p := SpawnFrom(temp, d);
      p.size == if temp + HEIGHT + d.dy >= 3000 then MAX_SIZE
                else (temp + HEIGHT + d.dy) as real / 100.0
    ensures var p := SpawnFrom(temp, d);
      p.speed == if temp >= 1500 then -MAX_SPEED else -(temp as real / 500.0)
  {
  }

  /** What `Particle.update` leaves behind in one frame, taken as input
      because the drift and the random shrink are not modelled: whether the
      image was shrunk this frame and the ember's rectangle afterwards. */
  datatype Move = Move(shrunk: bool, rect: Rect)

  /** The width guard, checked only right after a shrink. */
  predicate ShrunkAway(m: Move) {
    m.shrunk && m.rect.w <= MIN_WIDTH
  }

  /** Fully above the screen, or left edge past the right border, or right
      edge past the left border. */
  predicate OffScreen(r: Rect) {
    r.Bottom() < 0.0 || r.x > WIDTH as real || r.Right() < 0.0
  }

  /** The ember kills itself this frame. */
  predicate Retires(m: Move) {
    ShrunkAway(m) || OffScreen(m.rect)
  }

  /** The ember after a frame in which it did not retire. */
  function Advance(p: Particle, m: Move): Particle {
    p.(rect := m.rect)
  }

  /** `Group.update`: every ember moves, and those that retire leave the
      group; survivors keep their order. */
  function Prune(pool: seq<Particle>, moves: seq<Move>): (r: seq<Particle>)
    requires |moves| == |pool|
    ensures |r| <= |pool|
    ensures forall q :: q in r ==> !OffScreen(q.rect)
    decreases |pool|
  {
    if pool == [] then []
    else
      var rest := Prune(pool[1..], moves[1..]);
      if Retires(moves[0]) then rest else [Advance(pool[0], moves[0])] + rest
  }

  /** How many of the moves end in retirement. */
  function RetiredCount(moves: seq<Move>): (n: nat)
    ensures n <= |moves|
  {
    if moves == [] then 0
    else (if Retires(moves[0]) then 1 else 0) + RetiredCount(moves[1..])
  }

  /** Pruning removes exactly the retiring embers: no fewer, no more. */
  lemma {:induction false} PruneCount(pool: seq<Particle>, moves: seq<Move>)
    requires |moves| == |pool|
    ensures |Prune(pool, moves)| == |pool| - RetiredCount(moves)
    decreases |pool|
  {
    if pool != [] {
      PruneCount(pool[1..], moves[1..]);
    }
  }

  /** A frame in which every ember retires empties the group. */
  lemma {:induction false} PruneAllRetired(pool: seq<Particle>, moves: seq<Move>)
    requires |moves| == |pool|
    requires forall i :: 0 <= i < |moves| ==> Retires(moves[i])
    ensures Prune(pool, moves) == []
    decreases |pool|
  {
    if pool != [] {
      assert Retires(moves[0]);
      PruneAllRetired(pool[1..], moves[1..]);
    }
  }

  /** An ember is in the pruned group exactly when it is the advanced form
      of a member whose move does not retire it. */
  lemma {:induction false} PruneMembers(pool: seq<Particle>, moves: seq<Move>, q: Particle)
    requires |moves| == |pool|
    ensures q in Prune(pool, moves) <==>
      exists i :: 0 <= i < |pool| && !Retires(moves[i]) && q == Advance(pool[i], moves[i])
    decreases |pool|
  {
    if pool != [] {
      PruneMembers(pool[1..], moves[1..], q);
      if q in Prune(pool, moves) {
        if !Retires(moves[0]) && q == Advance(pool[0], moves[0]) {
        } else {
          var j :| 0 <= j < |pool| - 1 && !Retires(moves[1..][j]) &&
                   q == Advance(pool[1..][j], moves[1..][j]);
          assert !Retires(moves[j + 1]) && q == Advance(pool[j + 1], moves[j + 1]);
        }
      } else {
        forall i | 0 <= i < |pool| && !Retires(moves[i])
          ensures q != Advance(pool[i], moves[i])
        {
          if i > 0 {
            assert pool[1..][i - 1] == pool[i] && moves[1..][i - 1] == moves[i];
          }
        }
      }
    }
  }

  /** The off-screen test is symmetric: mirroring a rectangle about the
      screen's vertical centre line swaps the two sideways tests and keeps
      the top test, so it does not change whether the ember retires. */
  lemma SidewaysSymmetric(r: Rect)
    ensures OffScreen(r) <==> OffScreen(Rect(WIDTH as real - r.x - r.w, r.y, r.w, r.h))
  {
  }

  /** The width after k shrinks, with exact arithmetic. */
  function Shrunk(w: real, k: nat): real {
    if k == 0 then w else Shrunk(w, k - 1) * SHRINK
  }

  /** Each shrink of a width above MIN_WIDTH takes off at least 0.3. */
  lemma {:induction false} ShrinkProgress(w: real, k: nat)
    ensures Shrunk(w, k) <= MIN_WIDTH || Shrunk(w, k) <= w - 0.3 * k as real
  {
    if k > 0 {
      ShrinkProgress(w, k - 1);
    }
  }

  /** An ember that keeps shrinking meets the width guard after at most 90
      shrinks, whatever size it started with. */
  lemma ShrinkingRetires(w: real)
    requires w <= MAX_SIZE
    ensures Shrunk(w, 90) <= MIN_WIDTH
  {
    ShrinkProgress(w, 90);
  }
}
