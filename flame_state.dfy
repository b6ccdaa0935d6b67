/** The flame as a state machine on values: temperature, consumed files,
    score clock, best score, spawn timer, status tip and the particle
    group.  Time, file sizes and random draws are parameters.  The class
    `FlameGame.Game` is proved to follow these transitions. */
module FlameState {
  import opened Particles

  const MIN_TEMP: int := 1000
  const MAX_TEMP: int := 9000
  /** The random start temperature on (re)initialisation is in this range. */
  const START_MIN: int := 7000
  const START_MAX: int := 9000
  /** Milliseconds between bursts, and what a burst adds and takes. */
  const BURST_INTERVAL: int := 300
  const BURST_SIZE: int := 70
  const BURST_COOLING: int := 100
  /** Milliseconds between score recomputations. */
  const CLOCK_INTERVAL: int := 1000
  /** Bytes of fuel per kelvin. */
  const FUEL_DIVISOR: int := 20
  /** pygame's key code of the space bar. */
  const K_SPACE: int := 32

  datatype Option<T> = None | Some(value: T)

  /** The status line under the temperature. */
  datatype Tip =
    | FeedMe                          // "Feed me more files as fuel!"
    | AlreadyThrown                   // a file dropped a second time
    | Gained(size: nat, gain: int)    // the file's size and the kelvin it added
    | GameOver                        // the flame went out

  /** The window events the game reacts to (everything else is `Other`). */
  datatype Event =
    | DropFile(path: string, size: nat)   // size as the filesystem reports it
    | KeyDown(key: int)
    | Quit
    | Other

  datatype GameState = GameState(
    temp: int,
    files: seq<string>,
    score: int,
    bestScore: int,
    lastAddParticle: int,
    lastUpdateClock: int,
    startGameTime: int,
    tip: Tip,
    fire: seq<Particle>)

  predicate NoDuplicates(xs: seq<string>) {
    forall i, j :: 0 <= i < j < |xs| ==> xs[i] != xs[j]
  }

  /** The invariant every reachable state keeps. */
  predicate Valid(s: GameState) {
    MIN_TEMP <= s.temp <= MAX_TEMP && s.bestScore >= 0 && NoDuplicates(s.files)
  }

  /** pygame's `clamp(value, min, max)` on integers. */
  function Clamp(v: int, lo: int, hi: int): (r: int)
    requires lo <= hi
    ensures lo <= r <= hi
    ensures lo <= v <= hi ==> r == v
    ensures v < lo ==> r == lo
    ensures v > hi ==> r == hi
  {
    if v < lo then lo else if v > hi then hi else v
  }

  /** The fire burns while its temperature is above the floor. */
  predicate Alive(s: GameState) {
    s.temp > MIN_TEMP
  }

  /** Because the temperature never drops under the floor, being out means
      sitting exactly on it. */
  lemma DeadIsFloor(s: GameState)
    requires Valid(s)
    ensures !Alive(s) <==> s.temp == MIN_TEMP
  {
  }

  /** Change the temperature by `value`, clamped to [MIN_TEMP, MAX_TEMP];
      nothing else changes. */
  function AddTemp(s: GameState, value: int): (r: GameState)
    ensures MIN_TEMP <= r.temp <= MAX_TEMP
    ensures r == s.(temp := r.temp)
    ensures MIN_TEMP <= s.temp + value <= MAX_TEMP ==> r.temp == s.temp + value
    ensures s.temp + value < MIN_TEMP ==> r.temp == MIN_TEMP
    ensures s.temp + value > MAX_TEMP ==> r.temp == MAX_TEMP
    ensures Valid(s) ==> Valid(r)
  {
    s.(temp := Clamp(s.temp + value, MIN_TEMP, MAX_TEMP))
  }

  /** Python's `int(d / 1000)`: whole seconds in d milliseconds, truncated
      toward zero. */
  function Seconds(d: int): (r: int)
    ensures d >= 0 ==> 0 <= r && 1000 * r <= d < 1000 * r + 1000
    ensures d < 0 ==> r <= 0 && 1000 * r - 1000 < d <= 1000 * r
  {
    if d >= 0 then d / 1000 else -((-d) / 1000)
  }

  lemma SecondsMonotone(a: int, b: int)
    requires a <= b
    ensures Seconds(a) <= Seconds(b)
  {
  }

  /** `update_clock(now)`: a truthy clock reading (present and non-zero)
      recomputes the score from the game's start; otherwise nothing changes. */
  function UpdateClock(s: GameState, now: Option<int>): (r: GameState)
    ensures r == s.(score := r.score)
    ensures now.Some? && now.value != 0 ==>
      r.score == Seconds(now.value - s.startGameTime)
    ensures now.None? || now.value == 0 ==> r == s
  {
    if now.Some? && now.value != 0 then s.(score := Seconds(now.value - s.startGameTime))
    else s
  }

  /** `init`: a fresh fire at clock reading `now` with start temperature
      `startTemp`.  Only the best score survives. */
  function Reset(s: GameState, now: int, startTemp: int): (r: GameState)
    requires START_MIN <= startTemp <= START_MAX
    ensures r.temp == startTemp && Alive(r)
    ensures r.files == [] && r.fire == [] && r.score == 0
    ensures r.lastAddParticle == 0 && r.lastUpdateClock == 0 && r.startGameTime == now
    ensures r.tip == FeedMe
    ensures r.bestScore == s.bestScore
    ensures s.bestScore >= 0 ==> Valid(r)
  {
    var lit := s.(temp := startTemp, fire := [], lastAddParticle := 0,
                  lastUpdateClock := 0, startGameTime := now, tip := FeedMe);
    UpdateClock(lit, Some(now)).(files := [], score := 0)
  }

  /** The state when the window first opens: best score 0, then `init`. */
  function Start(now: int, startTemp: int): (r: GameState)
    requires START_MIN <= startTemp <= START_MAX
    ensures Valid(r) && Alive(r) && r.bestScore == 0 && r.score == 0
  {
    Reset(GameState(startTemp, [], 0, 0, 0, 0, now, FeedMe, []), now, startTemp)
  }

  /** Kelvin gained from a file: Python's `int(size / 20)`. */
  function Gain(size: nat): (n: nat)
    ensures FUEL_DIVISOR * n <= size < FUEL_DIVISOR * n + FUEL_DIVISOR
  {
    size / FUEL_DIVISOR
  }

  /** A file dropped onto the living fire.  A path already burnt only
      changes the tip; a new one is recorded once and feeds the fire. */
  function Drop(s: GameState, path: string, size: nat): (r: GameState)
    ensures path in s.files ==> r == s.(tip := AlreadyThrown)
    ensures path !in s.files ==>
      r.files == s.files + [path] &&
      r.temp == Clamp(s.temp + Gain(size), MIN_TEMP, MAX_TEMP) &&
      r.tip == Gained(size, Gain(size))
    ensures r == s.(files := r.files, temp := r.temp, tip := r.tip)
    ensures path in r.files
    ensures r.temp >= s.temp || r.temp == MAX_TEMP
    ensures Valid(s) ==> Valid(r)
  {
    if path in s.files then s.(tip := AlreadyThrown)
    else
      var recorded := s.(files := s.files + [path]);
      var n := Gain(size);
      AddTemp(recorded, n).(tip := Gained(size, n))
  }

  /** Dropping a path that is new to the fire leaves it in the file list
      exactly once. */
  lemma DropRecordsOnce(s: GameState, path: string, size: nat)
    requires Valid(s) && path !in s.files
    ensures var r := Drop(s, path, size);
      |r.files| == |s.files| + 1 &&
      (forall i :: 0 <= i < |r.files| && r.files[i] == path ==> i == |s.files|)
  {
  }

  /** `events(event)`.  While the fire burns only file drops matter; once it
      is out only the space bar matters, and it re-initialises. */
  function HandleEvent(s: GameState, e: Event, now: int, startTemp: int): (r: GameState)
    requires START_MIN <= startTemp <= START_MAX
    ensures Alive(s) && e.DropFile? ==> r == Drop(s, e.path, e.size)
    ensures Alive(s) && !e.DropFile? ==> r == s
    ensures !Alive(s) && e == KeyDown(K_SPACE) ==> r == Reset(s, now, startTemp)
    ensures !Alive(s) && e != KeyDown(K_SPACE) ==> r == s
    ensures Alive(s) ==> Alive(r)
    ensures r.bestScore == s.bestScore
    ensures Valid(s) ==> Valid(r)
  {
    if Alive(s) then
      if e.DropFile? then Drop(s, e.path, e.size) else s
    else
      if e.KeyDown? && e.key == K_SPACE then Reset(s, now, startTemp) else s
  }

  /** The burst half of a frame of the living fire: spawn the embers at the
      current temperature, cool by BURST_COOLING, and handle the death. */
  function Burn(s: GameState, now: int, draws: seq<Draw>): (r: GameState)
    requires forall i :: 0 <= i < |draws| ==> ValidDraw(draws[i])
    ensures r.lastAddParticle == now && r.fire == s.fire + Burst(s.temp, draws)
    ensures r.temp == Clamp(s.temp - BURST_COOLING, MIN_TEMP, MAX_TEMP)
    ensures r.bestScore == if !Alive(r) && s.score > s.bestScore then s.score else s.bestScore
    ensures r.tip == if Alive(r) then s.tip else GameOver
    ensures r == s.(lastAddParticle := r.lastAddParticle, fire := r.fire, temp := r.temp,
                    bestScore := r.bestScore, tip := r.tip)
  {
    var burnt := AddTemp(s.(lastAddParticle := now, fire := s.fire + Burst(s.temp, draws)),
                         -BURST_COOLING);
    if Alive(burnt) then burnt
    else
      var scored := if burnt.score > burnt.bestScore then burnt.(bestScore := burnt.score)
                    else burnt;
      scored.(tip := GameOver)
  }

  /** The score-clock half of a frame of the living fire. */
  function Clock(s: GameState, now: int): (r: GameState)
    ensures now - s.lastUpdateClock >= CLOCK_INTERVAL ==>
      r.lastUpdateClock == now &&
      r.score == (if now != 0 then Seconds(now - s.startGameTime) else s.score)
    ensures now - s.lastUpdateClock < CLOCK_INTERVAL ==> r == s
    ensures r == s.(lastUpdateClock := r.lastUpdateClock, score := r.score)
  {
    if now - s.lastUpdateClock >= CLOCK_INTERVAL then
      UpdateClock(s.(lastUpdateClock := now), Some(now))
    else s
  }

  /** `update()` at clock reading `now`: prune the particle group with the
      frame's moves; then, only while the fire burns, fire a burst if
      BURST_INTERVAL has passed and recompute the score if CLOCK_INTERVAL has.
      The death check compares the best score with the score as it stood
      before this frame's clock update. */
  function Tick(s: GameState, now: int, draws: seq<Draw>, moves: seq<Move>): (r: GameState)
    requires |moves| == |s.fire|
    requires |draws| == BURST_SIZE && forall i :: 0 <= i < |draws| ==> ValidDraw(draws[i])
    // a dead fire only prunes its particles
    ensures !Alive(s) ==> r == s.(fire := Prune(s.fire, moves))
    // no burst before its interval has elapsed
    ensures Alive(s) && now - s.lastAddParticle < BURST_INTERVAL ==>
      r.temp == s.temp && r.lastAddParticle == s.lastAddParticle &&
      r.fire == Prune(s.fire, moves) && r.tip == s.tip && r.bestScore == s.bestScore
    // a burst: BURST_SIZE embers spawned at the old temperature, then cooling
    ensures Alive(s) && now - s.lastAddParticle >= BURST_INTERVAL ==>
      r.lastAddParticle == now &&
      r.fire == Prune(s.fire, moves) + Burst(s.temp, draws) &&
      |r.fire| == |Prune(s.fire, moves)| + BURST_SIZE &&
      r.temp == Clamp(s.temp - BURST_COOLING, MIN_TEMP, MAX_TEMP)
    // the best score moves only on the dying frame, and only upwards
    ensures r.bestScore ==
      if Alive(s) && !Alive(r) && s.score > s.bestScore then s.score else s.bestScore
    ensures Alive(s) && !Alive(r) ==> r.tip == GameOver
    ensures Alive(s) && Alive(r) ==> r.tip == s.tip
    // the score clock
    ensures Alive(s) && now - s.lastUpdateClock >= CLOCK_INTERVAL ==>
      r.lastUpdateClock == now &&
      r.score == (if now != 0 then Seconds(now - s.startGameTime) else s.score)
    ensures !Alive(s) || now - s.lastUpdateClock < CLOCK_INTERVAL ==>
      r.lastUpdateClock == s.lastUpdateClock && r.score == s.score
    ensures r.files == s.files && r.startGameTime == s.startGameTime
    ensures Valid(s) ==> Valid(r)
  {
    var pruned := s.(fire := Prune(s.fire, moves));
    if !Alive(pruned) then pruned
    else
      var burst := if now - pruned.lastAddParticle >= BURST_INTERVAL then Burn(pruned, now, draws)
                   else pruned;
      Clock(burst, now)
  }

  /** What the scene loop feeds the game: a frame (`update`) at a clock
      reading, with its random draws and particle moves, or one event
      (`events`) with the clock reading and start temperature a reset would
      use. */
  datatype Input =
    | Frame(now: int, draws: seq<Draw>, moves: seq<Move>)
    | Deliver(e: Event, now: int, startTemp: int)

  predicate InputOk(s: GameState, inp: Input) {
    match inp
    case Frame(_, draws, moves) =>
      |moves| == |s.fire| && |draws| == BURST_SIZE &&
      forall i :: 0 <= i < |draws| ==> ValidDraw(draws[i])
    case Deliver(_, _, startTemp) => START_MIN <= startTemp <= START_MAX
  }

  /** One call of the scene loop into the game. */
  function Step(s: GameState, inp: Input): (r: GameState)
    requires InputOk(s, inp)
    ensures Valid(s) ==> Valid(r)
    ensures r.bestScore >= s.bestScore
    ensures !Alive(s) && !IsReset(inp) ==> r == s.(fire := r.fire) && |r.fire| <= |s.fire|
  {
    match inp
    case Frame(now, draws, moves) => Tick(s, now, draws, moves)
    case Deliver(e, now, startTemp) => HandleEvent(s, e, now, startTemp)
  }

  /** Every input of the run fits the state it reaches. */
  predicate RunOk(s: GameState, ins: seq<Input>)
    decreases |ins|
  {
    ins == [] || (InputOk(s, ins[0]) && RunOk(Step(s, ins[0]), ins[1..]))
  }

  /** The calls of a run, one after the other. */
  function Run(s: GameState, ins: seq<Input>): (r: GameState)
    requires RunOk(s, ins)
    ensures ins == [] ==> r == s
    ensures |ins| == 1 ==> r == Step(s, ins[0])
    decreases |ins|
  {
    if ins == [] then s else Run(Step(s, ins[0]), ins[1..])
  }

  predicate IsReset(inp: Input) {
    inp.Deliver? && inp.e == KeyDown(K_SPACE)
  }

  predicate NoReset(ins: seq<Input>) {
    forall k :: 0 <= k < |ins| ==> !IsReset(ins[k])
  }

  /** The temperature stays in [MIN_TEMP, MAX_TEMP], the best score stays
      non-negative and no file is recorded twice, whatever the run. */
  lemma {:induction false} RunKeepsValid(s: GameState, ins: seq<Input>)
    requires Valid(s) && RunOk(s, ins)
    ensures Valid(Run(s, ins))
    decreases |ins|
  {
    if ins != [] {
      RunKeepsValid(Step(s, ins[0]), ins[1..]);
    }
  }

  /** The best score never goes down, resets included. */
  lemma {:induction false} RunBestMonotone(s: GameState, ins: seq<Input>)
    requires RunOk(s, ins)
    ensures Run(s, ins).bestScore >= s.bestScore
    decreases |ins|
  {
    if ins != [] {
      RunBestMonotone(Step(s, ins[0]), ins[1..]);
    }
  }

  /** Once the fire is out it stays out until the space bar: frames and
      other events change nothing but the particle group, and that group
      never grows: a dead fire spawns nothing. */
  lemma {:induction false} DeadUntilReset(s: GameState, ins: seq<Input>)
    requires !Alive(s) && RunOk(s, ins) && NoReset(ins)
    ensures Run(s, ins) == s.(fire := Run(s, ins).fire)
    ensures |Run(s, ins).fire| <= |s.fire|
    decreases |ins|
  {
    if ins != [] {
      assert !IsReset(ins[0]);
      var next := Step(s, ins[0]);
      assert next == s.(fire := next.fire);
      assert NoReset(ins[1..]) by {
        forall k | 0 <= k < |ins| - 1 ensures !IsReset(ins[1..][k]) {
          assert ins[1..][k] == ins[k + 1];
        }
      }
      DeadUntilReset(next, ins[1..]);
    }
  }

  /** Clock readings of a run: none earlier than t, and non-decreasing. */
  predicate ClockFrom(t: int, ins: seq<Input>) {
    (forall k :: 0 <= k < |ins| ==> t <= ins[k].now) &&
    (forall j, k :: 0 <= j < k < |ins| ==> ins[j].now <= ins[k].now)
  }

  /** The score never exceeds the seconds elapsed by clock reading t. */
  predicate ScoreBehind(s: GameState, t: int) {
    s.score <= Seconds(t - s.startGameTime)
  }

  /** One input without a reset, at a clock reading no earlier than t,
      keeps the score behind the clock and does not lower it. */
  lemma StepScore(s: GameState, inp: Input, t: int)
    requires InputOk(s, inp) && !IsReset(inp) && ScoreBehind(s, t) && t <= inp.now
    ensures var r := Step(s, inp); r.score >= s.score && ScoreBehind(r, inp.now)
  {
    SecondsMonotone(t - s.startGameTime, inp.now - s.startGameTime);
  }

  /** With a clock that never runs backwards, the score never goes down
      until the fire is reset. */
  lemma {:induction false} RunScoreMonotone(s: GameState, ins: seq<Input>, t: int)
    requires RunOk(s, ins) && NoReset(ins) && ClockFrom(t, ins) && ScoreBehind(s, t)
    ensures Run(s, ins).score >= s.score
    decreases |ins|
  {
    if ins != [] {
      StepScore(s, ins[0], t);
      var rest := ins[1..];
      assert NoReset(rest) && ClockFrom(ins[0].now, rest) by {
        forall k | 0 <= k < |rest| ensures rest[k] == ins[k + 1] { }
      }
      RunScoreMonotone(Step(s, ins[0]), rest, ins[0].now);
    }
  }

  /** A freshly started or reset fire has its score behind the clock. */
  lemma ResetScoreBehind(s: GameState, now: int, startTemp: int)
    requires START_MIN <= startTemp <= START_MAX
    ensures ScoreBehind(Reset(s, now, startTemp), now)
  {
  }

  /** The best score is compared before the clock update of the dying
      frame, so right after the fire goes out the score on display can be
      one second ahead of the best score. */
  lemma StaleScoreOnDyingTick()
    ensures var s := GameState(1050, [], 5, 0, 5700, 5000, 0, FeedMe, []);
      var draws := seq(BURST_SIZE, _ => Draw(FIRE_LEFT, 0, 0.0, 1200));
      var r := Tick(s, 6000, draws, []);
      Alive(s) && !Alive(r) && r.bestScore == 5 && r.score == 6
  {
  }

  /** Starting at 8000, three bursts 300 ms apart leave the fire at 7700
      and burning (here every ember of one burst is gone by the next). */
  lemma ThreeBursts(draws: seq<Draw>)
    requires |draws| == BURST_SIZE && forall i :: 0 <= i < |draws| ==> ValidDraw(draws[i])
    ensures var gone := seq(BURST_SIZE, _ => Move(false, Rect(0.0, -100.0, 1.0, 1.0)));
      var s1 := Tick(Start(1, 8000), 300, draws, []);
      |s1.fire| == BURST_SIZE &&
      var s2 := Tick(s1, 600, draws, gone);
      |s2.fire| == BURST_SIZE &&
      var s3 := Tick(s2, 900, draws, gone);
      s3.temp == 7700 && Alive(s3)
  {
    var gone := seq(BURST_SIZE, _ => Move(false, Rect(0.0, -100.0, 1.0, 1.0)));
    var s0 := Start(1, 8000);
    var s1 := Tick(s0, 300, draws, []);
    assert s1.temp == 7900 && |s1.fire| == BURST_SIZE && s1.lastAddParticle == 300;
    PruneAllRetired(s1.fire, gone);
    var s2 := Tick(s1, 600, draws, gone);
    assert s2.temp == 7800 && |s2.fire| == BURST_SIZE && s2.lastAddParticle == 600;
    PruneAllRetired(s2.fire, gone);
  }

  /** The same file twice: its fuel counts once and the second drop is
      reported as a duplicate. */
  lemma DuplicateFuel(s: GameState)
    requires Valid(s) && Alive(s) && s.files == [] && s.temp <= 8000
    ensures var r := HandleEvent(HandleEvent(s, DropFile("a.txt", 2000), 0, START_MIN),
                                 DropFile("a.txt", 2000), 0, START_MIN);
      r.temp == s.temp + 100 && r.files == ["a.txt"] && r.tip == AlreadyThrown
  {
  }
}
