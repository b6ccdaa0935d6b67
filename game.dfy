/** The `Game` object: its fields are updated in place, step by step, as in
    the `Game` class of main.py, and every method is proved to move the object's
    state along the matching transition of `FlameState`. */
module FlameGame {
  import opened Particles
  import opened FlameState

  class Game {
    var temp: int
    var files: seq<string>
    var score: int
    var bestScore: int
    var lastAddParticle: int
    var lastUpdateClock: int
    var startGameTime: int
    var tip: Tip
    var fire: seq<Particle>

    /** The object's fields as a value. */
    function State(): GameState
      reads this
    {
      GameState(temp, files, score, bestScore, lastAddParticle, lastUpdateClock,
                startGameTime, tip, fire)
    }

    predicate Alive()
      reads this
    {
      FlameState.Alive(State())
    }

    /** Opening the window: the class-level best score 0, then `init`. */
    constructor (now: int, startTemp: int)
      requires START_MIN <= startTemp <= START_MAX
      ensures State() == Start(now, startTemp)
      ensures Valid(State()) && Alive()
    {
      bestScore := 0;
      new;
      Init(now, startTemp);
    }

    /** `init`: draw a start temperature, replace the particle group, zero
        the timers, start the clock at `now`, reset the tip, the file list
        and the score.  The best score is kept. */
    method Init(now: int, startTemp: int)
      requires START_MIN <= startTemp <= START_MAX
      modifies this
      ensures State() == Reset(old(State()), now, startTemp)
    {
      temp := startTemp;
      fire := [];
      lastAddParticle := 0;
      lastUpdateClock := 0;
      startGameTime := now;
      UpdateTip(FeedMe);
      UpdateClock(Some(now));
      files := [];
      score := 0;
    }

    /** `add_temp`: change the temperature by `value`, clamped. */
    method AddTemp(value: int)
      modifies this`temp
      ensures State() == FlameState.AddTemp(old(State()), value)
      ensures MIN_TEMP <= temp <= MAX_TEMP
    {
      temp := Clamp(temp + value, MIN_TEMP, MAX_TEMP);
    }

    /** `update_tip`: only the text changes (its rendering is not modelled). */
    method UpdateTip(t: Tip)
      modifies this`tip
      ensures State() == old(State()).(tip := t)
    {
      tip := t;
    }

    /** `update_clock`: recompute the score for a truthy clock reading. */
    method UpdateClock(now: Option<int>)
      modifies this`score
      ensures State() == FlameState.UpdateClock(old(State()), now)
    {
      if now.Some? && now.value != 0 {
        score := Seconds(now.value - startGameTime);
      }
    }

    /** `events(event)`, with the size of a dropped file, and the clock
        reading and start temperature that a reset would use. */
    method Events(e: Event, now: int, startTemp: int)
      requires START_MIN <= startTemp <= START_MAX
      modifies this
      ensures State() == HandleEvent(old(State()), e, now, startTemp)
    {
      if Alive() {
        if e.DropFile? {
          if e.path in files {
            UpdateTip(AlreadyThrown);
          } else {
            files := files + [e.path];
            var n := Gain(e.size);
            AddTemp(n);
            UpdateTip(Gained(e.size, n));
          }
        }
      } else {
        if e.KeyDown? && e.key == K_SPACE {
          Init(now, startTemp);
        }
      }
    }

    /** The burst loop: one new ember per draw, spawned at the current
        temperature and added to the group in draw order. */
    method AddParticles(draws: seq<Draw>)
      requires forall i :: 0 <= i < |draws| ==> ValidDraw(draws[i])
      modifies this`fire
      ensures fire == old(fire) + Burst(temp, draws)
    {
      ghost var spawned := Burst(temp, draws);
      for i := 0 to |draws|
        invariant fire == old(fire) + spawned[..i]
      {
        fire := fire + [SpawnFrom(temp, draws[i])];
        assert spawned[..i + 1] == spawned[..i] + [spawned[i]];
      }
      assert spawned[..|draws|] == spawned;
    }

    /** `update()` at clock reading `now`: `moves` is what each ember's own
        update did this frame, `draws` the random draws of a burst. */
    method Update(now: int, draws: seq<Draw>, moves: seq<Move>)
      requires |moves| == |fire|
      requires |draws| == BURST_SIZE && forall i :: 0 <= i < |draws| ==> ValidDraw(draws[i])
      modifies this
      ensures State() == Tick(old(State()), now, draws, moves)
    {
      fire := Prune(fire, moves);
      if Alive() {
        if now - lastAddParticle >= BURST_INTERVAL {
          lastAddParticle := now;
          AddParticles(draws);
          AddTemp(-BURST_COOLING);
          if !Alive() {
            if score > bestScore {
              bestScore := score;
              UpdateClock(None);
            }
            UpdateTip(GameOver);
          }
        }
        if now - lastUpdateClock >= CLOCK_INTERVAL {
          lastUpdateClock := now;
          UpdateClock(Some(now));
        }
      }
    }

    /** The scene loop's effect on the game: each frame calls `update`, and
        each event of the frame is handed to `events`, in arrival order. */
    method Loop(ins: seq<Input>)
      requires RunOk(State(), ins)
      modifies this
      ensures State() == Run(old(State()), ins)
    {
      var i := 0;
      while i < |ins|
        invariant 0 <= i <= |ins|
        invariant RunOk(State(), ins[i..])
        invariant Run(old(State()), ins) == Run(State(), ins[i..])
      {
        assert ins[i..][1..] == ins[i + 1..];
        match ins[i] {
          case Frame(now, draws, moves) => Update(now, draws, moves);
          case Deliver(e, now, startTemp) => Events(e, now, startTemp);
        }
        i := i + 1;
      }
    }
  }
}
