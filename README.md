# Flame Protector: the flame state machine

Flame Protector is a small pygame toy. A flame burns at a temperature between
1000 K and 9000 K. Every 300 ms it throws a burst of 70 embers and cools by
100 K. The player keeps it alive by dropping files onto the window; each new
file adds a twentieth of its size in bytes, in kelvin. A score clock counts the
seconds the fire has lived. The best score is kept across resets. When the fire
goes out, the space bar starts a new one.

This project models the core of that program, the `Game` class and the
spawn and retirement rules of `Particle` in `main.py`, and proves its
properties:

- `particles.dfy`, module `Particles`. It covers how an ember is spawned from
  the current temperature (rise speed and size, both clamped), the two
  retirement guards, and how the particle group is pruned on each frame. A
  bound proves that an ember which keeps shrinking reaches the width guard.
  Lengths are exact rationals (`real`).
- `flame_state.dfy`, module `FlameState`. The `Game` state as a value
  (`GameState`), with one function per operation: `AddTemp`, `UpdateClock`,
  `Reset` (`init`), `Drop`, `HandleEvent` (`events`) and `Tick` (`update`).
  A run is a sequence of frames and events (`Run`). Lemmas about runs show
  that the temperature stays in range and that the best score never falls.
  They show that a dead fire stays dead until the space bar, and that the
  score only rises while the clock runs forward.
- `game.dfy`, module `FlameGame`. The class `Game`, whose fields are updated
  in place as in the source. Each method is proved to move `State()` along the
  matching `FlameState` function. `AddParticles` is the 70-iteration burst
  loop. `Loop` feeds a run of frames and events to `Update` and `Events`.

The clock, the sizes of dropped files, the random draws (start temperature;
each ember's x, depth, drift frequency and colour offset) and what each
ember's own per-frame update did are all parameters. A start temperature is
required to be in [7000, 9000], an ember's x in [250, 550] and its depth below
the screen in [0, 100].

Behaviour of the program worth knowing, as the model captures it:

- A reset replaces the particle group (`main.py:151`), so embers in flight
  are discarded, not left to animate.
- On the dying frame the best score is compared with the score as last
  recomputed. The same frame's clock update can still raise the score
  afterwards, so the score shown can be one or two seconds ahead of the best score: it
  lags by the seconds since the last recomputation (`StaleScoreOnDyingTick`).
- A failed `os.path.getsize` raises; the program has no status-message
  fallback.
- The sideways off-screen test is symmetric under mirroring about the screen
  centre (`SidewaysSymmetric`).

## Model

| member | source | states |
|---|---|---|
| `Particles.ClampReal` | main.py:110 | pygame's clamp: the result lies in [lo, hi], equals the value inside the range and the nearer bound outside it |
| `Particles.Centered` | main.py:119 | the rectangle of a new ember is a square of the ember's size centred on its spawn point |
| `Particles.Spawn` | main.py:106-119 | a new ember rises at a speed in [-3, -1.4], equal to -temp/500 inside the clamp and to the bound outside it; its size is in [16, 30], equal to (temp+y)/100 inside the clamp; it is centred at (x, y), with drift frequency in [0, 0.006) and the drawn colour offset |
| `Particles.Burst` | main.py:205-206 | a burst makes one ember per draw, in draw order, each spawned at the same temperature |
| `Particles.BurstInBounds` | main.py:205-206 | every ember of a burst starts with speed in [-3, -1.4], size in [16, 30], centre x in the fire band [250, 550] and centre y in [600, 700], below the screen |
| `Particles.SpawnInGameRange` | main.py:110-116 | with the temperature in [1000, 9000], the lower size clamp never applies and every ember rises at speed -3 from 1500 K on |
| `Particles.Prune` | main.py:122-135 | the group after a frame is no larger than before and holds no ember that is off screen |
| `Particles.RetiredCount` | main.py:129-135 | the number of embers that retire in a frame is at most the group's size |
| `Particles.PruneCount` | main.py:129-135 | pruning removes exactly as many embers as retire, so the group shrinks by exactly that count |
| `Particles.PruneMembers` | main.py:129-135 | an ember is in the pruned group if and only if it is the moved form of a member that did not retire |
| `Particles.PruneAllRetired` | main.py:133-135 | a frame in which every ember retires leaves the group empty |
| `Particles.ShrunkAway` | main.py:129 | the width guard: the ember was shrunk this frame and its width is at most 3 |
| `Particles.OffScreen` | main.py:133 | the off-screen test: bottom < 0, or left edge > 800, or right edge < 0 |
| `Particles.Retires` | main.py:129-135 | an ember retires this frame exactly when the width guard or the off-screen test holds |
| `Particles.SidewaysSymmetric` | main.py:133 | the off-screen test is unchanged by mirroring the rectangle about the screen's centre line x = 400 |
| `Particles.ShrinkProgress` | main.py:126-131 | each shrink by 0.9 of a width above 3 takes off at least 0.3, so after k shrinks the width is at most 3 or at most w - 0.3k |
| `Particles.ShrinkingRetires` | main.py:126-131 | an ember no wider than 30 meets the width guard after at most 90 shrinks |
| `FlameState.Clamp` | main.py:170 | pygame's clamp on integers: the result is in [lo, hi], equal to the value inside the range and the nearer bound outside it |
| `FlameState.AddTemp` | main.py:169-171 | the temperature afterwards is in [1000, 9000]: the old one plus the change when that is in range, else the bound it crossed; nothing else changes |
| `FlameState.Alive` | main.py:165-167 | the fire burns while temp > 1000 |
| `FlameState.DeadIsFloor` | main.py:165-171 | in a valid state the fire is out exactly when the temperature is 1000 |
| `FlameState.Seconds` | main.py:178 | `int(d/1000)` truncates toward zero: for d >= 0 it is the whole seconds in d, for d < 0 the negated whole seconds in -d |
| `FlameState.SecondsMonotone` | main.py:178 | a later clock reading never gives fewer elapsed seconds |
| `FlameState.UpdateClock` | main.py:177-179 | a present, non-zero clock reading sets the score to the whole seconds since the start; a missing or zero reading changes nothing; only the score can change |
| `FlameState.Reset` | main.py:145-163 | `init` leaves a burning fire at the drawn start temperature, with no files, no embers, score 0, both timers 0, the clock started at now and the opening tip; the best score is kept |
| `FlameState.Start` | main.py:143-163 | the first state is valid and burning, with best score 0 and score 0 |
| `FlameState.Gain` | main.py:189 | the kelvin gained from a file of `size` bytes is the whole number of times 20 fits into it |
| `FlameState.Drop` | main.py:183-191 | a path already burnt changes only the tip; a new path is appended to the file list, the temperature becomes clamp(temp + size/20) and the tip reports size and gain; score, best score, timers and embers are untouched; validity is kept |
| `FlameState.DropRecordsOnce` | main.py:186-187 | after a new path is dropped it occurs in the file list exactly once, at the end |
| `FlameState.HandleEvent` | main.py:181-195 | while burning only a file drop changes the state, and it cannot put the fire out; while out, drops and other keys change nothing and the space bar re-initialises; no event changes the best score; validity is kept |
| `FlameState.Tick` | main.py:197-219 | a dead fire only prunes its embers; before 300 ms no burst happens; a burst sets the spawn timer, appends exactly 70 embers spawned at the old temperature and cools by 100 with the clamp; the best score rises only on the frame the fire dies and only to a higher pre-frame score; the clock is recomputed every 1000 ms; files and start time never change; validity is kept |
| `FlameState.Burn` | main.py:202-215 | a burst sets the spawn timer to now, appends the burst's embers at the old temperature and cools by 100 with the clamp; if that puts the fire out the best score becomes the score when it is higher and the tip becomes Game Over, otherwise the tip is kept; nothing else changes |
| `FlameState.Clock` | main.py:217-219 | once 1000 ms have passed since the last recomputation the clock timer is set to now and, for a non-zero reading, the score to the seconds since the start; before that nothing changes; only those two fields can change |
| `FlameState.Step` | main.py:79-85 | one call of `update` or `events`: keeps validity, never lowers the best score, and on a dead fire that is not reset changes only the particle group, which does not grow |
| `FlameState.Run` | main.py:77-88 | a run of calls: no calls leave the state as it is, one call is that single step |
| `FlameState.RunKeepsValid` | main.py:169-219 | over any run of frames and events the temperature stays in [1000, 9000], the best score stays non-negative and no file is recorded twice |
| `FlameState.RunBestMonotone` | main.py:211-214 | over any run, resets included, the best score never decreases |
| `FlameState.DeadUntilReset` | main.py:181-219 | once the fire is out, any run without a space-bar press changes nothing but the particle group, and that group never grows |
| `FlameState.StepScore` | main.py:217-219 | one frame or event that is not a reset, at a clock reading no earlier than the last, does not lower the score and keeps it behind the clock |
| `FlameState.RunScoreMonotone` | main.py:217-219 | with a clock that never runs backwards, the score never decreases until a reset |
| `FlameState.ResetScoreBehind` | main.py:154-163 | right after `init` the score is not ahead of the clock |
| `FlameState.StaleScoreOnDyingTick` | main.py:210-219 | on a dying frame the best score takes the pre-frame score 5 while the same frame's clock update sets the score to 6 |
| `FlameState.ThreeBursts` | main.py:202-210 | from 8000 K, three bursts 300 ms apart leave the fire burning at 7700 K |
| `FlameState.DuplicateFuel` | main.py:184-190 | dropping the same 2000-byte file twice raises the temperature by 100 once; the file is recorded once and the second drop is reported as a duplicate |
| `FlameGame.Game.constructor` | main.py:142-163 | the new game object is in the first state: valid, burning, best score 0 |
| `FlameGame.Game.Alive` | main.py:165-167 | the object's fire burns while its temperature field is above 1000 |
| `FlameGame.Game.Init` | main.py:145-163 | re-initialisation updates the fields in place to `Reset` of the old state |
| `FlameGame.Game.AddTemp` | main.py:169-171 | the temperature field becomes `AddTemp` of the old state and ends in [1000, 9000] |
| `FlameGame.Game.UpdateTip` | main.py:173-175 | only the tip changes |
| `FlameGame.Game.UpdateClock` | main.py:177-179 | only the score changes, as `UpdateClock` says |
| `FlameGame.Game.Events` | main.py:181-195 | the object's new state is `HandleEvent` of the old one |
| `FlameGame.Game.AddParticles` | main.py:205-206 | the loop appends the burst's embers to the group, in draw order, at the current temperature |
| `FlameGame.Game.Update` | main.py:197-219 | the object's new state is `Tick` of the old one |
| `FlameGame.Game.Loop` | main.py:75-88 | feeding a run of frames and events to `Update` and `Events` leaves the object in `Run` of its old state |

## Left out

- Colour: `temp_to_color` and everything else drawn in colour are left out.
  That includes the ember's colour refresh every 200 ms (`main.py:137-140`)
  and the tip's text colour. They use floating-point `log` and `pow`.
- Ember motion (`main.py:123-128`), meaning the cosine drift, the random 4.5 %
  shrink and pygame's whole-pixel rectangles after `scale_by`. Each ember's
  rectangle after its move, and whether it shrank, come in as a `Move`. Only
  the retirement guards are modelled.
- Particles.Spawn: the image side is the exact clamp value. pygame's
  rounding of a surface's side to whole pixels is not modelled.
- Particles.ShrinkingRetires: the bound uses exact multiplication by 0.9. It
  does not model pygame's whole-pixel sizes after a shrink.
- Rendering (`font.render`, `blit`, `draw`), audio (`pg.mixer`), window
  setup, the splash screen and `get_path`. They are platform plumbing with no
  effect on the state.
- The file-size query (`os.path.getsize`). The size arrives with the drop
  event. If the real query fails, the source raises after it has already
  appended the path; that failure is not modelled.
- `Scene.loop`'s quit flag, frame throttling and display flip. `Loop` models
  only the order of `update` and `events` calls.
- Randomness. Every draw is a parameter with the range the source draws from.
  The fire band bounds are floats in the source, and passing them to
  `random.randint` is refused by some Python versions. That failure is not
  modelled.
- Python float precision. `int(size / 20)` and `int((now - start) / 1000)`
  are modelled as exact integer division truncated toward zero. Floats would
  differ only beyond 2^53.
- FlameGame.Game.constructor: the source's first `init` calls
  `update_clock` with the start time before `score` exists. A clock reading of
  0 at that moment would read an undefined attribute; the model ends with
  score 0, as `init` does afterwards.
