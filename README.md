# Zombie Whack: a verified model of the gameplay core

Zombie Whack is a single-screen whack-a-mole game. Zombies rise out of a fixed grid
of graves one at a time. The player clicks them before they sink back. The game
counts hits, misses and escapes, takes a life for every miss, and can end a round
on a countdown.

This project models the gameplay logic of `BTL1_LTG/zombie_whack.py` in Dafny and
proves what that logic guarantees. The model covers:

- the zombie's lifecycle (appearing → alive → disappearing, then the `dead` flag);
- its eased hit radius and its hit test;
- the game's mode machine (menu / playing / paused / gameover) with its scoring,
  lives, round clock and spawn cooldown;
- the grid builder `make_holes`;
- the event dispatch of `main`.

The model has two layers.

- **Values.** `ZombieRules` and `GameRules` describe a zombie and a game as
  datatypes. Every operation of the source is a function on those values, and the
  lemmas are stated over these functions: invariants, bounds, monotonicity,
  inverses, and what a run of frames does.
- **Objects.** `Objects.Zombie` and `Objects.Game` are classes with the source's
  fields. Their methods update the fields in place as the source does. Each method
  is proved to change the fields exactly as the matching function changes the
  value. `MainLoop` runs one frame of `main` on a `Game` object: every event of
  the batch in order, then `update(dt)`. It is proved to keep the game invariant
  `GameRules.Inv`.

Files:

- `options.dfy`: `Option`.
- `holes.dfy`: `make_holes` and `HOLES`.
- `zombie_rules.dfy`, `game_rules.dfy`: the value layer.
- `events.dfy`: the dispatch as a step function over abstract inputs.
- `objects.dfy`: the two classes.
- `main_loop.dfy`: the loop body on objects.

Randomness becomes parameters with the source's ranges:

- the alive time `random.uniform(0.9, 1.6)`;
- the spawn delay `random.uniform(0.4, 0.8)`;
- the hole picked by `random.choice(HOLES)`, as an index into `HOLES`.

`GameRules.Draws` bundles the draws one frame may use. The frame time `dt` is a
parameter too. Times are `real`. Python's `int()` on a float is truncation
towards zero (`ZombieRules.Trunc`). `//` is floor division (`Holes.FloorDiv`).

Where the specification of the game and the code differ, the model follows the code:

- The ease factor `k` is only capped at 1 (`min(1.0, t / t_appear)`). It is not
  clamped at 0. This makes no difference while time never runs backwards,
  which `ZombieState.Valid` records.
- There is no "gone" state. `dead` is raised while the state is still
  "disappearing", and the game drops the zombie in the same frame.
  `current_radius`'s `return 0` cannot be reached.
- The round ends when `time_left <= 0`, and the clock is then set to 0. It ends
  once, because `update` does nothing outside play (`GameOverFreezes`).
- Only the T key (line 482-484) copies the new timer flag into the current zombie.
  The menu's timer button (line 247-249) changes the game's flag only.
- In each frame, all the events are handled before `update(dt)`. So a miss that
  ends the round takes effect before the clock is looked at.
- Escape does not resume a paused game. `elif game.state=="paused"` (line 475)
  catches every paused event first, so the branch at line 485-487 never runs.
  `Events.Dispatch` states that a key press while paused changes nothing.
- The zombie's timeout is not an independent event. When the round clock expires
  (line 306), the zombie update and the spawn (line 308-316) still run in that
  frame.

## Model

| member | source | states |
|---|---|---|
| `Holes.FloorDiv` | BTL1_LTG/zombie_whack.py:80 | the quotient of Python's `//`: rounded towards negative infinity, for either sign of the divisor |
| `Holes.LayoutOf` | BTL1_LTG/zombie_whack.py:77-80 | `make_holes` fails exactly when one of its floor divisions is by zero (one column or one row); otherwise the layout has the given shape (negative counts act as empty ranges) and margins |
| `Holes.MakeHoles` | BTL1_LTG/zombie_whack.py:77-86 | the nested loops return nothing exactly on a zero divisor, and otherwise exactly the rows of the layout one after another |
| `Holes.DefaultArguments` | BTL1_LTG/zombie_whack.py:77-87 | `make_holes()` with its defaults has 5 columns, 3 rows, margins 120/90 and both steps 180 |
| `Holes.RowsLength` | BTL1_LTG/zombie_whack.py:81-85 | a grid of n rows holds exactly n·cols points |
| `Holes.RowsIndex` | BTL1_LTG/zombie_whack.py:81-85 | row-major order: the point at index r·cols + c is column c of row r, with the +10 offset on odd rows |
| `Holes.GridCovers` | BTL1_LTG/zombie_whack.py:81-85 | every point of the grid is the point of some column and row inside the grid |
| `Holes.HolesAre` | BTL1_LTG/zombie_whack.py:87 | `HOLES` is exactly the 15 listed positions, row by row |
| `ZombieRules.Trunc` | BTL1_LTG/zombie_whack.py:151 | `int()` of a non-negative float is its floor, and the result never exceeds a positive argument |
| `ZombieRules.AppearScale` | BTL1_LTG/zombie_whack.py:149-150 | the cubic ease-out is at most 1, and exactly 1 once the appearing time has run out |
| `ZombieRules.DisappearScale` | BTL1_LTG/zombie_whack.py:155-156 | the quadratic ease-in is non-negative, at most 1 for non-negative time, 1 at the start and 0 once the disappearing time has run out |
| `ZombieRules.Eased` | BTL1_LTG/zombie_whack.py:151 | `max(floor, int(46*s))` is at least the floor, at most 46 for a scale up to 1, and 46 at scale 1 |
| `ZombieRules.AppearRadius` | BTL1_LTG/zombie_whack.py:148-151 | the appearing radius lies in [5, 46] and is 46 once the appearing time has run out |
| `ZombieRules.DisappearRadius` | BTL1_LTG/zombie_whack.py:154-157 | the disappearing radius is at least 1, at most 46 for non-negative time, 46 at time 0 and 1 once the phase has run out |
| `ZombieRules.AppearRadiusMonotone` | BTL1_LTG/zombie_whack.py:148-151 | while appearing, the radius never decreases as time grows |
| `ZombieRules.DisappearRadiusAntitone` | BTL1_LTG/zombie_whack.py:154-157 | while disappearing, the radius never increases as time grows |
| `ZombieRules.ZombieState.IsHittable` | BTL1_LTG/zombie_whack.py:138-139 | a zombie is hittable exactly until it starts disappearing; a valid hittable zombie is neither dead nor already hit |
| `ZombieRules.ZombieState.HitTest` | BTL1_LTG/zombie_whack.py:141-145 | a click at the drawn centre, 50 below the hole, always passes |
| `ZombieRules.ZombieState.CurrentRadius` | BTL1_LTG/zombie_whack.py:147-158 | appearing ∈ [5, 46], alive = 46, disappearing ≥ 1 and ≤ 46 for non-negative time |
| `ZombieRules.Spawn` | BTL1_LTG/zombie_whack.py:112-122 | a new zombie starts appearing with its clock at 0, not hit and not dead; it is valid and hittable, sits at the given position and carries the given timer flag and alive time |
| `ZombieRules.Update` | BTL1_LTG/zombie_whack.py:124-136 | the phase moves at most one step forward; the clock restarts on a phase change and otherwise grows by dt; "escaped" is returned iff an alive zombie in timer mode reaches its alive time, and then the zombie is disappearing with its clock at 0; it is the only way into disappearing; `dead` is raised once the disappearing time has run out and is never lowered; nothing else changes |
| `ZombieRules.OnHit` | BTL1_LTG/zombie_whack.py:160-165 | a hit succeeds iff the zombie is hittable; on success the phase becomes disappearing, the clock 0 and the hit flag true, nothing else changes; on failure nothing changes; afterwards the zombie is not hittable |
| `ZombieRules.SecondHitFails` | BTL1_LTG/zombie_whack.py:160-165 | a second hit returns false and changes nothing |
| `ZombieRules.UpdateKeepsValid` | BTL1_LTG/zombie_whack.py:124-136 | for non-negative dt an update keeps the alive time range, a non-negative clock, and `dead`/`hit_flag` only in the disappearing phase |
| `ZombieRules.OnHitKeepsValid` | BTL1_LTG/zombie_whack.py:160-165 | a hit keeps the same facts |
| `ZombieRules.CentreHits` | BTL1_LTG/zombie_whack.py:141-145 | a click at the drawn centre (50 below the hole) always passes the hit test |
| `ZombieRules.HitWithinBaseRadius` | BTL1_LTG/zombie_whack.py:141-145 | a click that passes the hit test is within the base radius 46 of the drawn centre |
| `ZombieRules.Step` | BTL1_LTG/zombie_whack.py:124-165 | one event of a zombie's life (an update, a hit, or the T key's timer write at line 484) yields at most one escape and at most one hit |
| `ZombieRules.AtMostOneOutcome` | BTL1_LTG/zombie_whack.py:124-165 | over any sequence of updates, hits and timer writes, a zombie escapes at most once or is hit at most once, never both; a zombie that is no longer hittable does neither |
| `ZombieRules.HitZombieNeverEscapes` | BTL1_LTG/zombie_whack.py:160-165 | after a successful hit, no later update returns "escaped" and no later hit succeeds |
| `ZombieRules.AppearingEnds` | BTL1_LTG/zombie_whack.py:124-128 | an appearing zombie short of the appearing time has left the appearing phase once the ticks make up the difference, whatever hits or timer writes come between |
| `ZombieRules.SpawnedZombieRises` | BTL1_LTG/zombie_whack.py:112-128 | a new zombie ticked for at least the appearing time in total is no longer appearing |
| `ZombieRules.StillAppearing` | BTL1_LTG/zombie_whack.py:124-128 | non-negative ticks that add up to less than the appearing time leave an appearing zombie appearing, its clock advanced by exactly their sum |
| `ZombieRules.LifeMovesForward` | BTL1_LTG/zombie_whack.py:124-136 | the lifecycle never runs backwards, and `dead` and `hit_flag` once set stay set |
| `GameRules.Accuracy` | BTL1_LTG/zombie_whack.py:337-338 | accuracy lies in [0, 100], is 0 iff there are no hits, 100 iff there are hits and no misses, and times the number of clicks equals 100·hits |
| `GameRules.AccuracyExamples` | BTL1_LTG/zombie_whack.py:337-338 | accuracy is 0 with no clicks and 75 for 3 hits and 1 miss |
| `GameRules.ResetScoresOnly` | BTL1_LTG/zombie_whack.py:453-454 | hits, misses and escapes become 0 and nothing else changes |
| `GameRules.ResetAll` | BTL1_LTG/zombie_whack.py:456-460 | counters 0, lives = 3, clock = round time, no zombie, cooldown 0.4; mode, timer flag and round time unchanged |
| `GameRules.StartGame` | BTL1_LTG/zombie_whack.py:244-246 | start (and play again) is the full reset followed by the playing mode |
| `GameRules.ToggleZombieTimer` | BTL1_LTG/zombie_whack.py:247-249 | the menu button flips the game's timer flag and changes nothing else, the zombie included |
| `GameRules.ToggleTimerKey` | BTL1_LTG/zombie_whack.py:482-484 | the T key flips the game's flag and copies it into the current zombie, if any; nothing else changes |
| `GameRules.DecRoundTime` | BTL1_LTG/zombie_whack.py:252-253 | 30 seconds less unless that would go below 30, then 30; a multiple of 30 in [30, 300] stays one; nothing else changes |
| `GameRules.IncRoundTime` | BTL1_LTG/zombie_whack.py:254-255 | 30 seconds more unless that would exceed 300, then 300; a multiple of 30 in [30, 300] stays one; nothing else changes |
| `GameRules.RoundTimeInverse` | BTL1_LTG/zombie_whack.py:252-255 | away from the bounds the decrement undoes the increment and vice versa |
| `GameRules.BackToMenu` | BTL1_LTG/zombie_whack.py:261-262 | the mode becomes menu and nothing else changes |
| `GameRules.PauseGame` | BTL1_LTG/zombie_whack.py:265-266 | the mode becomes paused and nothing else changes |
| `GameRules.ResumeGame` | BTL1_LTG/zombie_whack.py:267-268 | the mode becomes playing and nothing else changes |
| `GameRules.SpawnZombie` | BTL1_LTG/zombie_whack.py:271-272 | the new zombie stands at the drawn entry of `HOLES` and inherits the game's timer flag; nothing else changes |
| `GameRules.OnClick` | BTL1_LTG/zombie_whack.py:284-298 | outside play nothing changes; in play exactly one of hits and misses grows by 1; a hit on a hittable zombie under the pointer keeps lives and mode and knocks the zombie down; a miss costs a life (not below 0) and ends the round iff lives reach 0; clock, cooldown, escapes, round time and timer flag never change |
| `GameRules.RunClock` | BTL1_LTG/zombie_whack.py:302-306 | without timer mode nothing changes; with it the clock drops by dt, floored at 0, and the round ends iff it reaches ≤ 0 |
| `GameRules.RunZombie` | BTL1_LTG/zombie_whack.py:309-313 | no zombie: nothing changes; otherwise an escape adds one to `escaped`, a zombie that became dead is removed with the new delay, a live one is kept with the cooldown unchanged |
| `GameRules.RunCooldown` | BTL1_LTG/zombie_whack.py:314-316 | the cooldown runs only with the slot empty, drops by dt, and a zombie spawns at the drawn hole iff it reaches ≤ 0 |
| `GameRules.Update` | BTL1_LTG/zombie_whack.py:300-320 | outside play (paused, menu, gameover) nothing changes; hits, misses, lives, round time and timer flag never change; in play the round ends iff timer mode is on and the clock reaches ≤ 0, the clock follows the timer flag |
| `GameRules.UpdateSpawning` | BTL1_LTG/zombie_whack.py:308-316 | the cooldown drops only while there is no zombie; escapes grow by exactly the zombie update's "escaped"; a dead zombie is cleared in the same frame and its new delay, less dt, is the cooldown; a spawned zombie is the drawn hole's with the game's flag |
| `GameRules.InitialInv` | BTL1_LTG/zombie_whack.py:197-211 | the freshly constructed game satisfies the game invariant |
| `GameRules.UpdateKeepsInv` | BTL1_LTG/zombie_whack.py:300-320 | a frame update with non-negative dt keeps the invariant: lives in [0, 3], round time a multiple of 30 in [30, 300], clock ≥ 0 and > 0 in play, lives ≥ 1 in play, an empty slot's cooldown in (0, 0.8], a present zombie valid, not dead and at a hole, with the game's timer flag while playing or paused |
| `GameRules.OnClickKeepsInv` | BTL1_LTG/zombie_whack.py:284-298 | a click keeps the invariant |
| `GameRules.ActionsKeepInv` | BTL1_LTG/zombie_whack.py:244-268 | resets, start, back to menu and the round time buttons keep the invariant; so do pause and the T key in play, resume when paused, and the menu toggle whenever no zombie is in play |
| `GameRules.StartGameIdempotent` | BTL1_LTG/zombie_whack.py:456-460 | starting twice is the same as starting once |
| `GameRules.PauseResume` | BTL1_LTG/zombie_whack.py:265-268 | pausing then resuming a game in play restores it exactly |
| `GameRules.PauseFreezes` | BTL1_LTG/zombie_whack.py:319-320 | any number of frames while paused leave the whole game unchanged |
| `GameRules.ClockRunning` | BTL1_LTG/zombie_whack.py:302-306 | in a timed round, while the elapsed frames sum to less than the time left, the round goes on with exactly the difference left |
| `GameRules.ClockRunsOut` | BTL1_LTG/zombie_whack.py:302-306 | once the elapsed frames reach the time left, the round is over with the clock at 0 |
| `GameRules.GameOverFreezes` | BTL1_LTG/zombie_whack.py:300-320 | after the round has ended, further frames change nothing |
| `GameRules.UntimedRoundNeverExpires` | BTL1_LTG/zombie_whack.py:302-306 | without timer mode, frames never end the round and never touch the clock, the lives or the hits |
| `GameRules.ThreeMissesEndRound` | BTL1_LTG/zombie_whack.py:294-298 | right after a start, three clicks (none can hit, there is no zombie yet) end the round with 0 lives and 3 misses |
| `GameRules.ClickAtCentreHits` | BTL1_LTG/zombie_whack.py:284-290 | in play, a click at a hittable zombie's drawn centre is a hit that costs no life and leaves it unhittable |
| `Events.Press` | BTL1_LTG/zombie_whack.py:217-233 | start, play again and resume lead to play; both menu buttons lead to the menu; the time, timer and quit buttons keep the mode; quit changes nothing; no button but start and play again touches the hits, misses, escapes, lives or zombie |
| `Events.PressAll` | BTL1_LTG/zombie_whack.py:470-477 | buttons the click is not over do nothing; without start or play again among the clicked buttons the score, lives and zombie are kept; a one-button tuple is that button's press |
| `Events.DispatchAll` | BTL1_LTG/zombie_whack.py:467-490 | a batch of quit and irrelevant events changes nothing; while paused, a batch without clicks changes nothing; a one-event batch is that event's dispatch |
| `Events.Frame` | BTL1_LTG/zombie_whack.py:465-506 | a paused frame without clicks leaves the game unchanged; a frame without events is just `update(dt)`; the update never changes the round time or the hits the events left |
| `Events.Dispatch` | BTL1_LTG/zombie_whack.py:467-490 | a quit or irrelevant event changes nothing; menu leads only to menu or play, play only to play, pause or gameover, paused only to paused, play or menu with nothing but the mode changed, gameover never to paused; a key press while paused changes nothing; only Escape in play pauses |
| `Events.InPlay` | BTL1_LTG/zombie_whack.py:478-490 | in play the mode becomes paused iff the event is Escape, and Escape is exactly `pause_game` |
| `Events.DispatchKeepsInv` | BTL1_LTG/zombie_whack.py:467-490 | every event keeps the game invariant |
| `Events.MenuPressesKeepInv` | BTL1_LTG/zombie_whack.py:469-471 | the menu's buttons, handed one click in any order, keep the invariant (after Start the slot is empty, so a following toggle is harmless) |
| `Events.DispatchAllKeepsInv` | BTL1_LTG/zombie_whack.py:467-490 | a whole batch of events keeps the invariant |
| `Events.FrameKeepsInv` | BTL1_LTG/zombie_whack.py:465-506 | a frame (the batch, then the update with non-negative dt) keeps the invariant |
| `Objects.Zombie.constructor` | BTL1_LTG/zombie_whack.py:112-122 | the new object's fields are the spawned zombie's |
| `Objects.Zombie.IsHittable` | BTL1_LTG/zombie_whack.py:138-139 | the object is hittable exactly while its state is not disappearing |
| `Objects.Zombie.HitTest` | BTL1_LTG/zombie_whack.py:141-145 | a click at the object's drawn centre always passes |
| `Objects.Zombie.Update` | BTL1_LTG/zombie_whack.py:124-136 | the fields and the returned signal become exactly `ZombieRules.Update` of the old fields |
| `Objects.Zombie.OnHit` | BTL1_LTG/zombie_whack.py:160-165 | the fields and the result become exactly `ZombieRules.OnHit` of the old fields |
| `Objects.Game.constructor` | BTL1_LTG/zombie_whack.py:197-211 | the new game is in the initial state (menu, timer on, 60 s, 3 lives, cooldown 0.6, counters 0) and satisfies the invariant |
| `Objects.Game.StartGame` | BTL1_LTG/zombie_whack.py:244-246 | the fields become `GameRules.StartGame` of the old ones, with no zombie object |
| `Objects.Game.ToggleZombieTimer` | BTL1_LTG/zombie_whack.py:247-249 | the fields become `GameRules.ToggleZombieTimer` of the old ones, with the same zombie object |
| `Objects.Game.DecRoundTime` | BTL1_LTG/zombie_whack.py:252-253 | the fields become `GameRules.DecRoundTime` of the old ones |
| `Objects.Game.IncRoundTime` | BTL1_LTG/zombie_whack.py:254-255 | the fields become `GameRules.IncRoundTime` of the old ones |
| `Objects.Game.PlayAgain` | BTL1_LTG/zombie_whack.py:258-260 | play again does what start does |
| `Objects.Game.BackToMenu` | BTL1_LTG/zombie_whack.py:261-262 | only the mode changes, to menu |
| `Objects.Game.PauseGame` | BTL1_LTG/zombie_whack.py:265-266 | only the mode changes, to paused |
| `Objects.Game.ResumeGame` | BTL1_LTG/zombie_whack.py:267-268 | only the mode changes, to playing |
| `Objects.Game.SpawnZombie` | BTL1_LTG/zombie_whack.py:271-272 | a freshly allocated zombie at the drawn hole, as `GameRules.SpawnZombie` |
| `Objects.Game.OnClick` | BTL1_LTG/zombie_whack.py:284-298 | the fields, and the zombie's, become `GameRules.OnClick` of the old ones; the zombie object stays the same |
| `Objects.Game.Update` | BTL1_LTG/zombie_whack.py:300-320 | the fields, and the zombie's, become `GameRules.Update` of the old ones; the zombie is the old object, none, or a fresh one |
| `Objects.Game.ResetScoresOnly` | BTL1_LTG/zombie_whack.py:453-454 | the fields become `GameRules.ResetScoresOnly` of the old ones |
| `Objects.Game.ResetAll` | BTL1_LTG/zombie_whack.py:456-460 | the fields become `GameRules.ResetAll` of the old ones, with no zombie object |
| `MainLoop.PressButton` | BTL1_LTG/zombie_whack.py:217-233 | a button's callback changes the game as `Events.Press` says |
| `MainLoop.HandleButtons` | BTL1_LTG/zombie_whack.py:470-477 | handing a click to a mode's buttons in tuple order changes the game as `Events.PressAll` says |
| `MainLoop.HandleEvent` | BTL1_LTG/zombie_whack.py:467-490 | one event changes the game object exactly as `Events.Dispatch` changes its value |
| `MainLoop.RunFrame` | BTL1_LTG/zombie_whack.py:465-506 | one pass of the loop changes the game as `Events.Frame` says, keeps the invariant, and the loop goes on iff it was running and the batch held no quit event |

## Left out

- Pygame set-up: initialisation, the mixer, the window, the clock and the fonts (lines 23-35). These are calls into a foreign library.
- Loading the images, sounds and music, with its file-existence probing (lines 38-74). This is I/O.
- The hit sound (lines 291-293). No sound event is modelled. When the sound loaded (lines 61-66), playing it is attempted exactly when `hits` grows, and a failing play is ignored. `GameRules.OnClick` states when `hits` grows.
- Everything that draws: `blit_center`, `Zombie.draw`, `build_background`, the `draw_*` methods and `Game.draw` (lines 103-108, 167-175, 236-241, 323-450). This is rendering only. The timer button's label (line 249) is rendering too.
- Particles: `Particle`, `add_hit_particles`, `update_particles`, and the clearing of the particle list in `reset_all` (lines 90-100, 274-282, 460). Gameplay never reads them.
- Button rectangles, hover state and mouse polling (lines 179-193, 492-504). A left click carries the set of buttons whose rectangles contain it. The click's position stands for `pygame.mouse.get_pos()`.
- `quit_game` (lines 250-251). Pressing the quit button posts a quit event for a later frame. The model does not post that event; the press leaves the game unchanged. A quit event in the batch does stop the loop, as `MainLoop.RunFrame` states.
- The frame time from `clock.tick` (line 466) is a parameter. `MainLoop.RunFrame` and the invariant lemmas require it to be non-negative, which the clock always provides.
- `MainLoop.RunFrame` also requires `game.Valid()`, the invariant. The object's constructor establishes it and every frame keeps it, so every game the loop sees has it.
- Floating-point rounding. Times, eases and accuracy are exact reals. Where a float computation rounds, the model reads the exact value.
- The unreachable branch at lines 485-487 has no code in the model. `Events.Dispatch` states its effect: none.
- `BTL1_LTG/test_grave.py` is not part of this model. It only probes for an image file and prints the result.
