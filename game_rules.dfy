/**
 * The game as values: the mode machine menu / playing / paused / gameover, the
 * score counters, the lives, the round clock, the single zombie slot and the spawn
 * cooldown, with one function per action of `Game` and the frame update. The class
 * `Objects.Game` is proved against the functions here.
 */
module GameRules {
  import opened Options
  import opened Holes
  import ZombieRules

  type ZombieState = ZombieRules.ZombieState

  datatype Mode = Menu | Playing | Paused | GameOver

  const LIVES_MAX: nat := 3
  const MIN_ROUND_TIME: int := 30
  const MAX_ROUND_TIME: int := 300
  const ROUND_TIME_STEP: int := 30
  const INITIAL_ROUND_TIME: int := 60
  /** The bounds of `random.uniform(*spawn_delay)`. */
  const SPAWN_DELAY_MIN: real := 0.4
  const SPAWN_DELAY_MAX: real := 0.8
  const INITIAL_SPAWN_IN: real := 0.6
  const RESTART_SPAWN_IN: real := 0.4

  /**
   * The random draws one frame update may consume: the next spawn delay, the hole
   * `random.choice(HOLES)` picks (as its index) and the new zombie's alive time.
   */
  datatype Draws = Draws(delay: real, hole: nat, tAlive: real)
  {
    predicate Valid() {
      && SPAWN_DELAY_MIN <= delay <= SPAWN_DELAY_MAX
      && hole < |HOLES|
      && ZombieRules.AliveTimeInRange(tAlive)
    }
  }

  /** The gameplay fields of `Game` (the constant `lives_max` and `spawn_delay` are the constants above). */
  datatype GameState = GameState(
    mode: Mode,
    timerMode: bool,
    roundTime: int,
    timeLeft: real,
    lives: nat,
    zombie: Option<ZombieState>,
    nextSpawnIn: real,
    hits: nat,
    missClicks: nat,
    escaped: nat)

  /** The state `Game()` starts in. */
  const INITIAL: GameState :=
    GameState(Menu, true, INITIAL_ROUND_TIME, INITIAL_ROUND_TIME as real, LIVES_MAX, None,
              INITIAL_SPAWN_IN, 0, 0, 0)

  /** A round length the menu can show: 30 to 300 seconds in steps of 30. */
  predicate RoundTimeOk(t: int) {
    MIN_ROUND_TIME <= t <= MAX_ROUND_TIME && t % ROUND_TIME_STEP == 0
  }

  /** The accuracy shown in the HUD and the summaries: `100 * hits / max(1, hits + miss_clicks)`. */
  function Accuracy(hits: nat, missClicks: nat): (a: real)
    ensures 0.0 <= a <= 100.0
    ensures a == 0.0 <==> hits == 0
    ensures a == 100.0 <==> hits > 0 && missClicks == 0
    ensures hits + missClicks > 0 ==> a * (hits + missClicks) as real == 100.0 * hits as real
  {
    var total := if hits + missClicks >= 1 then hits + missClicks else 1;
    100.0 * hits as real / total as real
  }

  lemma AccuracyExamples()
    ensures Accuracy(0, 0) == 0.0
    ensures Accuracy(3, 1) == 75.0
  {
  }

  /** `reset_scores_only`: zeroes the three counters and nothing else. */
  function ResetScoresOnly(g: GameState): (r: GameState)
    ensures r.hits == 0 && r.missClicks == 0 && r.escaped == 0
    ensures r.(hits := g.hits, missClicks := g.missClicks, escaped := g.escaped) == g
  {
    g.(hits := 0, missClicks := 0, escaped := 0)
  }

  /** `reset_all`: a fresh round's counters, lives, clock, empty zombie slot and cooldown. */
  function ResetAll(g: GameState): (r: GameState)
    ensures r.hits == 0 && r.missClicks == 0 && r.escaped == 0
    ensures r.lives == LIVES_MAX && r.timeLeft == g.roundTime as real
    ensures r.zombie == None && r.nextSpawnIn == RESTART_SPAWN_IN
    ensures r.mode == g.mode && r.timerMode == g.timerMode && r.roundTime == g.roundTime
  {
    ResetScoresOnly(g).(lives := LIVES_MAX, timeLeft := g.roundTime as real, zombie := None,
                        nextSpawnIn := RESTART_SPAWN_IN)
  }

  /** `start_game` and `play_again`: a full reset, then the playing mode. */
  function StartGame(g: GameState): (r: GameState)
    ensures r.mode == Playing
    ensures r.(mode := g.mode) == ResetAll(g)
  {
    ResetAll(g).(mode := Playing)
  }

  /** `back_to_menu`: only the mode changes. */
  function BackToMenu(g: GameState): (r: GameState)
    ensures r.mode == Menu && r.(mode := g.mode) == g
  {
    g.(mode := Menu)
  }

  /** `pause_game`: only the mode changes. */
  function PauseGame(g: GameState): (r: GameState)
    ensures r.mode == Paused && r.(mode := g.mode) == g
  {
    g.(mode := Paused)
  }

  /** `resume_game`: only the mode changes. */
  function ResumeGame(g: GameState): (r: GameState)
    ensures r.mode == Playing && r.(mode := g.mode) == g
  {
    g.(mode := Playing)
  }

  /** `toggle_zombie_timer`, the menu button: flips the game's flag, not the zombie's. */
  function ToggleZombieTimer(g: GameState): (r: GameState)
    ensures r.timerMode == !g.timerMode
    ensures r.(timerMode := g.timerMode) == g
  {
    g.(timerMode := !g.timerMode)
  }

  /** The T key while playing: flips the game's flag and copies it into the current zombie. */
  function ToggleTimerKey(g: GameState): (r: GameState)
    ensures r.timerMode == !g.timerMode
    ensures r.zombie.Some? <==> g.zombie.Some?
    ensures r.zombie.Some? ==> r.zombie.value == g.zombie.value.(timerMode := r.timerMode)
    ensures r.(timerMode := g.timerMode, zombie := g.zombie) == g
  {
    var t := !g.timerMode;
    g.(timerMode := t,
       zombie := match g.zombie
                 case None => None
                 case Some(z) => Some(z.(timerMode := t)))
  }

  /** `dec_round_time`: 30 seconds less, saturating at 30; nothing else changes. */
  function DecRoundTime(g: GameState): (r: GameState)
    ensures MIN_ROUND_TIME <= r.roundTime
    ensures g.roundTime - ROUND_TIME_STEP >= MIN_ROUND_TIME ==> r.roundTime == g.roundTime - ROUND_TIME_STEP
    ensures g.roundTime - ROUND_TIME_STEP < MIN_ROUND_TIME ==> r.roundTime == MIN_ROUND_TIME
    ensures RoundTimeOk(g.roundTime) ==> RoundTimeOk(r.roundTime)
    ensures r.(roundTime := g.roundTime) == g
  {
    g.(roundTime := if MIN_ROUND_TIME >= g.roundTime - ROUND_TIME_STEP then MIN_ROUND_TIME
                    else g.roundTime - ROUND_TIME_STEP)
  }

  /** `inc_round_time`: 30 seconds more, saturating at 300; nothing else changes. */
  function IncRoundTime(g: GameState): (r: GameState)
    ensures r.roundTime <= MAX_ROUND_TIME
    ensures g.roundTime + ROUND_TIME_STEP <= MAX_ROUND_TIME ==> r.roundTime == g.roundTime + ROUND_TIME_STEP
    ensures g.roundTime + ROUND_TIME_STEP > MAX_ROUND_TIME ==> r.roundTime == MAX_ROUND_TIME
    ensures RoundTimeOk(g.roundTime) ==> RoundTimeOk(r.roundTime)
    ensures r.(roundTime := g.roundTime) == g
  {
    g.(roundTime := if MAX_ROUND_TIME <= g.roundTime + ROUND_TIME_STEP then MAX_ROUND_TIME
                    else g.roundTime + ROUND_TIME_STEP)
  }

  /** Below the top the two adjustments undo each other, and so above the bottom. */
  lemma RoundTimeInverse(g: GameState)
    ensures MIN_ROUND_TIME <= g.roundTime <= MAX_ROUND_TIME - ROUND_TIME_STEP ==>
              DecRoundTime(IncRoundTime(g)) == g
    ensures MIN_ROUND_TIME + ROUND_TIME_STEP <= g.roundTime <= MAX_ROUND_TIME ==>
              IncRoundTime(DecRoundTime(g)) == g
  {
  }

  /** `spawn_zombie`: a new zombie at the drawn hole, inheriting the game's timer flag. */
  function SpawnZombie(g: GameState, hole: nat, tAlive: real): (r: GameState)
    requires hole < |HOLES| && ZombieRules.AliveTimeInRange(tAlive)
    ensures r.zombie == Some(ZombieRules.Spawn(HOLES[hole], g.timerMode, tAlive))
    ensures r.(zombie := g.zombie) == g
  {
    g.(zombie := Some(ZombieRules.Spawn(HOLES[hole], g.timerMode, tAlive)))
  }

  /** The condition for a hit: a zombie is present, hittable and under the pointer. */
  predicate OnTarget(g: GameState, mx: int, my: int) {
    g.zombie.Some? && g.zombie.value.IsHittable() && g.zombie.value.HitTest(mx, my)
  }

  /**
   * `on_click(mx, my)`. Outside play nothing changes. In play a click is a hit or a miss:
   * a hit counts one hit and knocks the zombie into its disappearing phase; a miss
   * counts one miss, costs a life (not below 0) and ends the round when none is left.
   */
  function OnClick(g: GameState, mx: int, my: int): (r: GameState)
    ensures g.mode != Playing ==> r == g
    ensures g.mode == Playing ==>
              && r.hits + r.missClicks == g.hits + g.missClicks + 1
              && g.hits <= r.hits && g.missClicks <= r.missClicks
    ensures g.mode == Playing && OnTarget(g, mx, my) ==>
              && r.hits == g.hits + 1 && r.lives == g.lives && r.mode == Playing
              && r.zombie == Some(ZombieRules.OnHit(g.zombie.value).0)
    ensures g.mode == Playing && !OnTarget(g, mx, my) ==>
              && r.missClicks == g.missClicks + 1
              && r.lives == (if g.lives == 0 then 0 else g.lives - 1)
              && (r.mode == GameOver <==> r.lives == 0)
              && (r.mode != GameOver ==> r.mode == Playing)
              && r.zombie == g.zombie
    ensures r.escaped == g.escaped && r.timeLeft == g.timeLeft && r.nextSpawnIn == g.nextSpawnIn
    ensures r.roundTime == g.roundTime && r.timerMode == g.timerMode
  {
    if g.mode != Playing then g
    else
      var (zombie, hit) :=
        if OnTarget(g, mx, my) then
          var (z, ok) := ZombieRules.OnHit(g.zombie.value); (Some(z), ok)
        else (g.zombie, false);
      if hit then g.(zombie := zombie, hits := g.hits + 1)
      else
        var lives := if g.lives - 1 < 0 then 0 else g.lives - 1;
        g.(zombie := zombie, missClicks := g.missClicks + 1, lives := lives,
           mode := if lives == 0 then GameOver else g.mode)
  }

  /** The first step of `update`: the round clock runs only in timer mode and ends the round at 0. */
  function RunClock(g: GameState, dt: real): (r: GameState)
    ensures !g.timerMode ==> r == g
    ensures g.timerMode ==> r.timeLeft == (if g.timeLeft - dt <= 0.0 then 0.0 else g.timeLeft - dt)
    ensures r.mode == (if g.timerMode && g.timeLeft - dt <= 0.0 then GameOver else g.mode)
    ensures r.(timeLeft := g.timeLeft, mode := g.mode) == g
  {
    if !g.timerMode then g
    else if g.timeLeft - dt <= 0.0 then g.(timeLeft := 0.0, mode := GameOver)
    else g.(timeLeft := g.timeLeft - dt)
  }

  /**
   * The second step of `update`: the zombie's own update; an escape is counted, and a zombie that
   * has become dead is removed at once and a new spawn delay is drawn.
   */
  function RunZombie(g: GameState, dt: real, delay: real): (r: GameState)
    ensures g.zombie.None? ==> r == g
    ensures g.zombie.Some? ==>
              var (n, sig) := ZombieRules.Update(g.zombie.value, dt);
              && r.escaped == (if sig == ZombieRules.Escaped then g.escaped + 1 else g.escaped)
              && (n.dead ==> r.zombie == None && r.nextSpawnIn == delay)
              && (!n.dead ==> r.zombie == Some(n) && r.nextSpawnIn == g.nextSpawnIn)
    ensures r.(zombie := g.zombie, escaped := g.escaped, nextSpawnIn := g.nextSpawnIn) == g
  {
    match g.zombie
    case None => g
    case Some(z) =>
      var (n, sig) := ZombieRules.Update(z, dt);
      var g1 := g.(escaped := if sig == ZombieRules.Escaped then g.escaped + 1 else g.escaped);
      if n.dead then g1.(zombie := None, nextSpawnIn := delay) else g1.(zombie := Some(n))
  }

  /** The last step of `update`: the cooldown runs only while the slot is empty, and spawns when it is used up. */
  function RunCooldown(g: GameState, dt: real, d: Draws): (r: GameState)
    requires d.Valid()
    ensures g.zombie.Some? ==> r == g
    ensures g.zombie.None? ==>
              && r.nextSpawnIn == g.nextSpawnIn - dt
              && (r.zombie.Some? <==> g.nextSpawnIn - dt <= 0.0)
              && (r.zombie.Some? ==> r.zombie.value == ZombieRules.Spawn(HOLES[d.hole], g.timerMode, d.tAlive))
    ensures r.(zombie := g.zombie, nextSpawnIn := g.nextSpawnIn) == g
  {
    if g.zombie.Some? then g
    else
      var n := g.nextSpawnIn - dt;
      if n <= 0.0 then SpawnZombie(g.(nextSpawnIn := n), d.hole, d.tAlive)
      else g.(nextSpawnIn := n)
  }

  /**
   * `update(dt)`: only the playing mode changes anything. The clock expiring turns the
   * mode to gameover, yet the zombie and the cooldown still run in the same frame.
   */
  function Update(g: GameState, dt: real, d: Draws): (r: GameState)
    requires d.Valid()
    ensures g.mode != Playing ==> r == g
    ensures r.hits == g.hits && r.missClicks == g.missClicks && r.lives == g.lives
    ensures r.roundTime == g.roundTime && r.timerMode == g.timerMode
    ensures g.mode == Playing ==>
              && (r.mode == GameOver <==> g.timerMode && g.timeLeft - dt <= 0.0)
              && (r.mode != GameOver ==> r.mode == Playing)
              && r.timeLeft == (if !g.timerMode then g.timeLeft
                                else if g.timeLeft - dt <= 0.0 then 0.0 else g.timeLeft - dt)
  {
    if g.mode == Playing then RunCooldown(RunZombie(RunClock(g, dt), dt, d.delay), dt, d) else g
  }

  /** The zombie slot and the cooldown after one frame of play. */
  lemma UpdateSpawning(g: GameState, dt: real, d: Draws)
    requires d.Valid() && g.mode == Playing
    ensures var r := Update(g, dt, d);
      && (g.zombie.None? ==>
            && r.escaped == g.escaped && r.nextSpawnIn == g.nextSpawnIn - dt
            && (r.zombie.Some? <==> g.nextSpawnIn - dt <= 0.0))
      && (g.zombie.Some? ==>
            var (n, sig) := ZombieRules.Update(g.zombie.value, dt);
            && r.escaped == (if sig == ZombieRules.Escaped then g.escaped + 1 else g.escaped)
            && (!n.dead ==> r.zombie == Some(n) && r.nextSpawnIn == g.nextSpawnIn)
            && (n.dead ==> r.nextSpawnIn == d.delay - dt && (r.zombie.Some? <==> d.delay - dt <= 0.0)))
      && (r.zombie.Some? && r.zombie != g.zombie && (g.zombie.None? || ZombieRules.Update(g.zombie.value, dt).0.dead) ==>
            r.zombie.value == ZombieRules.Spawn(HOLES[d.hole], g.timerMode, d.tAlive))
  {
  }

  /** What stays true of the game from its creation on. */
  predicate Inv(g: GameState) {
    && g.lives <= LIVES_MAX
    && RoundTimeOk(g.roundTime)
    && 0.0 <= g.timeLeft
    && (g.mode == Playing || g.mode == Paused ==> g.lives >= 1 && 0.0 < g.timeLeft)
    && (g.zombie.None? ==> 0.0 < g.nextSpawnIn <= SPAWN_DELAY_MAX)
    && (g.zombie.Some? ==>
          var z := g.zombie.value;
          z.Valid() && !z.dead && (z.x, z.y) in HOLES)
    && (g.zombie.Some? && (g.mode == Playing || g.mode == Paused) ==>
          g.zombie.value.timerMode == g.timerMode)
  }

  lemma InitialInv()
    ensures Inv(INITIAL)
  {
  }

  lemma UpdateKeepsInv(g: GameState, dt: real, d: Draws)
    requires Inv(g) && 0.0 <= dt && d.Valid()
    ensures Inv(Update(g, dt, d))
  {
    if g.mode == Playing {
      var g1 := RunClock(g, dt);
      var g2 := RunZombie(g1, dt, d.delay);
      if g.zombie.Some? {
        ZombieRules.UpdateKeepsValid(g.zombie.value, dt);
      }
      assert g2.zombie.None? ==> 0.0 < g2.nextSpawnIn <= SPAWN_DELAY_MAX || g.zombie.Some?;
    }
  }

  lemma OnClickKeepsInv(g: GameState, mx: int, my: int)
    requires Inv(g)
    ensures Inv(OnClick(g, mx, my))
  {
    if OnTarget(g, mx, my) {
      ZombieRules.OnHitKeepsValid(g.zombie.value);
    }
  }

  /** The menu's actions keep the invariant, and so do the playing mode's keys. */
  lemma ActionsKeepInv(g: GameState)
    requires Inv(g)
    ensures Inv(ResetScoresOnly(g)) && Inv(StartGame(g)) && Inv(BackToMenu(g))
    ensures Inv(DecRoundTime(g)) && Inv(IncRoundTime(g))
    ensures g.mode == Playing ==> Inv(PauseGame(g)) && Inv(ToggleTimerKey(g))
    ensures g.mode == Paused ==> Inv(ResumeGame(g))
    ensures (g.mode == Playing || g.mode == Paused ==> g.zombie.None?) ==> Inv(ToggleZombieTimer(g))
  {
  }

  /** Starting twice is starting once. */
  lemma StartGameIdempotent(g: GameState)
    ensures StartGame(StartGame(g)) == StartGame(g)
  {
  }

  /** A pause followed by a resume restores the game exactly. */
  lemma PauseResume(g: GameState)
    requires g.mode == Playing
    ensures ResumeGame(PauseGame(g)) == g
  {
  }

  /** One frame of elapsed time and the random draws it may use. */
  datatype Tick = Tick(dt: real, draws: Draws)

  predicate TicksOk(ts: seq<Tick>) {
    forall i :: 0 <= i < |ts| ==> 0.0 <= ts[i].dt && ts[i].draws.Valid()
  }

  /** Several frames with no input in between. */
  function Ticks(g: GameState, ts: seq<Tick>): GameState
    requires TicksOk(ts)
    decreases |ts|
  {
    if ts == [] then g else Ticks(Update(g, ts[0].dt, ts[0].draws), ts[1..])
  }

  function Elapsed(ts: seq<Tick>): real
    decreases |ts|
  {
    if ts == [] then 0.0 else ts[0].dt + Elapsed(ts[1..])
  }

  /** Time spent paused changes nothing: neither the clock, nor the zombie, nor the counters. */
  lemma {:induction false} PauseFreezes(g: GameState, ts: seq<Tick>)
    requires g.mode == Paused && TicksOk(ts)
    ensures Ticks(g, ts) == g
    decreases |ts|
  {
    if ts != [] {
      PauseFreezes(g, ts[1..]);
    }
  }

  /** Before the clock has run out, a timed round goes on and has exactly the rest of its time left. */
  lemma {:induction false} ClockRunning(g: GameState, ts: seq<Tick>)
    requires g.mode == Playing && g.timerMode && TicksOk(ts) && Elapsed(ts) < g.timeLeft
    ensures Ticks(g, ts).mode == Playing && Ticks(g, ts).timeLeft == g.timeLeft - Elapsed(ts)
    decreases |ts|
  {
    if ts != [] {
      ElapsedNonNegative(ts[1..]);
      ClockRunning(Update(g, ts[0].dt, ts[0].draws), ts[1..]);
    }
  }

  /** Once the frames add up to the time left, a timed round is over with the clock at 0. */
  lemma {:induction false} ClockRunsOut(g: GameState, ts: seq<Tick>)
    requires g.mode == Playing && g.timerMode && TicksOk(ts) && 0.0 < g.timeLeft <= Elapsed(ts)
    ensures Ticks(g, ts).mode == GameOver && Ticks(g, ts).timeLeft == 0.0
    decreases |ts|
  {
    var g1 := Update(g, ts[0].dt, ts[0].draws);
    if g1.mode == GameOver {
      GameOverFreezes(g1, ts[1..]);
    } else {
      ClockRunsOut(g1, ts[1..]);
    }
  }

  /** After the round has ended, frames change nothing: the end of a round is signalled once. */
  lemma {:induction false} GameOverFreezes(g: GameState, ts: seq<Tick>)
    requires g.mode == GameOver && TicksOk(ts)
    ensures Ticks(g, ts) == g
    decreases |ts|
  {
    if ts != [] {
      GameOverFreezes(g, ts[1..]);
    }
  }

  /** Without timer mode the clock is frozen and time alone never ends the round. */
  lemma {:induction false} UntimedRoundNeverExpires(g: GameState, ts: seq<Tick>)
    requires g.mode == Playing && !g.timerMode && TicksOk(ts)
    ensures Ticks(g, ts).mode == Playing && Ticks(g, ts).timeLeft == g.timeLeft
    ensures Ticks(g, ts).lives == g.lives && Ticks(g, ts).hits == g.hits
    decreases |ts|
  {
    if ts != [] {
      UntimedRoundNeverExpires(Update(g, ts[0].dt, ts[0].draws), ts[1..]);
    }
  }

  lemma {:induction false} ElapsedNonNegative(ts: seq<Tick>)
    requires TicksOk(ts)
    ensures 0.0 <= Elapsed(ts)
    decreases |ts|
  {
    if ts != [] {
      ElapsedNonNegative(ts[1..]);
    }
  }

  /** Three misses straight after a start use up all lives and end the round, whatever the clock says. */
  lemma ThreeMissesEndRound(g: GameState, p1: Point, p2: Point, p3: Point)
    ensures var r := OnClick(OnClick(OnClick(StartGame(g), p1.0, p1.1), p2.0, p2.1), p3.0, p3.1);
      r.mode == GameOver && r.lives == 0 && r.missClicks == 3 && r.hits == 0
  {
  }

  /** A click at the drawn centre of a hittable zombie scores a hit and costs no life. */
  lemma ClickAtCentreHits(g: GameState)
    requires g.mode == Playing && g.zombie.Some? && g.zombie.value.IsHittable()
    ensures var z := g.zombie.value;
      var r := OnClick(g, z.x, z.y + ZombieRules.DRAW_OFFSET);
      r.hits == g.hits + 1 && r.lives == g.lives && r.mode == Playing && !r.zombie.value.IsHittable()
  {
    ZombieRules.CentreHits(g.zombie.value);
  }
}
