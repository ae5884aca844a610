/**
 * The two objects of the game whose fields change in place: `Zombie` and `Game`.
 * Each method is proved to move the object's fields exactly as the matching
 * function of `ZombieRules` or `GameRules` moves its value.
 */
module Objects {
  import opened Options
  import opened Holes
  import ZombieRules
  import GameRules

  class Zombie {
    const x: int
    const y: int
    var state: ZombieRules.Phase
    const tAlive: real
    var timerMode: bool
    var timeInState: real
    var hitFlag: bool
    var dead: bool

    /** The fields as a value. */
    function Snapshot(): ZombieRules.ZombieState
      reads this
    {
      ZombieRules.ZombieState(x, y, state, tAlive, timerMode, timeInState, hitFlag, dead)
    }

    /** `Zombie(pos, timer_mode)`, with the alive time `random.uniform(0.9, 1.6)` drawn. */
    constructor (pos: Point, timerMode: bool, tAlive: real)
      requires ZombieRules.AliveTimeInRange(tAlive)
      ensures Snapshot() == ZombieRules.Spawn(pos, timerMode, tAlive)
    {
      x, y := pos.0, pos.1;
      state := ZombieRules.Appearing;
      this.tAlive := tAlive;
      this.timerMode := timerMode;
      timeInState := 0.0;
      hitFlag := false;
      dead := false;
    }

    predicate IsHittable(): (b: bool)
      reads this
      ensures b <==> state != ZombieRules.Disappearing
    {
      Snapshot().IsHittable()
    }

    predicate HitTest(mx: int, my: int): (b: bool)
      reads this
      ensures mx == x && my == y + ZombieRules.DRAW_OFFSET ==> b
    {
      Snapshot().HitTest(mx, my)
    }

    method Update(dt: real) returns (sig: ZombieRules.Signal)
      modifies this
      ensures (Snapshot(), sig) == ZombieRules.Update(old(Snapshot()), dt)
    {
      timeInState := timeInState + dt;
      sig := ZombieRules.Quiet;
      if state == ZombieRules.Appearing {
        if timeInState >= ZombieRules.T_APPEAR {
          state := ZombieRules.Alive;
          timeInState := 0.0;
        }
      } else if state == ZombieRules.Alive {
        if timerMode && timeInState >= tAlive {
          state := ZombieRules.Disappearing;
          timeInState := 0.0;
          sig := ZombieRules.Escaped;
        }
      } else if timeInState >= ZombieRules.T_DISAPPEAR {
        dead := true;
      }
    }

    method OnHit() returns (ok: bool)
      modifies this
      ensures (Snapshot(), ok) == ZombieRules.OnHit(old(Snapshot()))
    {
      ok := IsHittable();
      if ok {
        hitFlag := true;
        state := ZombieRules.Disappearing;
        timeInState := 0.0;
      }
    }
  }

  class Game {
    var state: GameRules.Mode
    var timerMode: bool
    var roundTime: int
    var timeLeft: real
    var lives: nat
    var zombie: Zombie?
    var nextSpawnIn: real
    var hits: nat
    var missClicks: nat
    var escaped: nat

    function ZombieSnapshot(): Option<ZombieRules.ZombieState>
      reads this, zombie
    {
      if zombie == null then None else Some(zombie.Snapshot())
    }

    /** The gameplay fields, and the current zombie's, as a value. */
    function Snapshot(): GameRules.GameState
      reads this, zombie
    {
      GameRules.GameState(state, timerMode, roundTime, timeLeft, lives, ZombieSnapshot(),
                          nextSpawnIn, hits, missClicks, escaped)
    }

    predicate Valid()
      reads this, zombie
    {
      GameRules.Inv(Snapshot())
    }

    constructor ()
      ensures Snapshot() == GameRules.INITIAL && Valid()
    {
      state := GameRules.Menu;
      timerMode := true;
      roundTime := 60;
      timeLeft := 60.0;
      lives := GameRules.LIVES_MAX;
      zombie := null;
      nextSpawnIn := 0.6;
      hits, missClicks, escaped := 0, 0, 0;
      GameRules.InitialInv();
    }

    method StartGame()
      modifies this
      ensures Snapshot() == GameRules.StartGame(old(Snapshot())) && zombie == null
    {
      ResetAll();
      state := GameRules.Playing;
    }

    method ToggleZombieTimer()
      modifies this
      ensures Snapshot() == GameRules.ToggleZombieTimer(old(Snapshot())) && zombie == old(zombie)
    {
      timerMode := !timerMode;
    }

    method DecRoundTime()
      modifies this
      ensures Snapshot() == GameRules.DecRoundTime(old(Snapshot())) && zombie == old(zombie)
    {
      roundTime := if 30 >= roundTime - 30 then 30 else roundTime - 30;
    }

    method IncRoundTime()
      modifies this
      ensures Snapshot() == GameRules.IncRoundTime(old(Snapshot())) && zombie == old(zombie)
    {
      roundTime := if 300 <= roundTime + 30 then 300 else roundTime + 30;
    }

    method PlayAgain()
      modifies this
      ensures Snapshot() == GameRules.StartGame(old(Snapshot())) && zombie == null
    {
      ResetAll();
      state := GameRules.Playing;
    }

    method BackToMenu()
      modifies this
      ensures Snapshot() == GameRules.BackToMenu(old(Snapshot())) && zombie == old(zombie)
    {
      state := GameRules.Menu;
    }

    method PauseGame()
      modifies this
      ensures Snapshot() == GameRules.PauseGame(old(Snapshot())) && zombie == old(zombie)
    {
      state := GameRules.Paused;
    }

    method ResumeGame()
      modifies this
      ensures Snapshot() == GameRules.ResumeGame(old(Snapshot())) && zombie == old(zombie)
    {
      state := GameRules.Playing;
    }

    /** `spawn_zombie`, with the hole index `random.choice` drew and the alive time. */
    method SpawnZombie(hole: nat, tAlive: real)
      requires hole < |HOLES| && ZombieRules.AliveTimeInRange(tAlive)
      modifies this
      ensures Snapshot() == GameRules.SpawnZombie(old(Snapshot()), hole, tAlive) && fresh(zombie)
    {
      zombie := new Zombie(HOLES[hole], timerMode, tAlive);
    }

    method OnClick(mx: int, my: int)
      modifies this, zombie
      ensures Snapshot() == GameRules.OnClick(old(Snapshot()), mx, my) && zombie == old(zombie)
    {
      if state != GameRules.Playing {
        return;
      }
      var hit := false;
      if zombie != null && zombie.IsHittable() && zombie.HitTest(mx, my) {
        var ok := zombie.OnHit();
        if ok {
          hit := true;
          hits := hits + 1;
        }
      }
      if !hit {
        missClicks := missClicks + 1;
        lives := if lives - 1 < 0 then 0 else lives - 1;
        if lives == 0 {
          state := GameRules.GameOver;
        }
      }
    }

    /** `update(dt)`, with the draws the frame may use for a new spawn delay and a new zombie. */
    method Update(dt: real, d: GameRules.Draws)
      requires d.Valid()
      modifies this, zombie
      ensures Snapshot() == GameRules.Update(old(Snapshot()), dt, d)
      ensures zombie == null || zombie == old(zombie) || fresh(zombie)
    {
      if state == GameRules.Playing {
        if timerMode {
          timeLeft := timeLeft - dt;
          if timeLeft <= 0.0 {
            timeLeft := 0.0;
            state := GameRules.GameOver;
          }
        }
        ghost var clocked := Snapshot();
        assert clocked == GameRules.RunClock(old(Snapshot()), dt);
        if zombie != null {
          var sig := zombie.Update(dt);
          if sig == ZombieRules.Escaped {
            escaped := escaped + 1;
          }
          if zombie.dead {
            zombie := null;
            nextSpawnIn := d.delay;
          }
        }
        assert Snapshot() == GameRules.RunZombie(clocked, dt, d.delay);
        if zombie == null {
          nextSpawnIn := nextSpawnIn - dt;
          if nextSpawnIn <= 0.0 {
            SpawnZombie(d.hole, d.tAlive);
          }
        }
      }
    }

    method ResetScoresOnly()
      modifies this
      ensures Snapshot() == GameRules.ResetScoresOnly(old(Snapshot())) && zombie == old(zombie)
    {
      hits, missClicks, escaped := 0, 0, 0;
    }

    method ResetAll()
      modifies this
      ensures Snapshot() == GameRules.ResetAll(old(Snapshot())) && zombie == null
    {
      ResetScoresOnly();
      lives := GameRules.LIVES_MAX;
      timeLeft := roundTime as real;
      zombie := null;
      nextSpawnIn := 0.4;
    }
  }
}
