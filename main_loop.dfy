/**
 * The body of `main`'s loop on a `Game` object: each event of the frame's batch is
 * handed to the game as `Events.Dispatch` describes, then `game.update(dt)` runs.
 */
module MainLoop {
  import opened GameRules
  import opened Events
  import opened Objects

  /** A button's callback. */
  method PressButton(game: Game, b: ButtonId)
    modifies game
    ensures game.Snapshot() == Press(old(game.Snapshot()), b)
    ensures game.zombie == null || game.zombie == old(game.zombie)
  {
    match b
    case TimeMinus => game.DecRoundTime();
    case TimePlus => game.IncRoundTime();
    case StartButton => game.StartGame();
    case TimerToggle => game.ToggleZombieTimer();
    case QuitButton =>
    case PlayAgainButton => game.PlayAgain();
    case BackMenuButton => game.BackToMenu();
    case ResumeButton => game.ResumeGame();
    case PauseMenuButton => game.BackToMenu();
  }

  /** `for btn in buttons: btn.handle(event)` for a left click over the buttons `over`. */
  method HandleButtons(game: Game, buttons: seq<ButtonId>, over: set<ButtonId>)
    modifies game
    ensures game.Snapshot() == PressAll(old(game.Snapshot()), buttons, over)
    ensures game.zombie == null || game.zombie == old(game.zombie)
  {
    assert buttons[0..] == buttons;
    for i := 0 to |buttons|
      invariant PressAll(game.Snapshot(), buttons[i..], over) == PressAll(old(game.Snapshot()), buttons, over)
      invariant game.zombie == null || game.zombie == old(game.zombie)
    {
      assert buttons[i..][1..] == buttons[i + 1..];
      if buttons[i] in over {
        PressButton(game, buttons[i]);
      }
    }
  }

  /** One event of the loop body. */
  method HandleEvent(game: Game, e: Input)
    modifies game, game.zombie
    ensures game.Snapshot() == Dispatch(old(game.Snapshot()), e)
    ensures game.zombie == null || game.zombie == old(game.zombie)
  {
    if e.Quit? {
      return;
    }
    if game.state == Menu {
      if e.LeftClick? {
        HandleButtons(game, MENU_BUTTONS, e.over);
      }
    } else if game.state == GameOver {
      if e.LeftClick? {
        HandleButtons(game, GAME_OVER_BUTTONS, e.over);
      }
    } else if game.state == Paused {
      if e.LeftClick? {
        HandleButtons(game, PAUSE_BUTTONS, e.over);
      }
    } else {
      match e
      case KeyDown(Escape) => game.PauseGame();
      case KeyDown(KeyR) => game.ResetScoresOnly();
      case KeyDown(KeyT) =>
        game.timerMode := !game.timerMode;
        if game.zombie != null {
          game.zombie.timerMode := game.timerMode;
        }
      case LeftClick(x, y, _) => game.OnClick(x, y);
      case _ =>
    }
  }

  /**
   * One pass of the loop: every event in arrival order, then the update. The result
   * says whether the loop goes on (a quit event ends it after this frame).
   */
  method RunFrame(game: Game, running: bool, events: seq<Input>, dt: real, d: Draws)
    returns (stillRunning: bool)
    requires game.Valid() && 0.0 <= dt && d.Valid()
    modifies game, game.zombie
    ensures game.Snapshot() == Frame(old(game.Snapshot()), events, dt, d)
    ensures game.Valid()
    ensures stillRunning == (running && Quit !in events)
  {
    ghost var g0 := game.Snapshot();
    stillRunning := running;
    assert events[0..] == events;
    for i := 0 to |events|
      invariant DispatchAll(game.Snapshot(), events[i..]) == DispatchAll(g0, events)
      invariant Inv(game.Snapshot())
      invariant game.zombie == null || game.zombie == old(game.zombie)
      invariant stillRunning == (running && Quit !in events[..i])
    {
      assert events[i..][1..] == events[i + 1..];
      assert events[..i + 1] == events[..i] + [events[i]];
      DispatchKeepsInv(game.Snapshot(), events[i]);
      if events[i].Quit? {
        stillRunning := false;
      }
      HandleEvent(game, events[i]);
    }
    assert events[..|events|] == events;
    UpdateKeepsInv(game.Snapshot(), dt, d);
    game.Update(dt, d);
  }
}
