/**
 * The event loop of `main` as a step function over abstract inputs. A left click
 * carries its position and the set of buttons whose rectangles contain it; the
 * buttons of the current mode see the click in the order the loop lists them.
 * A frame applies the whole batch of inputs in order and then runs `update(dt)`.
 */
module Events {
  import opened Options
  import opened GameRules

  datatype Key = Escape | KeyR | KeyT | OtherKey

  datatype ButtonId =
    | TimeMinus | TimePlus | StartButton | TimerToggle | QuitButton   // menu
    | PlayAgainButton | BackMenuButton                                 // game over
    | ResumeButton | PauseMenuButton                                   // paused

  datatype Input =
    | Quit
    | KeyDown(key: Key)
    | LeftClick(x: int, y: int, over: set<ButtonId>)
    | OtherInput   // mouse motion, other mouse buttons, key releases: nothing gameplay reads

  /** The button tuples the loop hands each event to, mode by mode. */
  const MENU_BUTTONS: seq<ButtonId> := [TimeMinus, TimePlus, StartButton, TimerToggle, QuitButton]
  const GAME_OVER_BUTTONS: seq<ButtonId> := [PlayAgainButton, BackMenuButton]
  const PAUSE_BUTTONS: seq<ButtonId> := [ResumeButton, PauseMenuButton]

  /** The callback a button runs when it is clicked (the quit button only posts a quit event). */
  function Press(g: GameState, b: ButtonId): (r: GameState)
    ensures b == StartButton || b == PlayAgainButton || b == ResumeButton ==> r.mode == Playing
    ensures b == BackMenuButton || b == PauseMenuButton ==> r.mode == Menu
    ensures b == TimeMinus || b == TimePlus || b == TimerToggle || b == QuitButton ==> r.mode == g.mode
    ensures b == QuitButton ==> r == g
    ensures !StartsRound(b) ==> Scoreboard(r) == Scoreboard(g)
  {
    match b
    case TimeMinus => DecRoundTime(g)
    case TimePlus => IncRoundTime(g)
    case StartButton => StartGame(g)
    case TimerToggle => ToggleZombieTimer(g)
    case QuitButton => g
    case PlayAgainButton => StartGame(g)
    case BackMenuButton => BackToMenu(g)
    case ResumeButton => ResumeGame(g)
    case PauseMenuButton => BackToMenu(g)
  }

  /** The two buttons whose callback resets the round. */
  predicate StartsRound(b: ButtonId) {
    b == StartButton || b == PlayAgainButton
  }

  /** What a round has scored so far, with the zombie in play. */
  function Scoreboard(g: GameState): (nat, nat, nat, nat, Option<ZombieState>) {
    (g.hits, g.missClicks, g.escaped, g.lives, g.zombie)
  }

  /** `for btn in buttons: btn.handle(event)` for a left click over the buttons `over`. */
  function PressAll(g: GameState, buttons: seq<ButtonId>, over: set<ButtonId>): (r: GameState)
    ensures (forall i :: 0 <= i < |buttons| ==> buttons[i] !in over) ==> r == g
    ensures (forall i :: 0 <= i < |buttons| ==> buttons[i] in over ==> !StartsRound(buttons[i]))
            ==> Scoreboard(r) == Scoreboard(g)
    ensures |buttons| == 1 ==> r == (if buttons[0] in over then Press(g, buttons[0]) else g)
    decreases |buttons|
  {
    if buttons == [] then g
    else PressAll(if buttons[0] in over then Press(g, buttons[0]) else g, buttons[1..], over)
  }

  /** The buttons of a mode's tuple handle a click; other inputs leave buttons alone. */
  function Buttons(g: GameState, e: Input, buttons: seq<ButtonId>): GameState {
    if e.LeftClick? then PressAll(g, buttons, e.over) else g
  }

  /**
   * One event of the loop body. The paused branch comes before the key branches and
   * catches every paused event, so the Escape-to-resume branch after them never runs.
   */
  function Dispatch(g: GameState, e: Input): (r: GameState)
    ensures e.Quit? || e.OtherInput? ==> r == g
    ensures g.mode == Menu ==> r.mode == Menu || r.mode == Playing
    ensures g.mode == Playing ==> r.mode == Playing || r.mode == Paused || r.mode == GameOver
    ensures g.mode == Paused ==> r.mode != GameOver && r == g.(mode := r.mode)
    ensures g.mode == Paused && e.KeyDown? ==> r == g
    ensures g.mode == GameOver ==> r.mode != Paused
    ensures r.mode == Paused && g.mode != Paused ==> g.mode == Playing && e == KeyDown(Escape)
  {
    if e.Quit? then g
    else if g.mode == Menu then Buttons(g, e, MENU_BUTTONS)
    else if g.mode == GameOver then Buttons(g, e, GAME_OVER_BUTTONS)
    else if g.mode == Paused then Buttons(g, e, PAUSE_BUTTONS)
    else InPlay(g, e)
  }

  /** The dispatch for a game in play: the three keys and the click. */
  function InPlay(g: GameState, e: Input): (r: GameState)
    requires g.mode == Playing
    ensures r.mode == Paused <==> e == KeyDown(Escape)
    ensures e == KeyDown(Escape) ==> r == PauseGame(g)
  {
    match e
    case KeyDown(Escape) => PauseGame(g)
    case KeyDown(KeyR) => ResetScoresOnly(g)
    case KeyDown(KeyT) => ToggleTimerKey(g)
    case LeftClick(x, y, _) => OnClick(g, x, y)
    case _ => g
  }

  /** The batch of events of one frame, in arrival order. */
  function DispatchAll(g: GameState, es: seq<Input>): (r: GameState)
    ensures (forall i :: 0 <= i < |es| ==> es[i] == Quit || es[i] == OtherInput) ==> r == g
    ensures g.mode == Paused && (forall i :: 0 <= i < |es| ==> !es[i].LeftClick?) ==> r == g
    ensures |es| == 1 ==> r == Dispatch(g, es[0])
    decreases |es|
  {
    if es == [] then g else DispatchAll(Dispatch(g, es[0]), es[1..])
  }

  /** One pass of the loop body: the events, then `game.update(dt)`. */
  function Frame(g: GameState, es: seq<Input>, dt: real, d: Draws): (r: GameState)
    requires d.Valid()
    ensures g.mode == Paused && (forall i :: 0 <= i < |es| ==> !es[i].LeftClick?) ==> r == g
    ensures es == [] ==> r == Update(g, dt, d)
    ensures r.roundTime == DispatchAll(g, es).roundTime && r.hits == DispatchAll(g, es).hits
  {
    Update(DispatchAll(g, es), dt, d)
  }

  lemma {:induction false} DispatchKeepsInv(g: GameState, e: Input)
    requires Inv(g)
    ensures Inv(Dispatch(g, e))
  {
    ActionsKeepInv(g);
    if e.LeftClick? {
      if g.mode == Menu {
        MenuPressesKeepInv(g, MENU_BUTTONS, e.over);
      } else if g.mode == GameOver {
        var g1 := if PlayAgainButton in e.over then StartGame(g) else g;
        ActionsKeepInv(g1);
        assert PressAll(g, GAME_OVER_BUTTONS, e.over) == PressAll(g1, [BackMenuButton], e.over);
      } else if g.mode == Paused {
        var g1 := if ResumeButton in e.over then ResumeGame(g) else g;
        ActionsKeepInv(g1);
        assert PressAll(g, PAUSE_BUTTONS, e.over) == PressAll(g1, [PauseMenuButton], e.over);
      } else {
        OnClickKeepsInv(g, e.x, e.y);
      }
    }
  }

  /** While playing or paused no zombie is present: then the menu toggle cannot desynchronise it. */
  predicate SlotEmptyInPlay(g: GameState) {
    g.mode == Playing || g.mode == Paused ==> g.zombie.None?
  }

  predicate MenuButton(b: ButtonId) {
    b == TimeMinus || b == TimePlus || b == StartButton || b == TimerToggle || b == QuitButton
  }

  /** Menu buttons keep the invariant in any order, even when Start has put the game into play. */
  lemma {:induction false} MenuPressesKeepInv(g: GameState, buttons: seq<ButtonId>, over: set<ButtonId>)
    requires Inv(g) && SlotEmptyInPlay(g)
    requires forall i :: 0 <= i < |buttons| ==> MenuButton(buttons[i])
    ensures Inv(PressAll(g, buttons, over))
    decreases |buttons|
  {
    if buttons != [] {
      ActionsKeepInv(g);
      var g1 := if buttons[0] in over then Press(g, buttons[0]) else g;
      assert Inv(g1) && SlotEmptyInPlay(g1);
      MenuPressesKeepInv(g1, buttons[1..], over);
    }
  }

  lemma {:induction false} DispatchAllKeepsInv(g: GameState, es: seq<Input>)
    requires Inv(g)
    ensures Inv(DispatchAll(g, es))
    decreases |es|
  {
    if es != [] {
      DispatchKeepsInv(g, es[0]);
      DispatchAllKeepsInv(Dispatch(g, es[0]), es[1..]);
    }
  }

  /** Every frame of the running game keeps the invariant. */
  lemma FrameKeepsInv(g: GameState, es: seq<Input>, dt: real, d: Draws)
    requires Inv(g) && 0.0 <= dt && d.Valid()
    ensures Inv(Frame(g, es, dt, d))
  {
    DispatchAllKeepsInv(g, es);
    UpdateKeepsInv(DispatchAll(g, es), dt, d);
  }
}
