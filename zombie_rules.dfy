/**
 * The zombie's lifecycle as values: its phases appearing -> alive -> disappearing
 * (with a separate `dead` flag), the time-dependent hit radius, the hit test, and
 * the two operations that change it, `update(dt)` and `on_hit()`. The class
 * `Objects.Zombie` is proved against the functions here.
 */
module ZombieRules {
  import opened Holes

  const BASE_RADIUS: int := 46
  const T_APPEAR: real := 0.2
  const T_DISAPPEAR: real := 0.18
  /** The zombie is drawn, and hit-tested, 50 units below its hole. */
  const DRAW_OFFSET: int := 50
  const MIN_APPEAR_RADIUS: int := 5
  const MIN_DISAPPEAR_RADIUS: int := 1
  /** The bounds of `random.uniform(0.9, 1.6)`, the time a zombie stays alive. */
  const ALIVE_TIME_MIN: real := 0.9
  const ALIVE_TIME_MAX: real := 1.6

  /** The `state` string. It never becomes "dead": `dead` is a separate flag. */
  datatype Phase = Appearing | Alive | Disappearing

  /** How far along the lifecycle a phase is. */
  function Rank(p: Phase): nat {
    match p
    case Appearing => 0
    case Alive => 1
    case Disappearing => 2
  }

  /** What `update` returns: `None` or `"escaped"`. */
  datatype Signal = Quiet | Escaped

  predicate AliveTimeInRange(t: real) {
    ALIVE_TIME_MIN <= t <= ALIVE_TIME_MAX
  }

  function Min(a: real, b: real): real {
    if a <= b then a else b
  }

  function MaxInt(a: int, b: int): int {
    if a >= b then a else b
  }

  /** Python's `int()` on a float: truncation towards zero. */
  function Trunc(v: real): (n: int)
    ensures 0.0 <= v ==> n == v.Floor
    ensures (n as real) <= v || n <= 0
  {
    if v >= 0.0 then v.Floor else -((-v).Floor)
  }

  lemma TruncMonotone(v: real, w: real)
    requires v <= w
    ensures Trunc(v) <= Trunc(w)
  {
  }

  function Cube(a: real): real {
    a * a * a
  }

  lemma CubeMonotone(a: real, b: real)
    requires 0.0 <= a <= b
    ensures Cube(a) <= Cube(b)
  {
    assert a * a <= b * b by {
      assert a * a <= a * b;
      assert a * b <= b * b;
    }
    assert a * a * a <= b * b * a;
    assert b * b * a <= b * b * b;
  }

  lemma SquareMonotone(a: real, b: real)
    requires 0.0 <= a <= b
    ensures a * a <= b * b
  {
    assert a * a <= a * b;
  }

  /** The cubic ease-out `1 - (1 - k)^3` of the appearing phase, `k = min(1, t / t_appear)`. */
  function AppearScale(t: real): (s: real)
    ensures s <= 1.0
    ensures t >= T_APPEAR ==> s == 1.0
  {
    var k := Min(1.0, t / T_APPEAR);
    CubeMonotone(0.0, 1.0 - k);
    1.0 - Cube(1.0 - k)
  }

  /** The quadratic ease-in `(1 - k)^2` of the disappearing phase, `k = min(1, t / t_disappear)`. */
  function DisappearScale(t: real): (s: real)
    ensures 0.0 <= s
    ensures 0.0 <= t ==> s <= 1.0
    ensures t == 0.0 ==> s == 1.0
    ensures t >= T_DISAPPEAR ==> s == 0.0
  {
    var k := Min(1.0, t / T_DISAPPEAR);
    assert 0.0 <= t ==> (1.0 - k) * (1.0 - k) <= 1.0 by {
      if 0.0 <= t {
        SquareMonotone(1.0 - k, 1.0);
      }
    }
    (1.0 - k) * (1.0 - k)
  }

  /** `max(floor, int(base_radius * s))`. */
  function Eased(s: real, floor: int): (r: int)
    requires floor <= BASE_RADIUS
    ensures floor <= r
    ensures s <= 1.0 ==> r <= BASE_RADIUS
    ensures s == 1.0 ==> r == BASE_RADIUS
  {
    MaxInt(floor, Trunc(BASE_RADIUS as real * s))
  }

  lemma EasedMonotone(s1: real, s2: real, floor: int)
    requires s1 <= s2 && floor <= BASE_RADIUS
    ensures Eased(s1, floor) <= Eased(s2, floor)
  {
    TruncMonotone(BASE_RADIUS as real * s1, BASE_RADIUS as real * s2);
  }

  /** The appearing radius: cubic ease-out of the base radius, truncated, at least 5. */
  function AppearRadius(t: real): (r: int)
    ensures MIN_APPEAR_RADIUS <= r <= BASE_RADIUS
    ensures t >= T_APPEAR ==> r == BASE_RADIUS
  {
    Eased(AppearScale(t), MIN_APPEAR_RADIUS)
  }

  /**
   * The disappearing radius: quadratic ease-in of the base radius, truncated, at
   * least 1. It starts at the full radius and is 1 once the phase has run out.
   */
  function DisappearRadius(t: real): (r: int)
    ensures MIN_DISAPPEAR_RADIUS <= r
    ensures 0.0 <= t ==> r <= BASE_RADIUS
    ensures t == 0.0 ==> r == BASE_RADIUS
    ensures t >= T_DISAPPEAR ==> r == MIN_DISAPPEAR_RADIUS
  {
    Eased(DisappearScale(t), MIN_DISAPPEAR_RADIUS)
  }

  /** Within the appearing phase the radius never shrinks. */
  lemma AppearRadiusMonotone(t1: real, t2: real)
    requires t1 <= t2
    ensures AppearRadius(t1) <= AppearRadius(t2)
  {
    var k1, k2 := Min(1.0, t1 / T_APPEAR), Min(1.0, t2 / T_APPEAR);
    assert k1 <= k2;
    CubeMonotone(1.0 - k2, 1.0 - k1);
    EasedMonotone(AppearScale(t1), AppearScale(t2), MIN_APPEAR_RADIUS);
  }

  /** Within the disappearing phase the radius never grows. */
  lemma DisappearRadiusAntitone(t1: real, t2: real)
    requires t1 <= t2
    ensures DisappearRadius(t2) <= DisappearRadius(t1)
  {
    var k1, k2 := Min(1.0, t1 / T_DISAPPEAR), Min(1.0, t2 / T_DISAPPEAR);
    assert k1 <= k2;
    SquareMonotone(1.0 - k2, 1.0 - k1);
    EasedMonotone(DisappearScale(t2), DisappearScale(t1), MIN_DISAPPEAR_RADIUS);
  }

  /** The fields of one zombie (`base_radius`, `t_appear`, `t_disappear` are the constants above). */
  datatype ZombieState = ZombieState(
    x: int, y: int,
    phase: Phase,
    tAlive: real,
    timerMode: bool,
    timeInState: real,
    hitFlag: bool,
    dead: bool)
  {
    /** What every zombie of the game satisfies (time never runs backwards). */
    predicate Valid() {
      && AliveTimeInRange(tAlive)
      && 0.0 <= timeInState
      && (dead ==> phase == Disappearing)
      && (hitFlag ==> phase == Disappearing)
    }

    /** `is_hittable`: a zombie can be hit until it starts disappearing, and never twice. */
    predicate IsHittable(): (b: bool)
      ensures b <==> phase != Disappearing
      ensures Valid() && b ==> !dead && !hitFlag
    {
      phase == Appearing || phase == Alive
    }

    /** `current_radius`. */
    function CurrentRadius(): (r: int)
      ensures phase == Appearing ==> MIN_APPEAR_RADIUS <= r <= BASE_RADIUS
      ensures phase == Alive ==> r == BASE_RADIUS
      ensures phase == Disappearing ==> MIN_DISAPPEAR_RADIUS <= r
      ensures phase == Disappearing && 0.0 <= timeInState ==> r <= BASE_RADIUS
    {
      match phase
      case Appearing => AppearRadius(timeInState)
      case Alive => BASE_RADIUS
      case Disappearing => DisappearRadius(timeInState)
    }

    /** `hit_test`: the squared distance to the drawn centre is at most the squared radius. */
    predicate HitTest(mx: int, my: int): (b: bool)
      ensures mx == x && my == y + DRAW_OFFSET ==> b
    {
      var r := CurrentRadius();
      var dx, dy := mx - x, my - (y + DRAW_OFFSET);
      dx * dx + dy * dy <= r * r
    }
  }

  /** The zombie `Zombie(pos, timer_mode)` creates, with its drawn alive time. */
  function Spawn(pos: Point, timerMode: bool, tAlive: real): (z: ZombieState)
    requires AliveTimeInRange(tAlive)
    ensures z.Valid() && z.IsHittable()
    ensures z.phase == Appearing && z.timeInState == 0.0 && !z.hitFlag && !z.dead
    ensures (z.x, z.y) == pos && z.timerMode == timerMode && z.tAlive == tAlive
  {
    ZombieState(pos.0, pos.1, Appearing, tAlive, timerMode, 0.0, false, false)
  }

  /**
   * `update(dt)`: the new state and the signal returned. The phase moves at most one
   * step forward; the clock restarts at every phase change; "escaped" is returned
   * exactly on the timed alive -> disappearing step of a zombie in timer mode; `dead`
   * is raised once the disappearing phase has run out.
   */
  function Update(z: ZombieState, dt: real): (res: (ZombieState, Signal))
    ensures var (n, sig) := res;
      && Rank(z.phase) <= Rank(n.phase) <= Rank(z.phase) + 1
      && (n.phase != z.phase ==> n.timeInState == 0.0)
      && (n.phase == z.phase ==> n.timeInState == z.timeInState + dt)
      && (n.phase == Alive <==> (z.phase == Appearing && z.timeInState + dt >= T_APPEAR)
                                || (z.phase == Alive && n.phase == Alive))
      && (sig == Escaped <==> z.phase == Alive && z.timerMode && z.timeInState + dt >= z.tAlive)
      && (sig == Escaped ==> n.phase == Disappearing && n.timeInState == 0.0)
      && (n.phase == Disappearing && z.phase != Disappearing ==> sig == Escaped)
      && (n.dead <==> z.dead || (z.phase == Disappearing && z.timeInState + dt >= T_DISAPPEAR))
      && n.x == z.x && n.y == z.y && n.tAlive == z.tAlive
      && n.timerMode == z.timerMode && n.hitFlag == z.hitFlag
  {
    var t := z.timeInState + dt;
    match z.phase
    case Appearing =>
      if t >= T_APPEAR then (z.(phase := Alive, timeInState := 0.0), Quiet)
      else (z.(timeInState := t), Quiet)
    case Alive =>
      if z.timerMode && t >= z.tAlive then (z.(phase := Disappearing, timeInState := 0.0), Escaped)
      else (z.(timeInState := t), Quiet)
    case Disappearing =>
      if t >= T_DISAPPEAR then (z.(timeInState := t, dead := true), Quiet)
      else (z.(timeInState := t), Quiet)
  }

  /**
   * `on_hit()`: succeeds exactly when the zombie is hittable, and then forces it into
   * the disappearing phase with a fresh clock and its hit flag raised; a failed hit
   * changes nothing.
   */
  function OnHit(z: ZombieState): (res: (ZombieState, bool))
    ensures res.1 <==> z.IsHittable()
    ensures res.1 ==> res.0.phase == Disappearing && res.0.timeInState == 0.0 && res.0.hitFlag
    ensures res.1 ==> res.0.(phase := z.phase, timeInState := z.timeInState, hitFlag := z.hitFlag) == z
    ensures !res.1 ==> res.0 == z
    ensures !res.0.IsHittable()
  {
    if z.IsHittable() then (z.(hitFlag := true, phase := Disappearing, timeInState := 0.0), true)
    else (z, false)
  }

  /** A second hit always fails and leaves the zombie as the first one left it. */
  lemma SecondHitFails(z: ZombieState)
    ensures OnHit(OnHit(z).0) == (OnHit(z).0, false)
  {
  }

  lemma UpdateKeepsValid(z: ZombieState, dt: real)
    requires z.Valid() && 0.0 <= dt
    ensures Update(z, dt).0.Valid()
  {
  }

  lemma OnHitKeepsValid(z: ZombieState)
    requires z.Valid()
    ensures OnHit(z).0.Valid()
  {
  }

  /** A click at the drawn centre of a zombie always passes the hit test. */
  lemma CentreHits(z: ZombieState)
    ensures z.HitTest(z.x, z.y + DRAW_OFFSET)
  {
  }

  /** A click that passes the hit test is never farther than the base radius from the centre. */
  lemma HitWithinBaseRadius(z: ZombieState, mx: int, my: int)
    requires z.Valid() && z.HitTest(mx, my)
    ensures var dx, dy := mx - z.x, my - (z.y + DRAW_OFFSET);
      dx * dx + dy * dy <= BASE_RADIUS * BASE_RADIUS
  {
    var r := z.CurrentRadius();
    var dx, dy := mx - z.x, my - (z.y + DRAW_OFFSET);
    assert dx * dx + dy * dy <= r * r;
    SquareMonotoneInt(r, BASE_RADIUS);
  }

  lemma SquareMonotoneInt(a: int, b: int)
    requires 0 <= a <= b
    ensures a * a <= b * b
  {
    assert a * a <= a * b;
  }

  /** Everything that can happen to a zombie between its spawn and its removal. */
  datatype ZombieEvent =
    | Tick(dt: real)       // Game.update calls zombie.update(dt)
    | Whack                // Game.on_click calls zombie.on_hit()
    | SetTimer(on: bool)   // the T key writes the game's timer flag into the zombie

  /** One event: the new state, the number of escapes (0 or 1) and of successful hits (0 or 1). */
  function Step(z: ZombieState, e: ZombieEvent): (res: (ZombieState, nat, nat))
    ensures res.1 <= 1 && res.2 <= 1
  {
    match e
    case Tick(dt) =>
      var (n, sig) := Update(z, dt);
      (n, if sig == Escaped then 1 else 0, 0)
    case Whack =>
      var (n, ok) := OnHit(z);
      (n, 0, if ok then 1 else 0)
    case SetTimer(on) => (z.(timerMode := on), 0, 0)
  }

  /** A run of events: the final state, the escapes and the successful hits along the way. */
  function Life(z: ZombieState, es: seq<ZombieEvent>): (ZombieState, nat, nat)
    decreases |es|
  {
    if es == [] then (z, 0, 0)
    else
      var (z1, e1, h1) := Step(z, es[0]);
      var (zn, e, h) := Life(z1, es[1..]);
      (zn, e1 + e, h1 + h)
  }

  /**
   * A zombie ends in exactly one way at most: it is either hit once or escapes once,
   * never both and never twice; one that is no longer hittable does neither.
   */
  lemma {:induction false} AtMostOneOutcome(z: ZombieState, es: seq<ZombieEvent>)
    ensures Life(z, es).1 + Life(z, es).2 <= (if z.IsHittable() then 1 else 0)
    decreases |es|
  {
    if es != [] {
      var (z1, e1, h1) := Step(z, es[0]);
      AtMostOneOutcome(z1, es[1..]);
      assert !z.IsHittable() ==> !z1.IsHittable() && e1 == 0 && h1 == 0;
      assert z1.IsHittable() ==> e1 == 0 && h1 == 0;
    }
  }

  /** A zombie that was hit never escapes afterwards (and cannot be hit again). */
  lemma HitZombieNeverEscapes(z: ZombieState, es: seq<ZombieEvent>)
    requires OnHit(z).1
    ensures Life(OnHit(z).0, es).1 == 0 && Life(OnHit(z).0, es).2 == 0
  {
    AtMostOneOutcome(OnHit(z).0, es);
  }

  /** The lifecycle never runs backwards and `dead`, once raised, stays raised. */
  lemma {:induction false} LifeMovesForward(z: ZombieState, es: seq<ZombieEvent>)
    ensures Rank(z.phase) <= Rank(Life(z, es).0.phase)
    ensures z.dead ==> Life(z, es).0.dead
    ensures z.hitFlag ==> Life(z, es).0.hitFlag
    decreases |es|
  {
    if es != [] {
      LifeMovesForward(Step(z, es[0]).0, es[1..]);
    }
  }

  /** The time the ticks of a run of events add up to. */
  function TickTime(es: seq<ZombieEvent>): real
    decreases |es|
  {
    if es == [] then 0.0 else (if es[0].Tick? then es[0].dt else 0.0) + TickTime(es[1..])
  }

  /**
   * An appearing zombie whose clock is still short of the appearing time has left
   * the appearing phase once the ticks make up the difference, whatever else happens.
   */
  lemma {:induction false} AppearingEnds(z: ZombieState, es: seq<ZombieEvent>)
    requires z.phase == Appearing && z.timeInState < T_APPEAR
    requires z.timeInState + TickTime(es) >= T_APPEAR
    ensures Life(z, es).0.phase != Appearing
    decreases |es|
  {
    assert es != [];
    var z1 := Step(z, es[0]).0;
    assert Life(z, es).0 == Life(z1, es[1..]).0;
    if z1.phase == Appearing {
      AppearingEnds(z1, es[1..]);
    } else {
      LifeMovesForward(z1, es[1..]);
    }
  }

  /** A new zombie ticked for at least the appearing time has risen (it is alive, or already gone down). */
  lemma SpawnedZombieRises(pos: Point, timerMode: bool, tAlive: real, es: seq<ZombieEvent>)
    requires AliveTimeInRange(tAlive) && TickTime(es) >= T_APPEAR
    ensures Life(Spawn(pos, timerMode, tAlive), es).0.phase != Appearing
  {
    AppearingEnds(Spawn(pos, timerMode, tAlive), es);
  }

  /** Only ticks that add up to less than the appearing time: a new zombie is still rising. */
  lemma {:induction false} StillAppearing(z: ZombieState, es: seq<ZombieEvent>)
    requires z.phase == Appearing
    requires forall i :: 0 <= i < |es| ==> es[i].Tick? && 0.0 <= es[i].dt
    requires z.timeInState + TickTime(es) < T_APPEAR
    ensures Life(z, es).0.phase == Appearing
    ensures Life(z, es).0.timeInState == z.timeInState + TickTime(es)
    decreases |es|
  {
    if es != [] {
      var z1 := Step(z, es[0]).0;
      TickTimeNonNegative(es[1..]);
      assert z1 == z.(timeInState := z.timeInState + es[0].dt);
      StillAppearing(z1, es[1..]);
    }
  }

  lemma {:induction false} TickTimeNonNegative(es: seq<ZombieEvent>)
    requires forall i :: 0 <= i < |es| ==> es[i].Tick? && 0.0 <= es[i].dt
    ensures 0.0 <= TickTime(es)
    decreases |es|
  {
    if es != [] {
      TickTimeNonNegative(es[1..]);
    }
  }
}
