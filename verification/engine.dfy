/**
 * The lottery page as a state machine: the page state, the spawn button,
 * the `x` key, pointer hover, the one-shot draw on click and the animation
 * frame (pair sweep, then every ball's update).
 *
 * Every Math.random() call is an input: a draw in [0, 1) supplied in the
 * order the page makes the calls. Math.hypot and Math.sin are function
 * values passed down to the ball and collision code.
 */
module Engine {
  import opened Geometry
  import opened Balls
  import opened Collision

  const InitialGravity: real := 0.35
  const InitialFriction: real := 0.985
  /** A draw below this wins. */
  const WinChance: real := 0.3
  /** Changes a loser gets: heavier, nearly no sideways speed, thrown down. */
  const LoserMassFactor: real := 3.5
  const LoserDamping: real := 0.1
  const LoserDropSpeed: real := 30.0
  /** Balls removed from the front by the `x` key. */
  const RemovedPerKey: nat := 5
  /** Balls added by the page's button. */
  const ButtonBatch: nat := 6

  datatype Engine = Engine(
    w: real, h: real,
    gravity: real, friction: real,
    balls: seq<Ball>,
    mouseX: real, mouseY: real,
    hasGlobalDrawn: bool)   // the draw lock: set by the first successful click, never cleared

  /** The page state when the effect starts, for a viewport of w by h. */
  function Init(w: real, h: real): (e: Engine)
    ensures e.w == w && e.h == h && e.balls == []
    ensures e.gravity == InitialGravity && e.friction == InitialFriction
    ensures !e.hasGlobalDrawn
  {
    Engine(w, h, InitialGravity, InitialFriction, [], 0.0, 0.0, false)
  }

  /** The window was resized: only the viewport changes. */
  function Resize(e: Engine, w: real, h: real): (r: Engine)
    ensures r.w == w && r.h == h
    ensures r.balls == e.balls && r.hasGlobalDrawn == e.hasGlobalDrawn
    ensures r == e.(w := w, h := h)
  {
    e.(w := w, h := h)
  }

  /** What a ball update reads from the page state. */
  function Env(e: Engine): World {
    World(e.w, e.h, e.gravity, e.friction, e.mouseX, e.mouseY)
  }

  // ---------------------------------------------------------------------
  // Spawning

  predicate IsDraw(u: real) {
    0.0 <= u < 1.0
  }

  /** The five draws `addBalls` consumes per ball, in call order: radius,
      x, height above the top edge, vx, vy. (The colour and hue draws are
      not modelled.) */
  datatype SpawnDraw = SpawnDraw(radius: real, x: real, y: real, vx: real, vy: real)

  predicate ValidSpawnDraw(d: SpawnDraw) {
    IsDraw(d.radius) && IsDraw(d.x) && IsDraw(d.y) && IsDraw(d.vx) && IsDraw(d.vy)
  }

  /** The facts every freshly spawned ball satisfies in a viewport of width w. */
  predicate Fresh(b: Ball, w: real) {
    && 14.0 <= b.r < 34.0 && b.baseR == b.r && b.mass == Sq(b.r)
    && -150.0 < b.y <= -50.0
    && -6.0 <= b.vx < 6.0 && -10.0 <= b.vy < 2.0
    && !b.isHovered && !b.isWinner && !b.isLoser && !b.hasDrawn
    && (2.0 * b.r <= w ==> b.r <= b.x <= w - b.r)
    && (2.0 * b.r < w ==> b.x < w - b.r)
  }

  /** One iteration of `addBalls`: r = rand(14, 34), then the ball at
      x = rand(r, w - r), y = -rand(50, 150) with velocity
      (rand(-6, 6), rand(-10, 2)). */
  function SpawnBall(w: real, d: SpawnDraw): (b: Ball)
    requires ValidSpawnDraw(d)
    ensures Fresh(b, w)
  {
    var r := Rand(14.0, 34.0, d.radius);
    NewBall(Rand(r, w - r, d.x), -Rand(50.0, 150.0, d.y), r, Rand(-6.0, 6.0, d.vx), Rand(-10.0, 2.0, d.vy))
  }

  /** The balls made from a list of draws, in order. */
  function Spawn(w: real, draws: seq<SpawnDraw>): (bs: seq<Ball>)
    requires forall k :: 0 <= k < |draws| ==> ValidSpawnDraw(draws[k])
    ensures |bs| == |draws|
    ensures forall k :: 0 <= k < |bs| ==> bs[k] == SpawnBall(w, draws[k]) && Fresh(bs[k], w)
  {
    if |draws| == 0 then []
    else [SpawnBall(w, draws[0])] + Spawn(w, draws[1..])
  }

  /** `addBalls(n)`: n new balls at the end of the list; nothing else changes. */
  function AddBalls(e: Engine, n: nat, draws: seq<SpawnDraw>): (r: Engine)
    requires |draws| == n
    requires forall k :: 0 <= k < n ==> ValidSpawnDraw(draws[k])
    ensures |r.balls| == |e.balls| + n
    ensures r.balls[..|e.balls|] == e.balls
    ensures forall k :: |e.balls| <= k < |r.balls| ==> Fresh(r.balls[k], e.w)
    ensures r == e.(balls := r.balls)
  {
    var added := Spawn(e.w, draws);
    assert (e.balls + added)[..|e.balls|] == e.balls;
    e.(balls := e.balls + added)
  }

  // ---------------------------------------------------------------------
  // Keyboard

  /** `onKeyDown`: the `x` or `X` key splices five balls off the front
      (fewer if there are fewer); any other key does nothing. */
  function KeyDown(e: Engine, key: string): (r: Engine)
    ensures key != "x" && key != "X" ==> r == e
    ensures key == "x" || key == "X" ==>
              && |r.balls| == |e.balls| - Min(RemovedPerKey, |e.balls|)
              && (forall k :: 0 <= k < |r.balls| ==> r.balls[k] == e.balls[k + Min(RemovedPerKey, |e.balls|)])
              && r == e.(balls := r.balls)
  {
    if key == "x" || key == "X" then
      e.(balls := e.balls[Min(RemovedPerKey, |e.balls|)..])
    else e
  }

  // ---------------------------------------------------------------------
  // Pointer

  /** The hover flag `onMouseMove` gives a ball for the pointer at (mx, my). */
  predicate HoverFlag(b: Ball, lock: bool, mx: real, my: real, hypot: (real, real) -> real) {
    !lock && !b.hasDrawn && Contains(b, mx, my, hypot)
  }

  function HoverAll(bs: seq<Ball>, lock: bool, mx: real, my: real, hypot: (real, real) -> real): (out: seq<Ball>)
    ensures |out| == |bs|
    ensures forall k :: 0 <= k < |bs| ==>
              out[k] == bs[k].(isHovered := HoverFlag(bs[k], lock, mx, my, hypot))
  {
    if |bs| == 0 then []
    else [bs[0].(isHovered := HoverFlag(bs[0], lock, mx, my, hypot))] + HoverAll(bs[1..], lock, mx, my, hypot)
  }

  /** `onMouseMove`: record the pointer (already in canvas coordinates) and
      recompute every ball's hover flag. */
  function MouseMove(e: Engine, mx: real, my: real, hypot: (real, real) -> real): (r: Engine)
    ensures r.mouseX == mx && r.mouseY == my
    ensures |r.balls| == |e.balls|
    ensures forall k :: 0 <= k < |e.balls| ==>
              && r.balls[k] == e.balls[k].(isHovered := r.balls[k].isHovered)
              && (r.balls[k].isHovered <==>
                    !e.hasGlobalDrawn && !e.balls[k].hasDrawn && Contains(e.balls[k], mx, my, hypot))
    ensures r == e.(mouseX := mx, mouseY := my, balls := r.balls)
  {
    e.(mouseX := mx, mouseY := my, balls := HoverAll(e.balls, e.hasGlobalDrawn, mx, my, hypot))
  }

  /** Once the draw lock is set, a pointer move leaves no ball hovered, and
      with a Euclidean `hypot` a ball is hovered exactly when it is undrawn
      and the pointer lies in its disc. */
  lemma MouseMoveHover(e: Engine, mx: real, my: real, hypot: (real, real) -> real)
    requires IsHypot(hypot)
    requires forall k :: 0 <= k < |e.balls| ==> 0.0 <= e.balls[k].r
    ensures var r := MouseMove(e, mx, my, hypot);
            forall k :: 0 <= k < |r.balls| ==>
              && (e.hasGlobalDrawn ==> !r.balls[k].isHovered)
              && (r.balls[k].isHovered <==>
                    && !e.hasGlobalDrawn && !e.balls[k].hasDrawn
                    && Sq(e.balls[k].x - mx) + Sq(e.balls[k].y - my) <= Sq(e.balls[k].r))
  {
    var r := MouseMove(e, mx, my, hypot);
    forall k | 0 <= k < |r.balls|
      ensures r.balls[k].isHovered <==>
                && !e.hasGlobalDrawn && !e.balls[k].hasDrawn
                && Sq(e.balls[k].x - mx) + Sq(e.balls[k].y - my) <= Sq(e.balls[k].r)
    {
      ContainsIsDiscTest(e.balls[k], mx, my, hypot);
    }
  }

  // ---------------------------------------------------------------------
  // Click

  /** The first ball in the list that is hovered and not drawn, if any. */
  function FirstPending(bs: seq<Ball>): (i: Option<nat>)
    ensures i.None? ==> forall k :: 0 <= k < |bs| ==> !Pending(bs[k])
    ensures i.Some? ==> i.value < |bs| && Pending(bs[i.value])
    ensures i.Some? ==> forall k :: 0 <= k < i.value ==> !Pending(bs[k])
  {
    if |bs| == 0 then None
    else if Pending(bs[0]) then Some(0)
    else match FirstPending(bs[1..]) {
      case None => None
      case Some(k) => Some(k + 1)
    }
  }

  /** The draws one click consumes, in call order: the win test, the kick
      strength, the sideways spread and the lift of a winner. A loser
      consumes only the first. */
  datatype ClickDraw = ClickDraw(win: real, strength: real, spread: real, lift: real)

  predicate ValidClickDraw(c: ClickDraw) {
    IsDraw(c.win) && IsDraw(c.strength) && IsDraw(c.spread) && IsDraw(c.lift)
  }

  /** The draw applied to the clicked ball. A winner is kicked sideways by
      (spread - 0.5) * (30 + 20 * strength) and upward by 20 + 20 * lift;
      a loser becomes 3.5 times heavier, keeps a tenth of its sideways
      speed and is thrown down at speed 30. */
  function Draw(b: Ball, c: ClickDraw): (d: Ball)
    requires ValidClickDraw(c)
    ensures d.hasDrawn
    ensures d.x == b.x && d.y == b.y && d.r == b.r && d.baseR == b.baseR
    ensures d.isHovered == b.isHovered && d.flash == b.flash
    ensures c.win < WinChance ==>
              && d.isWinner && d.isLoser == b.isLoser && d.mass == b.mass
              && Abs(d.vx - b.vx) < 25.0
              && b.vy - 40.0 < d.vy <= b.vy - 20.0
    ensures WinChance <= c.win ==>
              && d.isLoser && d.isWinner == b.isWinner
              && d.mass == LoserMassFactor * b.mass
              && d.vx == LoserDamping * b.vx
              && d.vy == LoserDropSpeed
  {
    if c.win < WinChance then
      var k := 30.0 + c.strength * 20.0;
      KickBound(c.spread, k);
      b.(hasDrawn := true, isWinner := true,
         vx := b.vx + (c.spread - 0.5) * k,
         vy := b.vy - (20.0 + c.lift * 20.0))
    else
      b.(hasDrawn := true, isLoser := true,
         mass := b.mass * LoserMassFactor, vx := b.vx * LoserDamping, vy := LoserDropSpeed)
  }

  /** A centred draw scaled by k in [30, 50) moves less than 25 either way. */
  lemma KickBound(spread: real, k: real)
    requires IsDraw(spread) && 30.0 <= k < 50.0
    ensures Abs((spread - 0.5) * k) < 25.0
  {
    var s := spread - 0.5;
    if 0.0 <= s {
      AtMostHalf(s, k, s * k);
    } else {
      AtMostHalf(-s, k, (-s) * k);
    }
  }

  lemma AtMostHalf(t: real, k: real, p: real)
    requires p == t * k
    requires 0.0 <= t <= 0.5 && 0.0 < k
    ensures 0.0 <= p <= 0.5 * k
  {
    if 0.0 < t {
      ProductPositive(t, k, p);
    }
    if t < 0.5 {
      ProductPositive(0.5 - t, k, 0.5 * k - p);
    }
  }

  /** `onCanvasClick`: with the lock clear, the first pending ball is drawn
      and the lock is set; otherwise nothing happens. */
  function Click(e: Engine, c: ClickDraw): (r: Engine)
    requires ValidClickDraw(c)
    ensures e.hasGlobalDrawn ==> r == e
    ensures FirstPending(e.balls).None? ==> r == e
    ensures !e.hasGlobalDrawn && FirstPending(e.balls).Some? ==>
              var k := FirstPending(e.balls).value;
              && r.hasGlobalDrawn
              && |r.balls| == |e.balls|
              && r.balls[k] == Draw(e.balls[k], c)
              && (forall j :: 0 <= j < |e.balls| && j != k ==> r.balls[j] == e.balls[j])
              && r == e.(balls := r.balls, hasGlobalDrawn := true)
  {
    if e.hasGlobalDrawn then e
    else match FirstPending(e.balls) {
      case None => e
      case Some(k) => e.(balls := e.balls[k := Draw(e.balls[k], c)], hasGlobalDrawn := true)
    }
  }

  // ---------------------------------------------------------------------
  // Animation frame

  function UpdateAll(bs: seq<Ball>, world: World, sin: real -> real): (out: seq<Ball>)
    ensures |out| == |bs|
    ensures forall k :: 0 <= k < |bs| ==> out[k] == Update(bs[k], world, sin)
  {
    if |bs| == 0 then []
    else [Update(bs[0], world, sin)] + UpdateAll(bs[1..], world, sin)
  }

  /** One `animate` call: resolve every unordered pair, then update every
      ball against the current page state. */
  function Frame(e: Engine, hypot: (real, real) -> real, sin: real -> real): (r: Engine)
    requires PositiveMasses(e.balls)
    ensures |r.balls| == |e.balls|
    ensures r == e.(balls := r.balls)
    ensures forall k :: 0 <= k < |e.balls| ==>
              var b, u := e.balls[k], r.balls[k];
              && u.baseR == b.baseR && u.mass == b.mass
              && u.isHovered == b.isHovered && u.isWinner == b.isWinner
              && u.isLoser == b.isLoser && u.hasDrawn == b.hasDrawn
              && (Pending(b) ==> u.x == e.mouseX && u.y == e.mouseY)
              && (!Pending(b) ==> u.r == b.baseR && u.y + u.r <= e.h && u.r <= u.x)
              && (!Pending(b) && 2.0 * b.baseR <= e.w ==> u.x <= e.w - u.r)
  {
    var collided := PairPass(e.balls, hypot);
    e.(balls := UpdateAll(collided, Env(e), sin))
  }

  // ---------------------------------------------------------------------
  // The draw-lock invariant

  /** Per-ball consistency: positive radius, mass r^2 (times 3.5 for a
      loser), drawn exactly when winner or loser, and never both. */
  predicate WellFormed(b: Ball) {
    && 0.0 < b.baseR
    && b.mass == (if b.isLoser then LoserMassFactor * Sq(b.baseR) else Sq(b.baseR))
    && (b.hasDrawn <==> b.isWinner || b.isLoser)
    && !(b.isWinner && b.isLoser)
  }

  /** The page-level invariant: every ball is well formed, at most one ball
      has been drawn, and a drawn ball implies the lock. */
  predicate Valid(e: Engine) {
    && (forall k :: 0 <= k < |e.balls| ==> WellFormed(e.balls[k]))
    && (forall i, j :: 0 <= i < |e.balls| && 0 <= j < |e.balls| && e.balls[i].hasDrawn && e.balls[j].hasDrawn ==> i == j)
    && (forall k :: 0 <= k < |e.balls| && e.balls[k].hasDrawn ==> e.hasGlobalDrawn)
  }

  lemma ValidMassesPositive(e: Engine)
    requires Valid(e)
    ensures PositiveMasses(e.balls)
  {
    forall k | 0 <= k < |e.balls|
      ensures 0.0 < e.balls[k].mass
    {
      SqPositive(e.balls[k].baseR);
    }
  }

  lemma InitValid(w: real, h: real)
    ensures Valid(Init(w, h))
  {
  }

  lemma AddBallsValid(e: Engine, n: nat, draws: seq<SpawnDraw>)
    requires Valid(e)
    requires |draws| == n
    requires forall k :: 0 <= k < n ==> ValidSpawnDraw(draws[k])
    ensures Valid(AddBalls(e, n, draws))
  {
    var r := AddBalls(e, n, draws);
    forall k | 0 <= k < |r.balls|
      ensures WellFormed(r.balls[k]) && (r.balls[k].hasDrawn ==> k < |e.balls| && r.balls[k] == e.balls[k])
    {
      if k < |e.balls| {
        assert r.balls[k] == r.balls[..|e.balls|][k];
      }
    }
  }

  lemma KeyDownValid(e: Engine, key: string)
    requires Valid(e)
    ensures Valid(KeyDown(e, key))
  {
  }

  lemma MouseMoveValid(e: Engine, mx: real, my: real, hypot: (real, real) -> real)
    requires Valid(e)
    ensures Valid(MouseMove(e, mx, my, hypot))
  {
  }

  lemma ClickValid(e: Engine, c: ClickDraw)
    requires Valid(e)
    requires ValidClickDraw(c)
    ensures Valid(Click(e, c))
  {
    if !e.hasGlobalDrawn && FirstPending(e.balls).Some? {
      var k := FirstPending(e.balls).value;
      var r := Click(e, c);
      // no ball was drawn before, since the lock was clear
      assert forall j :: 0 <= j < |e.balls| ==> !e.balls[j].hasDrawn;
      assert WellFormed(r.balls[k]) by {
        var b := e.balls[k];
        assert !b.isWinner && !b.isLoser && b.mass == Sq(b.baseR);
      }
    }
  }

  lemma FrameValid(e: Engine, hypot: (real, real) -> real, sin: real -> real)
    requires Valid(e)
    ensures PositiveMasses(e.balls)
    ensures Valid(Frame(e, hypot, sin))
  {
    ValidMassesPositive(e);
    var r := Frame(e, hypot, sin);
    forall k | 0 <= k < |r.balls|
      ensures WellFormed(r.balls[k]) && r.balls[k].hasDrawn == e.balls[k].hasDrawn
    {
    }
  }

  // ---------------------------------------------------------------------
  // Event sequences

  /** The inputs the page reacts to. `Button` is the spawn button, which
      adds six balls. */
  datatype Event =
    | Tick
    | Button(draws: seq<SpawnDraw>)
    | Move(mx: real, my: real)
    | Press(key: string)
    | Tap(draw: ClickDraw)
    | Resized(w: real, h: real)

  predicate ValidEvent(ev: Event) {
    match ev
    case Button(draws) => |draws| == ButtonBatch && forall k :: 0 <= k < |draws| ==> ValidSpawnDraw(draws[k])
    case Tap(c) => ValidClickDraw(c)
    case _ => true
  }

  function Step(e: Engine, ev: Event, hypot: (real, real) -> real, sin: real -> real): (r: Engine)
    requires Valid(e) && ValidEvent(ev)
    ensures Valid(r)
    ensures e.hasGlobalDrawn ==> r.hasGlobalDrawn
    ensures ev.Tap? && e.hasGlobalDrawn ==> r == e
  {
    match ev
    case Tick =>
      FrameValid(e, hypot, sin);
      Frame(e, hypot, sin)
    case Button(draws) =>
      AddBallsValid(e, ButtonBatch, draws);
      AddBalls(e, ButtonBatch, draws)
    case Move(mx, my) =>
      MouseMoveValid(e, mx, my, hypot);
      MouseMove(e, mx, my, hypot)
    case Press(key) =>
      KeyDownValid(e, key);
      KeyDown(e, key)
    case Tap(c) =>
      ClickValid(e, c);
      Click(e, c)
    case Resized(w, h) =>
      Resize(e, w, h)
  }

  /** Runs a sequence of events from a valid state: the invariant holds at
      the end and the lock, once set, stays set. */
  function Run(e: Engine, evs: seq<Event>, hypot: (real, real) -> real, sin: real -> real): (r: Engine)
    requires Valid(e)
    requires forall k :: 0 <= k < |evs| ==> ValidEvent(evs[k])
    ensures Valid(r)
    ensures e.hasGlobalDrawn ==> r.hasGlobalDrawn
    decreases |evs|
  {
    if |evs| == 0 then e
    else Run(Step(e, evs[0], hypot, sin), evs[1..], hypot, sin)
  }

  /** Drawn balls are never more than one, whatever happens from the
      initial page: after any run of events, two drawn balls are the same
      ball, and any drawn ball means the lock is set. */
  lemma AtMostOneDraw(w: real, h: real, evs: seq<Event>, hypot: (real, real) -> real, sin: real -> real)
    requires forall k :: 0 <= k < |evs| ==> ValidEvent(evs[k])
    ensures var r := Run(Init(w, h), evs, hypot, sin);
            && (forall i, j :: 0 <= i < |r.balls| && 0 <= j < |r.balls| && r.balls[i].hasDrawn && r.balls[j].hasDrawn ==> i == j)
            && (forall k :: 0 <= k < |r.balls| && r.balls[k].hasDrawn ==> r.hasGlobalDrawn)
  {
    InitValid(w, h);
  }
}
