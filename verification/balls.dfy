/**
 * One ball of the lottery page: its record, its constructor, the pointer
 * hit test and the per-frame update.
 *
 * The colour fields (`color`, `baseColor`, `hue`) and the drawing call are
 * presentation only and are not part of the record. `flash` is kept because
 * the radius pulse of a hovered ball reads it.
 */
module Balls {
  import opened Geometry

  /** Extra gravity on a ball that lost the draw. */
  const LoserGravity: real := 2.2
  /** A floor bounce slower than this brings the ball to rest. */
  const RestSpeed: real := 1.0
  /** Relative amplitude and phase rate of the hovered-ball pulse. */
  const PulseAmplitude: real := 0.15
  const PulseRate: real := 0.3

  datatype Ball = Ball(
    x: real, y: real,
    r: real,        // displayed radius; equals baseR except while pending
    baseR: real,    // physical radius
    vx: real, vy: real,
    mass: real,
    isHovered: bool, isWinner: bool, isLoser: bool, hasDrawn: bool,
    flash: nat)     // frame counter driving the hover pulse

  /** The shared page state a ball update reads: viewport, constants, pointer. */
  datatype World = World(w: real, h: real, gravity: real, friction: real, mouseX: real, mouseY: real)

  /** A ball follows the pointer instead of the physics while it is hovered
      and has not been drawn. */
  predicate Pending(b: Ball) {
    b.isHovered && !b.hasDrawn
  }

  /** Fields that no physics step touches: everything but position and velocity. */
  predicate SameIdentity(a: Ball, b: Ball) {
    a == b.(x := a.x, y := a.y, vx := a.vx, vy := a.vy)
  }

  /** The Ball constructor: the displayed radius starts at the base radius,
      the mass is the square of the radius and every flag is clear. */
  function NewBall(x: real, y: real, r: real, vx: real, vy: real): (b: Ball)
    ensures b.x == x && b.y == y && b.vx == vx && b.vy == vy
    ensures b.r == r && b.baseR == r && b.mass == r * r
    ensures !b.isHovered && !b.isWinner && !b.isLoser && !b.hasDrawn && b.flash == 0
  {
    Ball(x, y, r, r, vx, vy, r * r, false, false, false, false, 0)
  }

  /** The pointer hit test: the distance from the centre, as computed by
      `hypot`, is at most the displayed radius. */
  predicate Contains(b: Ball, mx: real, my: real, hypot: (real, real) -> real) {
    hypot(b.x - mx, b.y - my) <= b.r
  }

  /** When `hypot` is the Euclidean norm the hit test is the disc test on
      squared distances. */
  lemma ContainsIsDiscTest(b: Ball, mx: real, my: real, hypot: (real, real) -> real)
    requires IsHypot(hypot)
    requires 0.0 <= b.r
    ensures Contains(b, mx, my, hypot) <==> Sq(b.x - mx) + Sq(b.y - my) <= Sq(b.r)
  {
    var d := hypot(b.x - mx, b.y - my);
    Euclidean(hypot, b.x - mx, b.y - my);
    SquareMonotone(d, b.r);
  }

  /** Gravity felt by a ball this frame: amplified for a loser. */
  function FallRate(b: Ball, gravity: real): real {
    if b.isLoser then gravity * LoserGravity else gravity
  }

  /** Floor contact after integration: clamp onto the floor and either stop
      (slow impact) or reflect with friction. Returns the new (y, vy). */
  function FloorBounce(y: real, vy: real, r: real, h: real, friction: real): (res: (real, real))
    ensures res.0 + r <= h
    ensures y + r <= h ==> res.0 == y && res.1 == vy
    ensures y + r > h ==> res.0 == h - r
    ensures y + r > h && Abs(vy) < RestSpeed ==> res.1 == 0.0
    ensures y + r > h && Abs(vy) >= RestSpeed ==> res.1 == -vy * friction
  {
    if y + r > h then
      (h - r, if Abs(vy) < RestSpeed then 0.0 else -vy * friction)
    else
      (y, vy)
  }

  /** Side walls after integration: the right wall is tested first, then the
      left wall on the already corrected position. Returns the new (x, vx). */
  function WallBounce(x: real, vx: real, r: real, w: real, friction: real): (res: (real, real))
    ensures r <= res.0
    ensures 2.0 * r <= w ==> res.0 <= w - r
    ensures r <= x && x + r <= w ==> res.0 == x && res.1 == vx
    ensures 2.0 * r <= w && x + r > w ==> res.0 == w - r && res.1 == -vx * friction
    ensures 2.0 * r <= w && x - r < 0.0 ==> res.0 == r && res.1 == -vx * friction
  {
    var right := if x + r > w then (w - r, -vx * friction) else (x, vx);
    if right.0 - r < 0.0 then (r, -right.1 * friction) else right
  }

  /** `Ball.update`: one frame of one ball. `sin` stands for Math.sin. */
  function Update(b: Ball, world: World, sin: real -> real): (u: Ball)
    ensures u.flash == b.flash + 1
    ensures u.baseR == b.baseR && u.mass == b.mass
    ensures u.isHovered == b.isHovered && u.isWinner == b.isWinner
    ensures u.isLoser == b.isLoser && u.hasDrawn == b.hasDrawn
    // a pending ball sits on the pointer and keeps its velocity
    ensures Pending(b) ==> u.x == world.mouseX && u.y == world.mouseY
    ensures Pending(b) ==> u.vx == b.vx && u.vy == b.vy
    ensures Pending(b) ==> u.r == PulseRadius(b.baseR, sin(u.flash as real * PulseRate))
    // otherwise the ball is back at its base radius and inside the box
    ensures !Pending(b) ==> u.r == b.baseR
    ensures !Pending(b) ==> u.y + u.r <= world.h && u.r <= u.x
    ensures !Pending(b) && 2.0 * b.baseR <= world.w ==> u.x <= world.w - u.r
  {
    var flash := b.flash + 1;
    if Pending(b) then
      b.(x := world.mouseX, y := world.mouseY,
         r := PulseRadius(b.baseR, sin(flash as real * PulseRate)), flash := flash)
    else
      var vy := b.vy + FallRate(b, world.gravity);
      var (y1, vy1) := FloorBounce(b.y + vy, vy, b.baseR, world.h, world.friction);
      var (x1, vx1) := WallBounce(b.x + b.vx, b.vx, b.baseR, world.w, world.friction);
      b.(x := x1, y := y1, r := b.baseR, vx := vx1, vy := vy1, flash := flash)
  }

  /** Displayed radius of a pending ball, given the sine of its pulse phase:
      within 15% of the base radius whenever the sine is in [-1, 1]. */
  function PulseRadius(baseR: real, pulse: real): (r: real)
    ensures 0.0 < baseR && -1.0 <= pulse <= 1.0 ==>
              (1.0 - PulseAmplitude) * baseR <= r <= (1.0 + PulseAmplitude) * baseR
  {
    PulseBounds(baseR, pulse);
    baseR * (1.0 + pulse * PulseAmplitude)
  }

  lemma PulseBounds(baseR: real, pulse: real)
    ensures 0.0 < baseR && -1.0 <= pulse <= 1.0 ==>
              && (1.0 - PulseAmplitude) * baseR <= baseR * (1.0 + pulse * PulseAmplitude)
              && baseR * (1.0 + pulse * PulseAmplitude) <= (1.0 + PulseAmplitude) * baseR
  {
    if 0.0 < baseR && -1.0 <= pulse <= 1.0 {
      assert baseR * (1.0 + pulse * PulseAmplitude) == baseR + PulseAmplitude * (pulse * baseR);
      assert -baseR <= pulse * baseR <= baseR;
    }
  }

  /** The integration order of a free ball: gravity changes vy first, the
      new vy moves the ball, and a ball that does not reach the floor keeps
      exactly that vertical state. */
  lemma UpdateIntegratesAfterGravity(b: Ball, world: World, sin: real -> real)
    requires !Pending(b)
    ensures var vy := b.vy + (if b.isLoser then world.gravity * LoserGravity else world.gravity);
            var u := Update(b, world, sin);
            && (b.y + vy + b.baseR <= world.h ==> u.y == b.y + vy && u.vy == vy)
            && (b.y + vy + b.baseR > world.h ==> u.y == world.h - b.baseR)
            && (b.y + vy + b.baseR > world.h && Abs(vy) < RestSpeed ==> u.vy == 0.0)
            && (b.y + vy + b.baseR > world.h && Abs(vy) >= RestSpeed ==> u.vy == -vy * world.friction)
  {
  }

  /** Walls of a free ball that fits the viewport: a hit reflects the
      horizontal velocity with friction, no hit keeps the integrated position. */
  lemma UpdateReflectsOnWalls(b: Ball, world: World, sin: real -> real)
    requires !Pending(b)
    requires 2.0 * b.baseR <= world.w
    ensures var x := b.x + b.vx;
            var u := Update(b, world, sin);
            && (x + b.baseR > world.w ==> u.x == world.w - b.baseR && u.vx == -b.vx * world.friction)
            && (x - b.baseR < 0.0 ==> u.x == b.baseR && u.vx == -b.vx * world.friction)
            && (b.baseR <= x <= world.w - b.baseR ==> u.x == x && u.vx == b.vx)
  {
  }
}
