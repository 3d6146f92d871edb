/**
 * Pairwise collision resolution of the lottery balls (`resolveCollision`)
 * and the once-per-frame sweep over every unordered pair.
 *
 * The distance is computed by a `hypot` function value standing for
 * Math.hypot. Conservation of momentum and of the mass-weighted position
 * holds for any such function; the geometric facts (the balls end up
 * touching, restitution 0.1 along the normal) need `IsHypot`.
 */
module Collision {
  import opened Geometry
  import opened Balls

  /** Distance substituted when the centres coincide (`hypot || 0.001`). */
  const MinDistance: real := 0.001
  /** Impulse factor: one plus the restitution coefficient 0.1. */
  const ImpulseFactor: real := 1.1

  /** The distance the resolver divides by: never zero. */
  function Separation(b1: Ball, b2: Ball, hypot: (real, real) -> real): (d: real)
    ensures d != 0.0
    ensures hypot(b2.x - b1.x, b2.y - b1.y) != 0.0 ==> d == hypot(b2.x - b1.x, b2.y - b1.y)
    ensures hypot(b2.x - b1.x, b2.y - b1.y) == 0.0 ==> d == MinDistance
  {
    var d := hypot(b2.x - b1.x, b2.y - b1.y);
    if d == 0.0 then MinDistance else d
  }

  /** The two balls overlap: their centres are closer than the sum of the radii. */
  predicate Overlap(b1: Ball, b2: Ball, hypot: (real, real) -> real) {
    Separation(b1, b2, hypot) < b1.r + b2.r
  }

  /** Relative velocity of b2 with respect to b1 along the direction (nx, ny). */
  function Closing(b1: Ball, b2: Ball, nx: real, ny: real): real {
    (b2.vx - b1.vx) * nx + (b2.vy - b1.vy) * ny
  }

  /** The contact normal (nx, ny): the centre offset divided by the separation. */
  function Normal(b1: Ball, b2: Ball, hypot: (real, real) -> real): (real, real) {
    var dist := Separation(b1, b2, hypot);
    ((b2.x - b1.x) / dist, (b2.y - b1.y) / dist)
  }

  /** Relative velocity along the contact normal; positive when the balls
      are moving apart. */
  function NormalVelocity(b1: Ball, b2: Ball, hypot: (real, real) -> real): real {
    var n := Normal(b1, b2, hypot);
    Closing(b1, b2, n.0, n.1)
  }

  /** Positional correction: b1 moves back along the normal (nx, ny) by the
      overlap times b2's share of the total mass, b2 forward by b1's share. */
  function Push(b1: Ball, b2: Ball, nx: real, ny: real, overlap: real): (res: (Ball, Ball))
    requires 0.0 < b1.mass && 0.0 < b2.mass
    ensures res.0 == b1.(x := res.0.x, y := res.0.y)
    ensures res.1 == b2.(x := res.1.x, y := res.1.y)
  {
    var total := b1.mass + b2.mass;
    (b1.(x := b1.x - nx * overlap * (b2.mass / total), y := b1.y - ny * overlap * (b2.mass / total)),
     b2.(x := b2.x + nx * overlap * (b1.mass / total), y := b2.y + ny * overlap * (b1.mass / total)))
  }

  /** Magnitude of the impulse for normal velocity `vel` between masses m1, m2. */
  function Impulse(vel: real, m1: real, m2: real): real
    requires 0.0 < m1 && 0.0 < m2
  {
    -(ImpulseFactor * vel) / (1.0 / m1 + 1.0 / m2)
  }

  /** Exchange of the impulse j along the normal (nx, ny). */
  function Bounce(b1: Ball, b2: Ball, nx: real, ny: real, j: real): (res: (Ball, Ball))
    requires 0.0 < b1.mass && 0.0 < b2.mass
    ensures res.0 == b1.(vx := res.0.vx, vy := res.0.vy)
    ensures res.1 == b2.(vx := res.1.vx, vy := res.1.vy)
  {
    (b1.(vx := b1.vx - (j * nx) / b1.mass, vy := b1.vy - (j * ny) / b1.mass),
     b2.(vx := b2.vx + (j * nx) / b2.mass, vy := b2.vy + (j * ny) / b2.mass))
  }

  /** What `resolveCollision` does to an overlapping pair once the unit
      normal (nx, ny) and the overlap are known. */
  function Respond(b1: Ball, b2: Ball, nx: real, ny: real, overlap: real): (res: (Ball, Ball))
    requires 0.0 < b1.mass && 0.0 < b2.mass
    ensures SameIdentity(res.0, b1) && SameIdentity(res.1, b2)
  {
    var pushed := Push(b1, b2, nx, ny, overlap);
    var vel := Closing(b1, b2, nx, ny);
    if vel > 0.0 then pushed
    else Bounce(pushed.0, pushed.1, nx, ny, Impulse(vel, b1.mass, b2.mass))
  }

  /** `resolveCollision(b1, b2)`: push overlapping balls apart in proportion
      to the other ball's share of the mass, then, unless they already
      separate, exchange an impulse along the normal. */
  function Resolve(b1: Ball, b2: Ball, hypot: (real, real) -> real): (res: (Ball, Ball))
    requires 0.0 < b1.mass && 0.0 < b2.mass
    ensures SameIdentity(res.0, b1) && SameIdentity(res.1, b2)
    ensures !Overlap(b1, b2, hypot) ==> res.0 == b1 && res.1 == b2
    ensures Overlap(b1, b2, hypot) && NormalVelocity(b1, b2, hypot) > 0.0 ==>
              res.0.vx == b1.vx && res.0.vy == b1.vy && res.1.vx == b2.vx && res.1.vy == b2.vy
  {
    var dist := Separation(b1, b2, hypot);
    var min := b1.r + b2.r;
    if dist >= min then (b1, b2)
    else
      var n := Normal(b1, b2, hypot);
      Respond(b1, b2, n.0, n.1, min - dist)
  }

  // Conserved quantities of a ball.
  function MomentumX(b: Ball): real { b.mass * b.vx }
  function MomentumY(b: Ball): real { b.mass * b.vy }
  function MomentX(b: Ball): real { b.mass * b.x }
  function MomentY(b: Ball): real { b.mass * b.y }

  /** Moving two masses by opposite amounts weighted by the other's share
      leaves their mass-weighted sum unchanged. */
  lemma WeightedShiftCancels(m1: real, m2: real, p1: real, p2: real, k: real)
    requires 0.0 < m1 && 0.0 < m2
    ensures m1 * (p1 - k * (m2 / (m1 + m2))) + m2 * (p2 + k * (m1 / (m1 + m2)))
            == m1 * p1 + m2 * p2
  {
    var t := m1 + m2;
    assert m1 * (k * (m2 / t)) == k * (m1 * m2) / t;
    assert m2 * (k * (m1 / t)) == k * (m1 * m2) / t;
  }

  /** An impulse j applied with opposite signs changes no total momentum. */
  lemma ImpulseCancels(m1: real, m2: real, v1: real, v2: real, q: real)
    requires 0.0 < m1 && 0.0 < m2
    ensures m1 * (v1 - q / m1) + m2 * (v2 + q / m2) == m1 * v1 + m2 * v2
  {
    assert m1 * (q / m1) == q;
    assert m2 * (q / m2) == q;
  }

  lemma PushConservesCentreOfMass(b1: Ball, b2: Ball, nx: real, ny: real, overlap: real)
    requires 0.0 < b1.mass && 0.0 < b2.mass
    ensures var res := Push(b1, b2, nx, ny, overlap);
            && MomentX(res.0) + MomentX(res.1) == MomentX(b1) + MomentX(b2)
            && MomentY(res.0) + MomentY(res.1) == MomentY(b1) + MomentY(b2)
  {
    WeightedShiftCancels(b1.mass, b2.mass, b1.x, b2.x, nx * overlap);
    WeightedShiftCancels(b1.mass, b2.mass, b1.y, b2.y, ny * overlap);
  }

  lemma BounceConservesMomentum(b1: Ball, b2: Ball, nx: real, ny: real, j: real)
    requires 0.0 < b1.mass && 0.0 < b2.mass
    ensures var res := Bounce(b1, b2, nx, ny, j);
            && MomentumX(res.0) + MomentumX(res.1) == MomentumX(b1) + MomentumX(b2)
            && MomentumY(res.0) + MomentumY(res.1) == MomentumY(b1) + MomentumY(b2)
  {
    ImpulseCancels(b1.mass, b2.mass, b1.vx, b2.vx, j * nx);
    ImpulseCancels(b1.mass, b2.mass, b1.vy, b2.vy, j * ny);
  }

  lemma RespondConservesMomentum(b1: Ball, b2: Ball, nx: real, ny: real, overlap: real)
    requires 0.0 < b1.mass && 0.0 < b2.mass
    ensures var res := Respond(b1, b2, nx, ny, overlap);
            && MomentumX(res.0) + MomentumX(res.1) == MomentumX(b1) + MomentumX(b2)
            && MomentumY(res.0) + MomentumY(res.1) == MomentumY(b1) + MomentumY(b2)
  {
    var pushed := Push(b1, b2, nx, ny, overlap);
    SameMotion(pushed.0, b1);
    SameMotion(pushed.1, b2);
    var vel := Closing(b1, b2, nx, ny);
    if vel <= 0.0 {
      var j := Impulse(vel, b1.mass, b2.mass);
      var bounced := Bounce(pushed.0, pushed.1, nx, ny, j);
      assert Respond(b1, b2, nx, ny, overlap) == bounced;
      BounceConservesMomentum(pushed.0, pushed.1, nx, ny, j);
    } else {
      assert Respond(b1, b2, nx, ny, overlap) == pushed;
    }
  }

  lemma SameMotion(a: Ball, b: Ball)
    requires a.mass == b.mass && a.vx == b.vx && a.vy == b.vy
    ensures MomentumX(a) == MomentumX(b) && MomentumY(a) == MomentumY(b)
  {
  }

  lemma SamePlace(a: Ball, b: Ball)
    requires a.mass == b.mass && a.x == b.x && a.y == b.y
    ensures MomentX(a) == MomentX(b) && MomentY(a) == MomentY(b)
  {
  }

  lemma RespondConservesCentreOfMass(b1: Ball, b2: Ball, nx: real, ny: real, overlap: real)
    requires 0.0 < b1.mass && 0.0 < b2.mass
    ensures var res := Respond(b1, b2, nx, ny, overlap);
            && MomentX(res.0) + MomentX(res.1) == MomentX(b1) + MomentX(b2)
            && MomentY(res.0) + MomentY(res.1) == MomentY(b1) + MomentY(b2)
  {
    var pushed := Push(b1, b2, nx, ny, overlap);
    PushConservesCentreOfMass(b1, b2, nx, ny, overlap);
    var vel := Closing(b1, b2, nx, ny);
    if vel <= 0.0 {
      var bounced := Bounce(pushed.0, pushed.1, nx, ny, Impulse(vel, b1.mass, b2.mass));
      assert Respond(b1, b2, nx, ny, overlap) == bounced;
      SamePlace(bounced.0, pushed.0);
      SamePlace(bounced.1, pushed.1);
    } else {
      assert Respond(b1, b2, nx, ny, overlap) == pushed;
    }
  }

  /** `resolveCollision` conserves total momentum, in each coordinate. */
  lemma ResolveConservesMomentum(b1: Ball, b2: Ball, hypot: (real, real) -> real)
    requires 0.0 < b1.mass && 0.0 < b2.mass
    ensures var res := Resolve(b1, b2, hypot);
            && MomentumX(res.0) + MomentumX(res.1) == MomentumX(b1) + MomentumX(b2)
            && MomentumY(res.0) + MomentumY(res.1) == MomentumY(b1) + MomentumY(b2)
  {
    var dist := Separation(b1, b2, hypot);
    if dist < b1.r + b2.r {
      var n := Normal(b1, b2, hypot);
      RespondConservesMomentum(b1, b2, n.0, n.1, b1.r + b2.r - dist);
    }
  }

  /** `resolveCollision` keeps the mass-weighted sum of positions (and so
      the centre of mass) where it was. */
  lemma ResolveConservesCentreOfMass(b1: Ball, b2: Ball, hypot: (real, real) -> real)
    requires 0.0 < b1.mass && 0.0 < b2.mass
    ensures var res := Resolve(b1, b2, hypot);
            && MomentX(res.0) + MomentX(res.1) == MomentX(b1) + MomentX(b2)
            && MomentY(res.0) + MomentY(res.1) == MomentY(b1) + MomentY(b2)
  {
    var dist := Separation(b1, b2, hypot);
    if dist < b1.r + b2.r {
      var n := Normal(b1, b2, hypot);
      RespondConservesCentreOfMass(b1, b2, n.0, n.1, b1.r + b2.r - dist);
    }
  }

  /** Every ball's mass is positive, as the resolver's divisions need. */
  predicate PositiveMasses(bs: seq<Ball>) {
    forall k :: 0 <= k < |bs| ==> 0.0 < bs[k].mass
  }

  /** The inner loop of `animate`: resolve ball i against balls j, j+1, ...,
      in that order, each time on the already updated list. */
  function SweepRow(bs: seq<Ball>, i: nat, j: nat, hypot: (real, real) -> real): (out: seq<Ball>)
    requires i < j <= |bs|
    requires PositiveMasses(bs)
    ensures |out| == |bs|
    ensures forall k :: 0 <= k < |bs| ==> SameIdentity(out[k], bs[k])
    decreases |bs| - j
  {
    if j == |bs| then bs
    else
      var res := Resolve(bs[i], bs[j], hypot);
      SweepRow(bs[i := res.0][j := res.1], i, j + 1, hypot)
  }

  /** The outer loop of `animate`: rows i, i+1, ... of the pair sweep. */
  function Sweep(bs: seq<Ball>, i: nat, hypot: (real, real) -> real): (out: seq<Ball>)
    requires i <= |bs|
    requires PositiveMasses(bs)
    ensures |out| == |bs|
    ensures forall k :: 0 <= k < |bs| ==> SameIdentity(out[k], bs[k])
    decreases |bs| - i
  {
    if i == |bs| then bs
    else Sweep(SweepRow(bs, i, i + 1, hypot), i + 1, hypot)
  }

  /** The collision phase of one frame: every unordered pair once. */
  function PairPass(bs: seq<Ball>, hypot: (real, real) -> real): (out: seq<Ball>)
    requires PositiveMasses(bs)
    ensures |out| == |bs|
    ensures forall k :: 0 <= k < |bs| ==> SameIdentity(out[k], bs[k])
  {
    Sweep(bs, 0, hypot)
  }

  /** Sum of a per-ball quantity over a list of balls. */
  function Total(bs: seq<Ball>, f: Ball -> real): real
    decreases |bs|
  {
    if |bs| == 0 then 0.0 else f(bs[0]) + Total(bs[1..], f)
  }

  /** Replacing one ball changes a total by exactly that ball's contribution. */
  lemma {:induction false} TotalUpdate(bs: seq<Ball>, k: nat, v: Ball, f: Ball -> real)
    requires k < |bs|
    ensures Total(bs[k := v], f) == Total(bs, f) - f(bs[k]) + f(v)
  {
    if k == 0 {
      assert bs[k := v][1..] == bs[1..];
    } else {
      assert bs[k := v][1..] == bs[1..][k - 1 := v];
      TotalUpdate(bs[1..], k - 1, v, f);
    }
  }

  /** Replacing two distinct balls by a pair with the same combined
      contribution leaves a total unchanged. */
  lemma TotalPairUpdate(bs: seq<Ball>, i: nat, j: nat, a: Ball, c: Ball, f: Ball -> real)
    requires i < |bs| && j < |bs| && i != j
    requires f(a) + f(c) == f(bs[i]) + f(bs[j])
    ensures Total(bs[i := a][j := c], f) == Total(bs, f)
  {
    TotalUpdate(bs, i, a, f);
    TotalUpdate(bs[i := a], j, c, f);
  }

  /** `f` is a quantity that `resolveCollision` never changes in sum. */
  ghost predicate PairConserved(f: Ball -> real, hypot: (real, real) -> real) {
    forall b1: Ball, b2: Ball :: PairKeeps(f, hypot, b1, b2)
  }

  /** Resolving b1 against b2 keeps the sum of `f` over the pair. */
  ghost predicate PairKeeps(f: Ball -> real, hypot: (real, real) -> real, b1: Ball, b2: Ball) {
    0.0 < b1.mass && 0.0 < b2.mass ==>
      f(Resolve(b1, b2, hypot).0) + f(Resolve(b1, b2, hypot).1) == f(b1) + f(b2)
  }

  lemma {:induction false} SweepRowConserves(bs: seq<Ball>, i: nat, j: nat, hypot: (real, real) -> real, f: Ball -> real)
    requires i < j <= |bs|
    requires PositiveMasses(bs)
    requires PairConserved(f, hypot)
    ensures Total(SweepRow(bs, i, j, hypot), f) == Total(bs, f)
    decreases |bs| - j
  {
    if j < |bs| {
      var res := Resolve(bs[i], bs[j], hypot);
      assert PairKeeps(f, hypot, bs[i], bs[j]);
      TotalPairUpdate(bs, i, j, res.0, res.1, f);
      SweepRowConserves(bs[i := res.0][j := res.1], i, j + 1, hypot, f);
    }
  }

  lemma {:induction false} SweepConserves(bs: seq<Ball>, i: nat, hypot: (real, real) -> real, f: Ball -> real)
    requires i <= |bs|
    requires PositiveMasses(bs)
    requires PairConserved(f, hypot)
    ensures Total(Sweep(bs, i, hypot), f) == Total(bs, f)
    decreases |bs| - i
  {
    if i < |bs| {
      SweepRowConserves(bs, i, i + 1, hypot, f);
      SweepConserves(SweepRow(bs, i, i + 1, hypot), i + 1, hypot, f);
    }
  }

  lemma MomentaArePairConserved(hypot: (real, real) -> real)
    ensures PairConserved(MomentumX, hypot) && PairConserved(MomentumY, hypot)
    ensures PairConserved(MomentX, hypot) && PairConserved(MomentY, hypot)
  {
    forall b1: Ball, b2: Ball
      ensures PairKeeps(MomentumX, hypot, b1, b2) && PairKeeps(MomentumY, hypot, b1, b2)
      ensures PairKeeps(MomentX, hypot, b1, b2) && PairKeeps(MomentY, hypot, b1, b2)
    {
      if 0.0 < b1.mass && 0.0 < b2.mass {
        ResolveConservesMomentum(b1, b2, hypot);
        ResolveConservesCentreOfMass(b1, b2, hypot);
      }
    }
  }

  /** The collision phase of a frame conserves the total momentum and the
      mass-weighted position sum of all balls. */
  lemma PairPassConserves(bs: seq<Ball>, hypot: (real, real) -> real)
    requires PositiveMasses(bs)
    ensures Total(PairPass(bs, hypot), MomentumX) == Total(bs, MomentumX)
    ensures Total(PairPass(bs, hypot), MomentumY) == Total(bs, MomentumY)
    ensures Total(PairPass(bs, hypot), MomentX) == Total(bs, MomentX)
    ensures Total(PairPass(bs, hypot), MomentY) == Total(bs, MomentY)
  {
    MomentaArePairConserved(hypot);
    SweepConserves(bs, 0, hypot, MomentumX);
    SweepConserves(bs, 0, hypot, MomentumY);
    SweepConserves(bs, 0, hypot, MomentX);
    SweepConserves(bs, 0, hypot, MomentY);
  }

  // Geometry of a single resolution, for a Euclidean `hypot`.

  /** The positional correction widens the gap between the centres by
      exactly `overlap` along (nx, ny). */
  lemma PushWidensGap(b1: Ball, b2: Ball, nx: real, ny: real, overlap: real)
    requires 0.0 < b1.mass && 0.0 < b2.mass
    ensures var p := Push(b1, b2, nx, ny, overlap);
            && p.1.x - p.0.x == (b2.x - b1.x) + nx * overlap
            && p.1.y - p.0.y == (b2.y - b1.y) + ny * overlap
  {
    var total := b1.mass + b2.mass;
    assert b1.mass / total + b2.mass / total == 1.0;
    assert nx * overlap * (b1.mass / total) + nx * overlap * (b2.mass / total) == nx * overlap;
    assert ny * overlap * (b1.mass / total) + ny * overlap * (b2.mass / total) == ny * overlap;
  }

  /** The impulse times the summed inverse masses is -1.1 times `vel`. */
  lemma ImpulseScaled(vel: real, m1: real, m2: real)
    requires 0.0 < m1 && 0.0 < m2
    ensures Impulse(vel, m1, m2) * (1.0 / m1 + 1.0 / m2) == -(ImpulseFactor * vel)
  {
    var inv := 1.0 / m1 + 1.0 / m2;
    assert 0.0 < inv;
  }

  /** An impulse j along a normal component n changes the relative velocity
      component by j * n times the summed inverse masses. */
  lemma RelativeAfterImpulse(v1: real, v2: real, j: real, n: real, m1: real, m2: real)
    requires 0.0 < m1 && 0.0 < m2
    ensures (v2 + (j * n) / m2) - (v1 - (j * n) / m1) == (v2 - v1) + (j * (1.0 / m1 + 1.0 / m2)) * n
  {
  }

  /** Adding k times a unit normal to a relative velocity adds k to its
      component along that normal. */
  lemma ClosingShift(dvx: real, dvy: real, nx: real, ny: real, k: real)
    requires Sq(nx) + Sq(ny) == 1.0
    ensures (dvx + k * nx) * nx + (dvy + k * ny) * ny == dvx * nx + dvy * ny + k
  {
    SplitByShares(Sq(nx), Sq(ny), k);
  }

  /** Along a unit normal, the impulse turns the closing speed `vel` into a
      separating speed of 0.1 * |vel|: restitution 0.1. */
  lemma BounceRestitution(b1: Ball, b2: Ball, nx: real, ny: real)
    requires 0.0 < b1.mass && 0.0 < b2.mass
    requires Sq(nx) + Sq(ny) == 1.0
    ensures var vel := Closing(b1, b2, nx, ny);
            var after := Bounce(b1, b2, nx, ny, Impulse(vel, b1.mass, b2.mass));
            Closing(after.0, after.1, nx, ny) == -0.1 * vel
  {
    var m1, m2 := b1.mass, b2.mass;
    var vel := Closing(b1, b2, nx, ny);
    var j := Impulse(vel, m1, m2);
    ImpulseScaled(vel, m1, m2);
    var k := j * (1.0 / m1 + 1.0 / m2);
    RelativeAfterImpulse(b1.vx, b2.vx, j, nx, m1, m2);
    RelativeAfterImpulse(b1.vy, b2.vy, j, ny, m1, m2);
    ClosingShift(b2.vx - b1.vx, b2.vy - b1.vy, nx, ny, k);
  }

  /** For distinct centres a Euclidean `hypot` gives a positive distance,
      which the resolver uses unchanged, and a unit normal. */
  lemma NormalOfDistinctCentres(b1: Ball, b2: Ball, hypot: (real, real) -> real)
    requires IsHypot(hypot)
    requires b1.x != b2.x || b1.y != b2.y
    ensures 0.0 < hypot(b2.x - b1.x, b2.y - b1.y)
    ensures Separation(b1, b2, hypot) == hypot(b2.x - b1.x, b2.y - b1.y)
    ensures var n := Normal(b1, b2, hypot); Sq(n.0) + Sq(n.1) == 1.0
  {
    var dx, dy := b2.x - b1.x, b2.y - b1.y;
    var d := hypot(dx, dy);
    Euclidean(hypot, dx, dy);
    if d == 0.0 {
      SquaresVanish(dx, dy);
      assert false;
    }
    UnitVector(dx, dy, d);
  }

  /** The impulse does not move the balls, so a response ends where the
      positional correction put them. */
  lemma RespondPositions(b1: Ball, b2: Ball, nx: real, ny: real, overlap: real)
    requires 0.0 < b1.mass && 0.0 < b2.mass
    ensures var res := Respond(b1, b2, nx, ny, overlap);
            var p := Push(b1, b2, nx, ny, overlap);
            res.0.x == p.0.x && res.0.y == p.0.y && res.1.x == p.1.x && res.1.y == p.1.y
  {
  }

  /** Moving apart by (min - d) along the normal of an offset of length d
      gives an offset of min along the same normal. */
  lemma WidenAlongNormal(delta: real, d: real, min: real)
    requires d != 0.0
    ensures delta + (delta / d) * (min - d) == (delta / d) * min
  {
    assert (delta / d) * d == delta;
  }

  /** `resolveCollision` leaves two overlapping balls with distinct centres
      exactly touching: the offset between the new centres is the contact
      normal scaled to r1 + r2, so the new distance is r1 + r2. */
  lemma ResolveTouches(b1: Ball, b2: Ball, hypot: (real, real) -> real)
    requires 0.0 < b1.mass && 0.0 < b2.mass
    requires IsHypot(hypot)
    requires b1.x != b2.x || b1.y != b2.y
    requires Overlap(b1, b2, hypot)
    ensures var res := Resolve(b1, b2, hypot);
            var n := Normal(b1, b2, hypot);
            && res.1.x - res.0.x == n.0 * (b1.r + b2.r)
            && res.1.y - res.0.y == n.1 * (b1.r + b2.r)
    ensures var res := Resolve(b1, b2, hypot);
            hypot(res.1.x - res.0.x, res.1.y - res.0.y) == b1.r + b2.r
  {
    var d := Separation(b1, b2, hypot);
    NormalOfDistinctCentres(b1, b2, hypot);
    var min := b1.r + b2.r;
    var n := Normal(b1, b2, hypot);
    var overlap := min - d;
    ResolveOverlapping(b1, b2, hypot, overlap);
    RespondTouches(b1, b2, n.0, n.1, d, min, overlap);
    var res := Resolve(b1, b2, hypot);
    HypotOfScaledUnit(hypot, n.0, n.1, min, res.1.x - res.0.x, res.1.y - res.0.y);
  }

  /** Responding with the overlap min - d along the offset divided by its
      length d leaves the centres min apart along that direction. */
  lemma RespondTouches(b1: Ball, b2: Ball, nx: real, ny: real, d: real, min: real, overlap: real)
    requires 0.0 < b1.mass && 0.0 < b2.mass
    requires d != 0.0
    requires nx == (b2.x - b1.x) / d && ny == (b2.y - b1.y) / d
    requires overlap == min - d
    ensures var res := Respond(b1, b2, nx, ny, overlap);
            res.1.x - res.0.x == nx * min && res.1.y - res.0.y == ny * min
  {
    RespondPositions(b1, b2, nx, ny, overlap);
    PushWidensGap(b1, b2, nx, ny, overlap);
    WidenAlongNormal(b2.x - b1.x, d, min);
    WidenAlongNormal(b2.y - b1.y, d, min);
  }

  /** An overlapping pair gets the response along its normal, with the
      overlap r1 + r2 - dist. */
  lemma ResolveOverlapping(b1: Ball, b2: Ball, hypot: (real, real) -> real, overlap: real)
    requires 0.0 < b1.mass && 0.0 < b2.mass
    requires Overlap(b1, b2, hypot)
    requires overlap == b1.r + b2.r - Separation(b1, b2, hypot)
    ensures var n := Normal(b1, b2, hypot);
            Resolve(b1, b2, hypot) == Respond(b1, b2, n.0, n.1, overlap)
  {
  }

  /** A Euclidean `hypot` measures a unit vector scaled by len >= 0 as len. */
  lemma HypotOfScaledUnit(hypot: (real, real) -> real, nx: real, ny: real, len: real, gx: real, gy: real)
    requires IsHypot(hypot)
    requires Sq(nx) + Sq(ny) == 1.0
    requires gx == nx * len && gy == ny * len
    requires 0.0 <= len
    ensures hypot(gx, gy) == len
  {
    ScaledUnitVector(nx, ny, len);
    var g := hypot(gx, gy);
    Euclidean(hypot, gx, gy);
    SquareRootUnique(g, len);
  }

  /** When overlapping balls with distinct centres approach, the normal
      relative velocity after `resolveCollision` is -0.1 times the one
      before: the impulse factor 1.1 amounts to a restitution of 0.1. */
  lemma ResolveRestitution(b1: Ball, b2: Ball, hypot: (real, real) -> real)
    requires 0.0 < b1.mass && 0.0 < b2.mass
    requires IsHypot(hypot)
    requires b1.x != b2.x || b1.y != b2.y
    requires Overlap(b1, b2, hypot) && NormalVelocity(b1, b2, hypot) <= 0.0
    ensures var n := Normal(b1, b2, hypot);
            var res := Resolve(b1, b2, hypot);
            Closing(res.0, res.1, n.0, n.1) == -0.1 * NormalVelocity(b1, b2, hypot)
  {
    NormalOfDistinctCentres(b1, b2, hypot);
    var n := Normal(b1, b2, hypot);
    var overlap := b1.r + b2.r - Separation(b1, b2, hypot);
    var pushed := Push(b1, b2, n.0, n.1, overlap);
    assert Closing(pushed.0, pushed.1, n.0, n.1) == Closing(b1, b2, n.0, n.1);
    BounceRestitution(pushed.0, pushed.1, n.0, n.1);
    assert Resolve(b1, b2, hypot) == Respond(b1, b2, n.0, n.1, overlap);
  }

  /** A response along the zero normal changes nothing. */
  lemma RespondZeroNormal(b1: Ball, b2: Ball, overlap: real)
    requires 0.0 < b1.mass && 0.0 < b2.mass
    ensures Respond(b1, b2, 0.0, 0.0, overlap) == (b1, b2)
  {
    var pushed := Push(b1, b2, 0.0, 0.0, overlap);
    assert pushed == (b1, b2);
    assert Closing(b1, b2, 0.0, 0.0) == 0.0;
    var j := Impulse(0.0, b1.mass, b2.mass);
    assert j == 0.0;
  }

  /** Swapping the balls and reversing the normal swaps the corrected
      positions. */
  lemma PushSymmetric(b1: Ball, b2: Ball, nx: real, ny: real, overlap: real)
    requires 0.0 < b1.mass && 0.0 < b2.mass
    ensures var p := Push(b1, b2, nx, ny, overlap);
            Push(b2, b1, -nx, -ny, overlap) == (p.1, p.0)
  {
    var total := b1.mass + b2.mass;
    assert b2.mass + b1.mass == total;
    NegTimes(nx, overlap, b1.mass / total);
    NegTimes(ny, overlap, b1.mass / total);
    NegTimes(nx, overlap, b2.mass / total);
    NegTimes(ny, overlap, b2.mass / total);
  }

  lemma NegTimes(a: real, b: real, c: real)
    ensures (-a) * b * c == -(a * b * c)
  {
  }

  /** Swapping the balls and reversing the normal swaps the velocities
      after the same impulse. */
  lemma BounceSymmetric(b1: Ball, b2: Ball, nx: real, ny: real, j: real)
    requires 0.0 < b1.mass && 0.0 < b2.mass
    ensures var r := Bounce(b1, b2, nx, ny, j);
            Bounce(b2, b1, -nx, -ny, j) == (r.1, r.0)
  {
    assert j * (-nx) == -(j * nx) && j * (-ny) == -(j * ny);
    NegDiv(j * nx, b1.mass);
    NegDiv(j * ny, b1.mass);
    NegDiv(j * nx, b2.mass);
    NegDiv(j * ny, b2.mass);
  }

  /** The normal velocity and the impulse do not depend on the order of
      the balls once the normal is reversed. */
  lemma ClosingSymmetric(b1: Ball, b2: Ball, nx: real, ny: real)
    requires 0.0 < b1.mass && 0.0 < b2.mass
    ensures Closing(b2, b1, -nx, -ny) == Closing(b1, b2, nx, ny)
    ensures Impulse(Closing(b1, b2, nx, ny), b2.mass, b1.mass) == Impulse(Closing(b1, b2, nx, ny), b1.mass, b2.mass)
  {
    NegBoth(b2.vx - b1.vx, nx);
    NegBoth(b2.vy - b1.vy, ny);
  }

  lemma NegBoth(a: real, b: real)
    ensures (-a) * (-b) == a * b
  {
  }

  /** Responding along the reversed normal with the roles of the balls
      swapped gives the same two balls, swapped. */
  lemma RespondSymmetric(b1: Ball, b2: Ball, nx: real, ny: real, overlap: real)
    requires 0.0 < b1.mass && 0.0 < b2.mass
    ensures var r := Respond(b1, b2, nx, ny, overlap);
            Respond(b2, b1, -nx, -ny, overlap) == (r.1, r.0)
  {
    var p := Push(b1, b2, nx, ny, overlap);
    PushSymmetric(b1, b2, nx, ny, overlap);
    ClosingSymmetric(b1, b2, nx, ny);
    assert b1.vx - b2.vx == -(b2.vx - b1.vx) && b1.vy - b2.vy == -(b2.vy - b1.vy);
    var vel := Closing(b1, b2, nx, ny);
    BounceSymmetric(p.0, p.1, nx, ny, Impulse(vel, b1.mass, b2.mass));
  }

  /** `resolveCollision(b1, b2)` and `resolveCollision(b2, b1)` agree: the
      normal flips sign while the distance, the overlap, the normal velocity
      and the impulse stay the same. */
  lemma ResolveSymmetric(b1: Ball, b2: Ball, hypot: (real, real) -> real)
    requires 0.0 < b1.mass && 0.0 < b2.mass
    requires IsHypot(hypot)
    ensures Resolve(b2, b1, hypot).0 == Resolve(b1, b2, hypot).1
    ensures Resolve(b2, b1, hypot).1 == Resolve(b1, b2, hypot).0
  {
    var dx, dy := b2.x - b1.x, b2.y - b1.y;
    HypotEven(hypot, dx, dy);
    assert b1.x - b2.x == -dx && b1.y - b2.y == -dy;
    var d := Separation(b1, b2, hypot);
    assert Separation(b2, b1, hypot) == d;
    if d < b1.r + b2.r {
      var n := Normal(b1, b2, hypot);
      NegDiv(dx, d);
      NegDiv(dy, d);
      assert Normal(b2, b1, hypot) == (-n.0, -n.1);
      var overlap := b1.r + b2.r - d;
      ResolveOverlapping(b1, b2, hypot, overlap);
      ResolveOverlapping(b2, b1, hypot, overlap);
      RespondSymmetric(b1, b2, n.0, n.1, overlap);
    }
  }

  /** Two balls whose centres coincide are neither separated nor
      accelerated: the 0.001 substitute distance comes with a zero normal. */
  lemma ResolveCoincidentIsNoOp(b1: Ball, b2: Ball, hypot: (real, real) -> real)
    requires 0.0 < b1.mass && 0.0 < b2.mass
    requires hypot(0.0, 0.0) == 0.0
    requires b1.x == b2.x && b1.y == b2.y
    ensures Separation(b1, b2, hypot) == MinDistance
    ensures Normal(b1, b2, hypot) == (0.0, 0.0)
    ensures Resolve(b1, b2, hypot) == (b1, b2)
  {
    assert Separation(b1, b2, hypot) == MinDistance;
    assert Normal(b1, b2, hypot) == (0.0, 0.0);
    RespondZeroNormal(b1, b2, b1.r + b2.r - MinDistance);
  }
}
