# Lottery ball engine and planet orbit paths

This project models two pieces of a small Next.js site in Dafny.

The first is the physics and event logic of the lottery page
(`app/games/lottery/page.tsx`). Coloured balls fall into a full-window canvas.
They bounce off the floor and the side walls and collide with each other.
Hovering a ball makes it follow the pointer. The first click on a hovered ball
draws it as a winner (30 %) or a loser, and after that one draw the page is
locked. A button spawns six balls and the `x` key removes five.

The second is the orbit geometry of `components/Planet.tsx`:

- the ellipse polyline;
- the five-pointed-star polyline;
- the per-frame step that advances a planet's phase and places it between two
  neighbouring path points.

Modules:

- `Geometry` (`geometry.dfy`): `Option`, `Rand`, the squaring helpers, and the
  predicates `IsHypot` and `Pythagorean`. Those two predicates say what the
  proofs assume about Math.hypot, Math.sin and Math.cos.
- `Balls` (`balls.dfy`): the `Ball` record, its constructor, the pointer hit
  test and `Ball.update`.
- `Collision` (`collision.dfy`): `resolveCollision` and the pair sweep of
  `animate`, with the conservation and contact proofs.
- `Engine` (`engine.dfy`): the page state and its event handlers as pure
  functions. It also holds the invariant "at most one ball is ever drawn", and
  `Run`, which folds a sequence of events.
- `Orbit` (`orbit.dfy`): `makeEllipsePoints`, `makeStarPoints` and the
  `useFrame` step.

Numbers are mathematical reals. Math.random() draws are inputs in [0, 1), in
the order the page makes the calls. Math.hypot, Math.sin and Math.cos are
function values passed to the code that uses them.

## Model

| member | source | states |
|---|---|---|
| Geometry.Rand | app/games/lottery/page.tsx:45-46 | `rand(a, b)` with a draw in [0, 1) lands in [a, b], and strictly below b when a < b |
| Balls.NewBall | app/games/lottery/page.tsx:62-86 | a new ball has r = baseR, mass r², the given position and velocity, and every flag clear |
| Balls.ContainsIsDiscTest | app/games/lottery/page.tsx:88-92 | with a Euclidean hypot, `contains` holds exactly when the squared distance to the centre is at most r² |
| Balls.FloorBounce | app/games/lottery/page.tsx:123-127 | afterwards the ball is never below the floor; without contact nothing changes; on contact it is clamped, and stops if slower than 1 or else reflects with friction |
| Balls.WallBounce | app/games/lottery/page.tsx:129-136 | the ball never ends left of r; if it fits the width it never ends right of w - r; a wall hit clamps it and reflects vx with friction; no hit keeps x and vx |
| Balls.Update | app/games/lottery/page.tsx:94-139 | flash counts up and flags and mass are kept; a pending ball sits on the pointer, keeps its velocity and pulses; any other ball is at base radius, above the floor and, when it fits the width, inside the walls |
| Balls.PulseRadius | app/games/lottery/page.tsx:101-102 | the pulsing radius stays within 15 % of the base radius |
| Balls.UpdateIntegratesAfterGravity | app/games/lottery/page.tsx:118-127 | gravity (2.2 times stronger for a loser) changes vy before vy moves the ball; then the floor outcome per case |
| Balls.UpdateReflectsOnWalls | app/games/lottery/page.tsx:129-136 | for a ball that fits the width: the right or left wall reflects vx with friction; no contact keeps the integrated x |
| Balls.Contains | app/games/lottery/page.tsx:88-92 | the hit test: hypot of the offset from the pointer is at most the displayed radius (its meaning as a disc test is `Balls.ContainsIsDiscTest`) |
| Collision.Separation | app/games/lottery/page.tsx:150-152 | the distance divided by is never zero: it is hypot when hypot is non-zero and 0.001 when hypot is zero |
| Collision.Push | app/games/lottery/page.tsx:159-164 | the positional correction moves only positions |
| Collision.PushConservesCentreOfMass | app/games/lottery/page.tsx:159-164 | the mass-share split of the correction keeps the mass-weighted position sum |
| Collision.Bounce | app/games/lottery/page.tsx:171-175 | the impulse exchange changes only the two velocities |
| Collision.Respond | app/games/lottery/page.tsx:156-175 | the response to an overlap changes only positions and velocities |
| Collision.BounceConservesMomentum | app/games/lottery/page.tsx:171-175 | the opposite impulses keep total momentum |
| Collision.Resolve | app/games/lottery/page.tsx:149-176 | only positions and velocities change; a pair that does not overlap is untouched; separating balls keep their velocities |
| Collision.ResolveConservesMomentum | app/games/lottery/page.tsx:149-176 | resolving any pair keeps total momentum in x and in y |
| Collision.ResolveConservesCentreOfMass | app/games/lottery/page.tsx:149-176 | resolving any pair keeps the mass-weighted position sum in x and in y |
| Collision.NormalOfDistinctCentres | app/games/lottery/page.tsx:150-157 | for distinct centres the distance is positive and used as is, and the normal is a unit vector |
| Collision.ResolveOverlapping | app/games/lottery/page.tsx:153-158 | an overlapping pair gets the response along its normal with overlap r1 + r2 - dist |
| Collision.RespondTouches | app/games/lottery/page.tsx:156-164 | pushing apart by min - d along the offset divided by its length d leaves the centres min apart along that direction |
| Collision.ResolveTouches | app/games/lottery/page.tsx:149-164 | two overlapping balls with distinct centres end exactly touching: the new offset is the normal scaled to r1 + r2, at distance r1 + r2 |
| Collision.BounceRestitution | app/games/lottery/page.tsx:166-175 | along a unit normal, the impulse with factor 1.1 turns the closing speed v into -0.1 v |
| Collision.ResolveRestitution | app/games/lottery/page.tsx:149-176 | for approaching overlapping balls, the normal relative velocity after resolution is -0.1 times the one before |
| Collision.RespondSymmetric | app/games/lottery/page.tsx:158-175 | swapping the balls and reversing the normal swaps the pushed positions and the bounced velocities: the mass shares, the normal velocity and the impulse are the same either way |
| Collision.ResolveSymmetric | app/games/lottery/page.tsx:149-176 | resolving (b2, b1) gives the same two balls as resolving (b1, b2), swapped: the normal flips while distance, overlap, normal velocity and impulse are unchanged |
| Collision.ResolveCoincidentIsNoOp | app/games/lottery/page.tsx:150-158 | balls with coincident centres get the 0.001 distance and the zero normal (0, 0), and are left unchanged |
| Collision.SweepRow | app/games/lottery/page.tsx:181-183 | the inner loop keeps the list length and every ball's non-kinematic fields |
| Collision.Sweep | app/games/lottery/page.tsx:180-184 | the outer loop keeps the list length and every ball's non-kinematic fields |
| Collision.PairPass | app/games/lottery/page.tsx:180-184 | the pair sweep keeps the list length and every ball's non-kinematic fields |
| Collision.TotalUpdate | app/games/lottery/page.tsx:180-184 | replacing one ball changes a sum over the list by exactly that ball's change |
| Collision.SweepConserves | app/games/lottery/page.tsx:180-184 | any quantity each resolution keeps for its pair is kept by the whole sweep |
| Collision.PairPassConserves | app/games/lottery/page.tsx:180-184 | the collision phase of a frame keeps total momentum and the mass-weighted position sum of all balls |
| Engine.Init | app/games/lottery/page.tsx:25-34 | the page starts with no balls, gravity 0.35, friction 0.985 and the lock clear |
| Engine.Resize | app/games/lottery/page.tsx:36-41 | a resize changes only the viewport |
| Engine.SpawnBall | app/games/lottery/page.tsx:190-204 | a spawned ball has radius in [14, 34), mass r², starts 50 to 150 above the top edge, has vx in [-6, 6) and vy in [-10, 2), has no flags set, and lies inside the walls when it fits |
| Engine.Spawn | app/games/lottery/page.tsx:191-203 | the loop makes one ball per draw record, in order, each spawned as `Engine.SpawnBall` states |
| Engine.AddBalls | app/games/lottery/page.tsx:190-204 | n fresh balls are appended; the existing balls and the rest of the state are kept |
| Engine.KeyDown | app/games/lottery/page.tsx:246-250 | `x` or `X` drops the first min(5, n) balls and keeps the rest in order; any other key changes nothing |
| Engine.HoverAll | app/games/lottery/page.tsx:210-215 | every ball's hover flag is recomputed, in place, and nothing else about it changes |
| Engine.MouseMove | app/games/lottery/page.tsx:206-216 | the pointer is stored; each ball's hover flag becomes "unlocked, undrawn and containing the pointer"; nothing else changes |
| Engine.MouseMoveHover | app/games/lottery/page.tsx:206-216 | once locked no ball is hovered; with a Euclidean hypot, hovered holds exactly for unlocked, undrawn balls whose disc holds the pointer |
| Engine.FirstPending | app/games/lottery/page.tsx:220-221 | the click picks the first hovered, undrawn ball in list order, or none exists |
| Engine.Draw | app/games/lottery/page.tsx:222-236 | a draw below 0.3 makes a winner kicked by less than 25 sideways and 20 to 40 upward with mass kept; otherwise a loser with mass ×3.5, vx ×0.1 and vy = 30; position and radius are kept |
| Engine.Click | app/games/lottery/page.tsx:218-240 | with the lock set, or no pending ball, nothing changes; otherwise exactly the first pending ball is drawn and the lock is set |
| Engine.Frame | app/games/lottery/page.tsx:178-187 | a frame keeps ball count, masses and flags; pending balls go to the pointer; every other ball ends at base radius above the floor and, when it fits the width, inside the walls |
| Engine.UpdateAll | app/games/lottery/page.tsx:185 | every ball gets exactly its own update, in place |
| Engine.InitValid | app/games/lottery/page.tsx:25-34 | the initial page satisfies the draw-lock invariant |
| Engine.AddBallsValid | app/games/lottery/page.tsx:190-204 | spawning keeps the invariant |
| Engine.ClickValid | app/games/lottery/page.tsx:218-240 | a click keeps the invariant: the drawn ball is well formed (a loser's mass is 3.5 r²) and is the only drawn one |
| Engine.FrameValid | app/games/lottery/page.tsx:178-187 | every mass is positive before the collision pass divides by it, and a frame keeps the invariant |
| Engine.Step | app/games/lottery/page.tsx:242-257 | every event keeps the invariant; the lock never clears; a click after the lock is a no-op |
| Engine.Run | app/games/lottery/page.tsx:242-257 | any run of events keeps the invariant and never clears the lock |
| Engine.AtMostOneDraw | app/games/lottery/page.tsx:218-240 | from the initial page, after any run of events at most one ball has been drawn, and a drawn ball means the lock is set |
| Orbit.Lerp | components/Planet.tsx:57 | interpolation at 0 gives the start point and at 1 the end point, and it stays in the y = 0 plane |
| Orbit.LerpOnSegment | components/Planet.tsx:57 | with a weight in [0, 1] every component lies between the corresponding components of the two end points |
| Orbit.MakeEllipsePoints | components/Planet.tsx:32-39 | segments + 1 points, all with y = 0; point i is (a cos t, 0, b sin t) at t = 2·Pi·i/segments |
| Orbit.MakeDefaultEllipsePoints | components/Planet.tsx:84-88 | the page's `makeEllipsePoints(a, b)` call uses 360 segments: 361 points, point i at angle 2·Pi·i/360 |
| Orbit.EllipseAngles | components/Planet.tsx:34-35 | the first point is at angle 0 and the last at 2·Pi; the angles lie in [0, 2·Pi] and strictly increase with i |
| Orbit.EllipsePointOnEllipse | components/Planet.tsx:36 | every point satisfies (x/a)² + (z/b)² = 1 |
| Orbit.MakeStarVertices | components/Planet.tsx:42-48 | exactly ten vertices; vertex i has radius outerR (even i) or innerR (odd i) at angle -Pi/2 + i·Pi/5 |
| Orbit.StarVertexRadius | components/Planet.tsx:45-47 | even vertices lie at distance outerR from the centre, odd ones at innerR, all with y = 0 |
| Orbit.MakeStarPoints | components/Planet.tsx:41-60 | seg ≤ 0 fails; otherwise 10·seg + 1 points, where point n is sample s = n mod seg of edge n / seg; the path starts at vertex 0 and the last point repeats the first |
| Orbit.StarSampleOnEdge | components/Planet.tsx:50-57 | every sample lies on the segment from its edge's start vertex to the next one (the tenth edge wraps to vertex 0), at a weight in [0, 1) |
| Orbit.StarSampleAtVertex | components/Planet.tsx:50-57 | sample i·seg is exactly vertex i |
| Orbit.Frac | components/Planet.tsx:92 | JavaScript's `x % 1` lies in [0, 1) for x ≥ 0 and in (-1, 0] for x < 0, and differs from x by an integer |
| Orbit.AdvancePhase | components/Planet.tsx:92 | a phase in [0, 1) with a non-negative increment stays in [0, 1), and is unchanged by `% 1` when it does not wrap |
| Orbit.PickAt | components/Planet.tsx:93-97 | the weight u is in [0, 1), and i1 is i0 + 1 or clamped to the last index |
| Orbit.PickInBounds | components/Planet.tsx:93-97 | for a path of at least two points and a phase in [0, 1): 0 ≤ i0 < total and i1 = i0 + 1 ≤ total |
| Orbit.Position | components/Planet.tsx:99-103 | with at least two points and a phase in [0, 1) the planet always has a position |
| Orbit.PositionOnSegment | components/Planet.tsx:93-103 | the position is exactly the interpolation of points i0 and i0 + 1 with weight u in [0, 1), and each of its components lies between theirs |
| Orbit.PhaseStaysInRange | components/Planet.tsx:91-92 | over any number of frames, each applying the phase update once with a non-negative delta·speed·timeScale, the phase stays in [0, 1) |

## Behaviour worth knowing

- A losing ball's mass is multiplied by 3.5 (`page.tsx:233`).
- The impulse factor 1.1 is one plus a restitution of 0.1. An approaching
  pair therefore separates along the normal at a tenth of its closing speed
  (`Collision.ResolveRestitution`).
- Balls with coincident centres are never pushed apart. The fallback distance
  0.001 gives the normal (0, 0), so the response is a no-op
  (`Collision.ResolveCoincidentIsNoOp`).
- Hover flags are recomputed only on pointer moves. A click sets the lock but
  leaves `isHovered` as it was. Other hovered balls stay pending, and keep
  following the pointer, until the next move clears them.

## Left out

- Drawing, colours and hue: `draw`, `color`, `baseColor`, `hue`, the colour
  flicker, and the two Math.random() calls per spawned ball that feed them.
  These are presentation only.
- `alert`, `requestAnimationFrame`, event-listener registration and removal,
  `getBoundingClientRect`, and the canvas size. These are browser I/O. The
  pointer is taken as already in canvas coordinates, and a frame is one call
  of `Engine.Frame`.
- Floating point: rounding, NaN and the infinities are not modelled. Numbers
  are reals. `Math.hypot(...) || 0.001` is modelled as "0 becomes 0.001".
- Orbit.MakeEllipsePoints: requires segments > 0. With 0 segments the page
  would compute the angle 0/0 = NaN, which reals cannot represent. The page
  only uses the default of 360.
- Orbit.MakeStarPoints: models `seg` as an integer. A fractional segment count
  is not modelled. The page passes the integer prop `starSegmentsPerEdge`,
  which defaults to 30.
- The planet's own spin (`rotation.y += 0.6 * delta * timeScale`,
  `Planet.tsx:104`). It does not affect the orbit position.
- Mesh, texture, hover label and click handler of `Planet`, and everything in
  `components/SolarSystem.tsx`. This is React and three.js rendering.
- The other pages of the site (`app/page.tsx`, `app/prize/page.tsx`,
  `app/sam/page.tsx`). They are not part of this model.
- Math.sin and Math.cos enter only through the `Pythagorean` predicate. Math.PI
  is the constant 3.141592653589793.
- Closure of the ellipse. Its last point is at angle 2·Pi, where Pi is
  Math.PI and not π. Neither Math.sin nor the real sine is exactly 0 there.
  So the last point matches the first only approximately, and the model
  claims no exact closure. `Orbit.EllipseAngles` states only that the angles
  run from 0 to 2·Pi.
