/**
 * Orbit paths of the solar-system view: the ellipse and five-pointed star
 * polylines a planet follows, and the per-frame step that advances the
 * planet's phase and places it between two neighbouring path points.
 *
 * Math.cos and Math.sin are function values; `Pythagorean` states the one
 * fact about them some lemmas need. Vector3 is a plain triple and
 * `lerpVectors` is componentwise linear interpolation.
 */
module Orbit {
  import opened Geometry

  /** Math.PI. */
  const Pi: real := 3.141592653589793
  /** Default resolution of the ellipse. */
  const EllipseSegments: nat := 360
  /** A star has five outer and five inner vertices. */
  const StarVertexCount: nat := 10

  datatype Vec3 = Vec3(x: real, y: real, z: real)

  /** `lerpVectors(p, q, t)`: p + (q - p) * t in every component. */
  function Lerp(p: Vec3, q: Vec3, t: real): (r: Vec3)
    ensures t == 0.0 ==> r == p
    ensures t == 1.0 ==> r == q
    ensures p.y == 0.0 && q.y == 0.0 ==> r.y == 0.0
  {
    Vec3(p.x + (q.x - p.x) * t, p.y + (q.y - p.y) * t, p.z + (q.z - p.z) * t)
  }

  /** `a` lies between `p` and `q`, whichever way round they are. */
  predicate Between(a: real, p: real, q: real) {
    (p <= a <= q) || (q <= a <= p)
  }

  /** One component of an interpolation with weight in [0, 1] stays between
      the two end values. */
  lemma LerpComponentBetween(p: real, q: real, t: real)
    requires 0.0 <= t <= 1.0
    ensures Between(p + (q - p) * t, p, q)
  {
    ScaleBelowOneOrOne(t, q - p, (q - p) * t);
  }

  /** Scaling by a weight in [0, 1] keeps a value between 0 and itself. The
      product is passed in as `prod`, as for `ProductPositive`. */
  lemma ScaleBelowOneOrOne(t: real, span: real, prod: real)
    requires 0.0 <= t <= 1.0
    requires prod == span * t
    ensures 0.0 <= span ==> 0.0 <= prod <= span
    ensures span <= 0.0 ==> span <= prod <= 0.0
  {
    if 0.0 < span {
      if 0.0 < t {
        ProductPositive(span, t, prod);
      }
      if t < 1.0 {
        ProductPositive(span, 1.0 - t, span - prod);
      }
    } else if span < 0.0 {
      if 0.0 < t {
        ProductPositive(-span, t, -prod);
      }
      if t < 1.0 {
        ProductPositive(-span, 1.0 - t, prod - span);
      }
    }
  }

  /** Each component of an interpolation with weight in [0, 1] lies between
      the corresponding components of the two end points. */
  lemma LerpOnSegment(p: Vec3, q: Vec3, t: real)
    requires 0.0 <= t <= 1.0
    ensures var r := Lerp(p, q, t);
            Between(r.x, p.x, q.x) && Between(r.y, p.y, q.y) && Between(r.z, p.z, q.z)
  {
    LerpComponentBetween(p.x, q.x, t);
    LerpComponentBetween(p.y, q.y, t);
    LerpComponentBetween(p.z, q.z, t);
  }

  // ---------------------------------------------------------------------
  // Ellipse

  /** The angle of point i of an ellipse with `segments` segments. */
  function EllipseAngle(i: nat, segments: nat): real
    requires 0 < segments
  {
    (i as real / segments as real) * Pi * 2.0
  }

  function EllipsePoint(a: real, b: real, angle: real, cos: real -> real, sin: real -> real): Vec3 {
    Vec3(a * cos(angle), 0.0, b * sin(angle))
  }

  /** `makeEllipsePoints(a, b, segments)`: segments + 1 points on the
      ellipse in the y = 0 plane, the last at angle 2 pi. */
  method MakeEllipsePoints(a: real, b: real, segments: nat, cos: real -> real, sin: real -> real)
    returns (pts: seq<Vec3>)
    requires 0 < segments
    ensures |pts| == segments + 1
    ensures forall i :: 0 <= i < |pts| ==> pts[i].y == 0.0
    ensures forall i :: 0 <= i < |pts| ==> pts[i] == EllipsePoint(a, b, EllipseAngle(i, segments), cos, sin)
  {
    pts := [];
    var i := 0;
    while i <= segments
      invariant 0 <= i <= segments + 1
      invariant |pts| == i
      invariant forall k :: 0 <= k < i ==> pts[k] == EllipsePoint(a, b, EllipseAngle(k, segments), cos, sin)
    {
      pts := pts + [EllipsePoint(a, b, EllipseAngle(i, segments), cos, sin)];
      i := i + 1;
    }
  }

  /** The page's `makeEllipsePoints(a, b)` call: the default 360 segments,
      so 361 points one degree apart. */
  method MakeDefaultEllipsePoints(a: real, b: real, cos: real -> real, sin: real -> real)
    returns (pts: seq<Vec3>)
    ensures |pts| == EllipseSegments + 1
    ensures forall i :: 0 <= i < |pts| ==> pts[i] == EllipsePoint(a, b, EllipseAngle(i, EllipseSegments), cos, sin)
  {
    pts := MakeEllipsePoints(a, b, EllipseSegments, cos, sin);
  }

  /** The angles of an ellipse run from 0 (first point) to 2 Pi (last
      point), strictly increasing in between. */
  lemma EllipseAngles(segments: nat, i: nat, j: nat)
    requires 0 < segments
    ensures EllipseAngle(0, segments) == 0.0
    ensures EllipseAngle(segments, segments) == 2.0 * Pi
    ensures i <= segments ==> 0.0 <= EllipseAngle(i, segments) <= 2.0 * Pi
    ensures i < j ==> EllipseAngle(i, segments) < EllipseAngle(j, segments)
  {
    var n := segments as real;
    assert n / n == 1.0;
    var step := 2.0 * Pi / n;
    assert forall k: nat {:trigger EllipseAngle(k, segments)} :: EllipseAngle(k, segments) == k as real * step by {
      forall k: nat ensures EllipseAngle(k, segments) == k as real * step {
        assert (k as real / n) * Pi * 2.0 == k as real * (2.0 * Pi / n);
      }
    }
    assert 0.0 < step;
    if i <= segments {
      ScaleBelowOneOrOne(i as real / n, 2.0 * Pi, EllipseAngle(i, segments));
    }
    if i < j {
      ProductPositive((j - i) as real, step, EllipseAngle(j, segments) - EllipseAngle(i, segments));
    }
  }

  /** With a Pythagorean cos and sin, every ellipse point satisfies
      (x / a)^2 + (z / b)^2 = 1. */
  lemma EllipsePointOnEllipse(a: real, b: real, angle: real, cos: real -> real, sin: real -> real)
    requires a != 0.0 && b != 0.0
    requires Pythagorean(sin, cos)
    ensures var p := EllipsePoint(a, b, angle, cos, sin);
            Sq(p.x / a) + Sq(p.z / b) == 1.0
  {
    var p := EllipsePoint(a, b, angle, cos, sin);
    assert p.x / a == cos(angle);
    assert p.z / b == sin(angle);
    assert Sq(sin(angle)) + Sq(cos(angle)) == 1.0;
  }

  // ---------------------------------------------------------------------
  // Star

  /** Radius of star vertex i: outer on even indices, inner on odd ones. */
  function StarRadius(i: nat, outerR: real, innerR: real): real {
    if i % 2 == 0 then outerR else innerR
  }

  /** Angle of star vertex i: starting straight up (-pi/2), a tenth of a
      turn per vertex. */
  function StarAngle(i: nat): real {
    -Pi / 2.0 + (i as real * Pi) / 5.0
  }

  function StarVertex(i: nat, outerR: real, innerR: real, cos: real -> real, sin: real -> real): Vec3 {
    var r := StarRadius(i, outerR, innerR);
    Vec3(r * cos(StarAngle(i)), 0.0, r * sin(StarAngle(i)))
  }

  /** The first loop of `makeStarPoints`: ten alternating vertices. */
  method MakeStarVertices(outerR: real, innerR: real, cos: real -> real, sin: real -> real)
    returns (verts: seq<Vec3>)
    ensures |verts| == StarVertexCount
    ensures forall i :: 0 <= i < |verts| ==> verts[i] == StarVertex(i, outerR, innerR, cos, sin)
  {
    verts := [];
    var i := 0;
    while i < StarVertexCount
      invariant 0 <= i <= StarVertexCount
      invariant |verts| == i
      invariant forall k :: 0 <= k < i ==> verts[k] == StarVertex(k, outerR, innerR, cos, sin)
    {
      verts := verts + [StarVertex(i, outerR, innerR, cos, sin)];
      i := i + 1;
    }
  }

  /** With a Pythagorean cos and sin, vertex i sits at distance outerR from
      the centre when i is even and innerR when i is odd. */
  lemma StarVertexRadius(i: nat, outerR: real, innerR: real, cos: real -> real, sin: real -> real)
    requires Pythagorean(sin, cos)
    ensures var v := StarVertex(i, outerR, innerR, cos, sin);
            && v.y == 0.0
            && (i % 2 == 0 ==> Sq(v.x) + Sq(v.z) == Sq(outerR))
            && (i % 2 == 1 ==> Sq(v.x) + Sq(v.z) == Sq(innerR))
  {
    var ang := StarAngle(i);
    var r := StarRadius(i, outerR, innerR);
    assert Sq(sin(ang)) + Sq(cos(ang)) == 1.0;
    ScaledUnitVector(cos(ang), sin(ang), r);
    assert cos(ang) * r == r * cos(ang) && sin(ang) * r == r * sin(ang);
  }

  /** Sample n of the star path, for seg samples per edge: edge n / seg,
      at weight (n mod seg) / seg from its start vertex. */
  function StarSample(verts: seq<Vec3>, seg: nat, n: nat): Vec3
    requires |verts| == StarVertexCount && 0 < seg && n < StarVertexCount * seg
  {
    EdgeIndexBound(n, seg);
    var i := n / seg;
    Lerp(verts[i], verts[(i + 1) % StarVertexCount], (n % seg) as real / seg as real)
  }

  lemma EdgeIndexBound(n: nat, seg: nat)
    requires 0 < seg && n < StarVertexCount * seg
    ensures n / seg < StarVertexCount
  {
  }

  lemma MulMonotone(a: nat, b: nat, c: nat)
    requires b <= c
    ensures a * b <= a * c
  {
    var d := c - b;
    assert a * c == a * b + a * d;
  }

  /** Quotient and remainder are determined by n = i * seg + s with s < seg. */
  lemma DivModOf(i: nat, s: nat, seg: nat)
    requires s < seg
    ensures (i * seg + s) / seg == i && (i * seg + s) % seg == s
  {
    var n := i * seg + s;
    var q, r := n / seg, n % seg;
    assert n == q * seg + r;
    if q < i {
      MulMonotone(seg, q + 1, i);
      assert false;
    } else if i < q {
      MulMonotone(seg, i + 1, q);
      assert false;
    }
  }

  /** `makeStarPoints(outerR, innerR, seg)`. For seg >= 1: seg samples on
      each of the ten edges and a copy of the first point at the end. With
      seg <= 0 no sample is produced and `pts[0].clone()` throws; that is
      the None result. */
  method MakeStarPoints(outerR: real, innerR: real, seg: int, cos: real -> real, sin: real -> real)
    returns (res: Option<seq<Vec3>>)
    ensures seg <= 0 <==> res.None?
    ensures res.Some? ==> |res.value| == StarVertexCount * seg + 1
    ensures res.Some? ==> res.value[StarVertexCount * seg] == res.value[0]
    ensures res.Some? ==> res.value[0] == StarVertex(0, outerR, innerR, cos, sin)
    ensures res.Some? ==> forall n :: 0 <= n < StarVertexCount * seg ==>
              res.value[n] == StarSample(StarVertices(outerR, innerR, cos, sin), seg, n)
  {
    var verts := MakeStarVertices(outerR, innerR, cos, sin);
    assert verts == StarVertices(outerR, innerR, cos, sin);
    if seg <= 0 {
      return None;
    }
    var pts: seq<Vec3> := [];
    var i := 0;
    while i < StarVertexCount
      invariant 0 <= i <= StarVertexCount
      invariant |pts| == i * seg
      invariant forall n :: 0 <= n < |pts| ==> pts[n] == StarSample(verts, seg, n)
    {
      var p0, p1 := verts[i], verts[(i + 1) % StarVertexCount];
      var s := 0;
      while s < seg
        invariant 0 <= s <= seg
        invariant |pts| == i * seg + s
        invariant forall n :: 0 <= n < |pts| ==> pts[n] == StarSample(verts, seg, n)
      {
        DivModOf(i, s, seg);
        MulMonotone(seg, i + 1, StarVertexCount);
        pts := pts + [Lerp(p0, p1, s as real / seg as real)];
        s := s + 1;
      }
      i := i + 1;
    }
    StarSampleAtVertex(verts, seg, 0);
    pts := pts + [pts[0]];
    res := Some(pts);
  }

  /** The ten star vertices as a sequence. */
  function StarVertices(outerR: real, innerR: real, cos: real -> real, sin: real -> real): (verts: seq<Vec3>)
    ensures |verts| == StarVertexCount
    ensures forall i :: 0 <= i < |verts| ==> verts[i] == StarVertex(i, outerR, innerR, cos, sin)
  {
    seq(StarVertexCount, i requires 0 <= i => StarVertex(i, outerR, innerR, cos, sin))
  }

  /** Sample i * seg is exactly vertex i, and every sample lies on the
      segment from its edge's start vertex to the next vertex (the tenth
      edge closes back to vertex 0), strictly before the end vertex's
      weight. */
  lemma StarSampleOnEdge(verts: seq<Vec3>, seg: nat, n: nat)
    requires |verts| == StarVertexCount && 0 < seg && n < StarVertexCount * seg
    ensures n / seg < StarVertexCount
    ensures var i := n / seg;
            var t := (n % seg) as real / seg as real;
            && 0.0 <= t < 1.0
            && StarSample(verts, seg, n) == Lerp(verts[i], verts[(i + 1) % StarVertexCount], t)
            && (n % seg == 0 ==> StarSample(verts, seg, n) == verts[i])
    ensures var p := StarSample(verts, seg, n);
            var i := n / seg;
            var q0, q1 := verts[i], verts[(i + 1) % StarVertexCount];
            Between(p.x, q0.x, q1.x) && Between(p.y, q0.y, q1.y) && Between(p.z, q0.z, q1.z)
  {
    EdgeIndexBound(n, seg);
    var i := n / seg;
    var t := (n % seg) as real / seg as real;
    assert 0.0 <= t < 1.0 by {
      assert (n % seg) as real < seg as real;
    }
    LerpOnSegment(verts[i], verts[(i + 1) % StarVertexCount], t);
  }

  /** Sample i * seg of the star path is vertex i. */
  lemma StarSampleAtVertex(verts: seq<Vec3>, seg: nat, i: nat)
    requires |verts| == StarVertexCount && 0 < seg && i < StarVertexCount
    ensures i * seg < StarVertexCount * seg
    ensures StarSample(verts, seg, i * seg) == verts[i]
  {
    MulMonotone(seg, i + 1, StarVertexCount);
    DivModOf(i, 0, seg);
  }

  // ---------------------------------------------------------------------
  // Per-frame motion along the path

  /** Truncation toward zero, as JavaScript's `%` uses it. */
  function Trunc(x: real): (n: int)
    ensures 0.0 <= x ==> n as real <= x < n as real + 1.0
    ensures x < 0.0 ==> n as real - 1.0 < x <= n as real
  {
    if 0.0 <= x then x.Floor else -((-x).Floor)
  }

  /** `x % 1` on numbers: the remainder keeps the sign of x. */
  function Frac(x: real): (r: real)
    ensures 0.0 <= x ==> 0.0 <= r < 1.0
    ensures x < 0.0 ==> -1.0 < r <= 0.0
    ensures (x - r).Floor as real == x - r
  {
    x - Trunc(x) as real
  }

  /** `phase = (phase + delta * speed * timeScale) % 1`. */
  function AdvancePhase(phase: real, delta: real, speed: real, timeScale: real): (p: real)
    ensures 0.0 <= phase && 0.0 <= delta * speed * timeScale ==> 0.0 <= p < 1.0
    ensures 0.0 <= phase + delta * speed * timeScale < 1.0 ==> p == phase + delta * speed * timeScale
  {
    Frac(phase + delta * speed * timeScale)
  }

  /** The index pair and weight the frame callback reads for a path of
      `len` points: f = phase * (len - 1), i0 = floor f,
      i1 = min(i0 + 1, len - 1), u = f - i0. */
  datatype Pick = Pick(i0: int, i1: int, u: real)

  function PickAt(len: nat, phase: real): (k: Pick)
    ensures 0.0 <= k.u < 1.0
    ensures k.i1 <= len - 1 && (k.i1 == k.i0 + 1 || k.i1 == len - 1)
  {
    var total := len - 1;
    var f := phase * total as real;
    var i0 := f.Floor;
    Pick(i0, Min(i0 + 1, total), f - i0 as real)
  }

  /** For a path of at least two points and a phase in [0, 1), both reads
      are in bounds: 0 <= i0 < total and i1 = i0 + 1 <= total. */
  lemma PickInBounds(len: nat, phase: real)
    ensures 2 <= len && 0.0 <= phase < 1.0 ==>
              var k := PickAt(len, phase);
              && 0 <= k.i0 < len - 1
              && k.i1 == k.i0 + 1 && k.i1 <= len - 1
  {
    if 2 <= len && 0.0 <= phase < 1.0 {
      var total := len - 1;
      var f := phase * total as real;
      if 0.0 < phase {
        ProductPositive(phase, total as real, f);
      }
      ProductPositive(1.0 - phase, total as real, total as real - f);
    }
  }

  /** The planet's position for a phase: the interpolation between the two
      picked points, or None when a read would fall outside the path (the
      page would fail there). */
  function Position(pts: seq<Vec3>, phase: real): (pos: Option<Vec3>)
    ensures 2 <= |pts| && 0.0 <= phase < 1.0 ==> pos.Some?
  {
    PickInBounds(|pts|, phase);
    var k := PickAt(|pts|, phase);
    if 0 <= k.i0 < |pts| && 0 <= k.i1 < |pts| then Some(Lerp(pts[k.i0], pts[k.i1], k.u))
    else None
  }

  /** The position is `lerpVectors(orbitPoints[i0], orbitPoints[i0 + 1], u)`
      with u in [0, 1): a point of the path segment from point i0 to point
      i0 + 1, so each of its components lies between theirs. */
  lemma PositionOnSegment(pts: seq<Vec3>, phase: real)
    requires 2 <= |pts| && 0.0 <= phase < 1.0
    ensures var k := PickAt(|pts|, phase);
            && 0 <= k.i0 && k.i0 + 1 < |pts|
            && 0.0 <= k.u < 1.0
            && Position(pts, phase) == Some(Lerp(pts[k.i0], pts[k.i0 + 1], k.u))
    ensures var k := PickAt(|pts|, phase);
            var p := Position(pts, phase).value;
            && 0 <= k.i0 && k.i0 + 1 < |pts|
            && Between(p.x, pts[k.i0].x, pts[k.i0 + 1].x)
            && Between(p.y, pts[k.i0].y, pts[k.i0 + 1].y)
            && Between(p.z, pts[k.i0].z, pts[k.i0 + 1].z)
  {
    PickInBounds(|pts|, phase);
    var k := PickAt(|pts|, phase);
    LerpOnSegment(pts[k.i0], pts[k.i1], k.u);
  }

  /** One frame's inputs to the phase update: the frame's delta, the
      planet's speed and the shared time scale. */
  datatype Tick = Tick(delta: real, speed: real, timeScale: real)

  /** The phase after a run of frames, each applying the frame callback's
      update `AdvancePhase` once. */
  function PhaseAfter(phase: real, ticks: seq<Tick>): real
    decreases |ticks|
  {
    if |ticks| == 0 then phase
    else PhaseAfter(AdvancePhase(phase, ticks[0].delta, ticks[0].speed, ticks[0].timeScale), ticks[1..])
  }

  /** Starting in [0, 1) and never moving backwards, the phase stays in
      [0, 1) over any number of frames, so every frame's reads are in
      bounds. */
  lemma {:induction false} PhaseStaysInRange(phase: real, ticks: seq<Tick>)
    requires 0.0 <= phase < 1.0
    requires forall k :: 0 <= k < |ticks| ==> 0.0 <= ticks[k].delta * ticks[k].speed * ticks[k].timeScale
    ensures 0.0 <= PhaseAfter(phase, ticks) < 1.0
    decreases |ticks|
  {
    if |ticks| > 0 {
      var t := ticks[0];
      PhaseStaysInRange(AdvancePhase(phase, t.delta, t.speed, t.timeScale), ticks[1..]);
    }
  }
}
