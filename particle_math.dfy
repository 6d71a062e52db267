/** The arithmetic of the animated network background: node count, breakpoint
    radii, node spawning, the reflective bounce, pointer repulsion, and the
    alpha, width and highlight of what each frame draws. Coordinates are
    reals; Math.hypot is a function parameter. */
module ParticleMath {

  /** A JavaScript number as far as the pointer record needs one: the pointer
      coordinates start out as NaN. */
  datatype JsNumber = NaN | Finite(value: real)

  /** One node: position, velocity per frame, and dot radius. */
  datatype Particle = Particle(x: real, y: real, vx: real, vy: real, size: real)

  /** The pointer record: last coordinates and whether the pointer is over the page. */
  datatype PointerState = PointerState(x: JsNumber, y: JsNumber, active: bool)

  /** What a frame reads besides the nodes: the viewport, the two radii and the pointer. */
  datatype Scene = Scene(width: nat, height: nat, linkDistance: real, interactionRadius: real,
                         pointer: PointerState)

  /** One stroked connection between nodes `from` < `to`. */
  datatype Line = Line(from: nat, to: nat, alpha: real, lineWidth: real)

  /** One filled node circle. */
  datatype Dot = Dot(x: real, y: real, radius: real, alpha: real)

  /** Math.hypot, as the browser provides it. */
  type Hypot = (real, real) -> real

  /** What every Euclidean distance satisfies. */
  ghost predicate IsDistance(hypot: Hypot) {
    forall u, v :: hypot(u, v) >= 0.0
  }

  /** The radii a scene divides by are positive. */
  predicate Radii(s: Scene) {
    s.linkDistance > 0.0 && s.interactionRadius > 0.0
  }

  function Min(a: real, b: real): real { if a <= b then a else b }
  function Max(a: real, b: real): real { if a >= b then a else b }

  /** JavaScript's `a < b` when `a` may be NaN: false for NaN. */
  predicate Below(a: JsNumber, b: real) { a.Finite? && a.value < b }

  /** Math.min of two numbers that may be NaN: NaN if either is. */
  function JsMin(a: JsNumber, b: JsNumber): JsNumber {
    if a.NaN? || b.NaN? then NaN else Finite(Min(a.value, b.value))
  }

  /** Math.hypot of a point's offset from the pointer; NaN while the pointer coordinates are. */
  function PointerDistance(pointer: PointerState, x: real, y: real, hypot: Hypot): JsNumber {
    if pointer.x.Finite? && pointer.y.Finite? then
      Finite(hypot(x - pointer.x.value, y - pointer.y.value))
    else NaN
  }

  // ---- viewport ----

  const Breakpoint: nat := 768
  const MinNodes: nat := 30
  const MaxNodes: nat := 110

  /** Nodes per square pixel: fewer on narrow (mobile) viewports. */
  function Density(width: nat): real {
    if width < Breakpoint then 0.00005 else 0.000065
  }

  function RawNodeCount(width: nat, height: nat): int {
    ((width * height) as real * Density(width)).Floor
  }

  /** The node count for a viewport: the area times the density, rounded down
      and clamped to [30, 110]. */
  function NodeCountForViewport(width: nat, height: nat): (count: nat)
    ensures MinNodes <= count <= MaxNodes
    ensures MinNodes <= RawNodeCount(width, height) <= MaxNodes ==> count == RawNodeCount(width, height)
    ensures RawNodeCount(width, height) < MinNodes ==> count == MinNodes
    ensures RawNodeCount(width, height) > MaxNodes ==> count == MaxNodes
  {
    var count := RawNodeCount(width, height);
    var capped := if MaxNodes < count then MaxNodes as int else count;
    if MinNodes > capped then MinNodes else capped
  }

  /** A taller viewport of the same width never gets fewer nodes. */
  lemma NodeCountMonotone(width: nat, h1: nat, h2: nat)
    requires h1 <= h2
    ensures NodeCountForViewport(width, h1) <= NodeCountForViewport(width, h2)
  {
    assert width * h1 <= width * h2 by {
      assert width * (h2 - h1) >= 0;
    }
    var a := (width * h1) as real * Density(width);
    var b := (width * h2) as real * Density(width);
    assert a <= b;
    assert a.Floor <= b.Floor;
  }

  /** The two narrow/wide examples: a 375×667 phone gets the minimum and a
      1920×1080 desktop the maximum. */
  lemma NodeCountExamples()
    ensures NodeCountForViewport(375, 667) == 30
    ensures NodeCountForViewport(1920, 1080) == 110
  {
    assert RawNodeCount(375, 667) == 12;
    assert RawNodeCount(1920, 1080) == 134;
  }

  /** The distance within which two nodes are linked. */
  function LinkDistanceFor(width: nat): real {
    if width < Breakpoint then 105.0 else 155.0
  }

  /** The distance within which the pointer acts on nodes. */
  function InteractionRadiusFor(width: nat): real {
    if width < Breakpoint then 140.0 else 220.0
  }

  /** `Math.min(window.devicePixelRatio || 1, 2)`: a zero ratio reads as 1, and
      the ratio is capped at 2. */
  function PixelRatio(devicePixelRatio: real): (dpr: real)
    ensures dpr <= 2.0
    ensures devicePixelRatio >= 0.0 ==> dpr > 0.0
    ensures 0.0 < devicePixelRatio <= 2.0 ==> dpr == devicePixelRatio
  {
    Min(if devicePixelRatio == 0.0 then 1.0 else devicePixelRatio, 2.0)
  }

  /** `Math.floor(size * dpr)`: the canvas backing-store size for a CSS size. */
  function BackingSize(cssPixels: nat, dpr: real): int {
    (cssPixels as real * dpr).Floor
  }

  // ---- spawning ----

  /** `random(min, max)` given the value `u` Math.random() returned. */
  function Uniform(u: real, min: real, max: real): real {
    u * (max - min) + min
  }

  /** Values Math.random() can return. */
  predicate UnitDraws(draws: seq<real>) {
    forall k :: 0 <= k < |draws| ==> 0.0 <= draws[k] < 1.0
  }

  /** Node k of a fresh node set, built from the five random values it draws
      (x, y, vx, vy, size, in that order). */
  function Spawn(draws: seq<real>, k: nat, width: nat, height: nat): Particle
    requires 5 * k + 5 <= |draws|
  {
    Particle(Uniform(draws[5 * k], 0.0, width as real),
             Uniform(draws[5 * k + 1], 0.0, height as real),
             Uniform(draws[5 * k + 2], -0.28, 0.28),
             Uniform(draws[5 * k + 3], -0.28, 0.28),
             Uniform(draws[5 * k + 4], 1.1, 2.8))
  }

  predicate InViewport(p: Particle, width: nat, height: nat) {
    0.0 <= p.x <= width as real && 0.0 <= p.y <= height as real
  }

  /** A fraction u in [0, 1) of a non-negative span w lies in [0, w], and below w when w > 0. */
  lemma ScaleBelow(u: real, w: real)
    requires 0.0 <= u < 1.0 && w >= 0.0
    ensures 0.0 <= u * w <= w
    ensures w > 0.0 ==> u * w < w
  {
    assert w - u * w == (1.0 - u) * w;
    if w > 0.0 {
      assert (1.0 - u) * w > 0.0;
    }
  }

  /** The sign of x·b for b > 0 is the sign of x. */
  lemma ScaleSign(x: real, b: real)
    requires b > 0.0
    ensures x > 0.0 ==> x * b > 0.0
    ensures x < 0.0 ==> x * b < 0.0
  {
  }

  /** A quotient a/b with 0 <= a <= b lies in [0, 1], below 1 when a < b. */
  lemma Fraction(a: real, b: real)
    requires 0.0 <= a <= b && b > 0.0
    ensures 0.0 <= a / b <= 1.0
    ensures a < b ==> a / b < 1.0
    ensures a > 0.0 ==> a / b > 0.0
  {
    var f := a / b;
    assert f * b == a;
    ScaleSign(f, b);
    ScaleSign(f - 1.0, b);
    assert (f - 1.0) * b == a - b;
  }

  lemma UniformInRange(u: real, min: real, max: real)
    requires 0.0 <= u < 1.0 && min <= max
    ensures min <= Uniform(u, min, max) <= max
    ensures min < max ==> Uniform(u, min, max) < max
  {
    var w := max - min;
    ScaleBelow(u, w);
    assert Uniform(u, min, max) == u * w + min;
  }

  /** A spawned node lies inside the viewport, moves at most 0.28 per frame
      along each axis, and has a size in [1.1, 2.8). */
  lemma SpawnInRange(draws: seq<real>, k: nat, width: nat, height: nat)
    requires UnitDraws(draws) && 5 * k + 5 <= |draws|
    ensures var p := Spawn(draws, k, width, height);
            && InViewport(p, width, height)
            && -0.28 <= p.vx < 0.28 && -0.28 <= p.vy < 0.28
            && 1.1 <= p.size < 2.8
  {
    UniformInRange(draws[5 * k], 0.0, width as real);
    UniformInRange(draws[5 * k + 1], 0.0, height as real);
    UniformInRange(draws[5 * k + 2], -0.28, 0.28);
    UniformInRange(draws[5 * k + 3], -0.28, 0.28);
    UniformInRange(draws[5 * k + 4], 1.1, 2.8);
  }

  // ---- motion ----

  /** Integrate one frame of velocity and reflect off the viewport edges: an
      axis whose new coordinate is at or beyond an edge has its velocity
      negated and its coordinate clamped back into the viewport. */
  function Bounce(p: Particle, width: nat, height: nat): (q: Particle)
    ensures InViewport(q, width, height)
    ensures q.size == p.size
    ensures q.vx == if p.x + p.vx <= 0.0 || p.x + p.vx >= width as real then -p.vx else p.vx
    ensures q.vy == if p.y + p.vy <= 0.0 || p.y + p.vy >= height as real then -p.vy else p.vy
    ensures 0.0 < p.x + p.vx < width as real ==> q.x == p.x + p.vx
    ensures 0.0 < p.y + p.vy < height as real ==> q.y == p.y + p.vy
    ensures p.x + p.vx <= 0.0 ==> q.x == 0.0
    ensures p.x + p.vx >= width as real ==> q.x == width as real
    ensures p.y + p.vy <= 0.0 ==> q.y == 0.0
    ensures p.y + p.vy >= height as real ==> q.y == height as real
  {
    var x := p.x + p.vx;
    var y := p.y + p.vy;
    var flipX := x <= 0.0 || x >= width as real;
    var flipY := y <= 0.0 || y >= height as real;
    Particle(if flipX then Max(0.0, Min(width as real, x)) else x,
             if flipY then Max(0.0, Min(height as real, y)) else y,
             if flipX then p.vx * -1.0 else p.vx,
             if flipY then p.vy * -1.0 else p.vy,
             p.size)
  }

  /** How far the pointer pushes a node at distance d: the square of the
      node's proximity, scaled by 1.8. */
  function Intensity(d: real, radius: real): real
    requires radius > 0.0
  {
    var force := (radius - d) / radius;
    force * force * 1.8
  }

  /** Inside the interaction radius the push lies strictly between 0 and 1.8. */
  lemma IntensityBounds(d: real, radius: real)
    requires 0.0 < d < radius
    ensures 0.0 < Intensity(d, radius) < 1.8
  {
    var force := (radius - d) / radius;
    Fraction(radius - d, radius);
    ScaleBelow(force, force);
    assert force * force > 0.0;
  }

  /** The push strictly weakens as the distance grows towards the radius. */
  lemma IntensityDecreasing(d1: real, d2: real, radius: real)
    requires 0.0 <= d1 < d2 <= radius
    ensures Intensity(d1, radius) > Intensity(d2, radius)
  {
    var f1 := (radius - d1) / radius;
    var f2 := (radius - d2) / radius;
    Fraction(radius - d2, radius);
    assert f1 - f2 == (d2 - d1) / radius;
    assert f1 > f2 by {
      assert (f1 - f2) * radius == d2 - d1;
      ScaleSign(f1 - f2, radius);
    }
    assert f1 * f1 - f2 * f2 == (f1 - f2) * (f1 + f2);
    assert (f1 - f2) * (f1 + f2) > 0.0;
  }

  /** Whether the pointer pushes a node at (x, y): it is active, and the
      node's distance to it is below the radius and above 0.001. */
  predicate Repels(x: real, y: real, s: Scene, hypot: Hypot) {
    var d := PointerDistance(s.pointer, x, y, hypot);
    s.pointer.active && Below(d, s.interactionRadius) && d.value > 0.001
  }

  /** The pointer pushes a node directly away from itself by the intensity of
      its distance; it moves the position only. */
  function Repel(p: Particle, s: Scene, hypot: Hypot): (q: Particle)
    requires s.interactionRadius > 0.0
    ensures q.vx == p.vx && q.vy == p.vy && q.size == p.size
    ensures !Repels(p.x, p.y, s, hypot) ==> q == p
  {
    if s.pointer.active && s.pointer.x.Finite? && s.pointer.y.Finite? then
      var dx := p.x - s.pointer.x.value;
      var dy := p.y - s.pointer.y.value;
      var distance := hypot(dx, dy);
      if distance < s.interactionRadius && distance > 0.001 then
        var intensity := Intensity(distance, s.interactionRadius);
        p.(x := p.x + dx / distance * intensity, y := p.y + dy / distance * intensity)
      else p
    else p
  }

  /** Repulsion moves a node along the ray from the pointer through it: its
      new offset from the pointer is its old offset stretched by 1 + I/d. */
  lemma RepelMovesAway(p: Particle, s: Scene, hypot: Hypot)
    requires s.interactionRadius > 0.0 && Repels(p.x, p.y, s, hypot)
    ensures var q := Repel(p, s, hypot);
            var d := PointerDistance(s.pointer, p.x, p.y, hypot).value;
            var stretch := 1.0 + Intensity(d, s.interactionRadius) / d;
            && stretch > 1.0
            && q.x - s.pointer.x.value == (p.x - s.pointer.x.value) * stretch
            && q.y - s.pointer.y.value == (p.y - s.pointer.y.value) * stretch
  {
    var d := PointerDistance(s.pointer, p.x, p.y, hypot).value;
    IntensityBounds(d, s.interactionRadius);
    var i := Intensity(d, s.interactionRadius);
    assert i / d > 0.0;
  }

  /** When `hypot` is the Euclidean norm at the offset (dx, dy) of a repelled
      node from the pointer, the node moves by exactly the intensity. */
  lemma RepelDisplacement(p: Particle, s: Scene, hypot: Hypot, dx: real, dy: real, i: real)
    requires s.interactionRadius > 0.0 && Repels(p.x, p.y, s, hypot)
    requires dx == p.x - s.pointer.x.value && dy == p.y - s.pointer.y.value
    requires hypot(dx, dy) * hypot(dx, dy) == dx * dx + dy * dy
    requires i == Intensity(hypot(dx, dy), s.interactionRadius)
    ensures var q := Repel(p, s, hypot);
            (q.x - p.x) * (q.x - p.x) + (q.y - p.y) * (q.y - p.y) == i * i
  {
    var d := hypot(dx, dy);
    var q := Repel(p, s, hypot);
    RepelShift(p, s, hypot, dx, dy, d, i);
    DisplacementLength(dx, dy, d, i, q.x - p.x, q.y - p.y);
  }

  lemma RepelShift(p: Particle, s: Scene, hypot: Hypot, dx: real, dy: real, d: real, i: real)
    requires s.interactionRadius > 0.0 && Repels(p.x, p.y, s, hypot)
    requires dx == p.x - s.pointer.x.value && dy == p.y - s.pointer.y.value
    requires d == hypot(dx, dy) && i == Intensity(d, s.interactionRadius)
    ensures Repel(p, s, hypot).x - p.x == dx / d * i
    ensures Repel(p, s, hypot).y - p.y == dy / d * i
  {
  }

  /** Moving by i along the direction of the offset (dx, dy) of length d covers distance i. */
  lemma DisplacementLength(dx: real, dy: real, d: real, i: real, ax: real, ay: real)
    requires d > 0.0 && d * d == dx * dx + dy * dy
    requires ax == dx / d * i && ay == dy / d * i
    ensures ax * ax + ay * ay == i * i
  {
    QuotientShift(dx, d, i);
    QuotientShift(dy, d, i);
    QuotientSquare(i, d);
    LengthFromParts(ax, ay, dx, dy, i / d, d, i);
  }

  lemma LengthFromParts(ax: real, ay: real, dx: real, dy: real, c: real, d: real, i: real)
    requires ax == dx * c && ay == dy * c
    requires d * d == dx * dx + dy * dy && (c * c) * (d * d) == i * i
    ensures ax * ax + ay * ay == i * i
  {
    ScaledLength(dx, dy, c);
    calc {
      ax * ax + ay * ay;
      (dx * c) * (dx * c) + (dy * c) * (dy * c);
      (dx * dx + dy * dy) * (c * c);
      (d * d) * (c * c);
      (c * c) * (d * d);
      i * i;
    }
  }

  /** Scaling a quotient moves the factor into the numerator's partner. */
  lemma QuotientShift(a: real, b: real, i: real)
    requires b != 0.0
    ensures (a / b) * i == a * (i / b)
  {
  }

  /** Squaring a quotient and scaling back by the squared divisor recovers the square. */
  lemma QuotientSquare(a: real, b: real)
    requires b > 0.0
    ensures ((a / b) * (a / b)) * (b * b) == a * a
  {
    var u := a / b;
    assert u * b == a;
    assert (u * u) * (b * b) == (u * b) * (u * b);
  }

  lemma ScaledLength(dx: real, dy: real, c: real)
    ensures (dx * c) * (dx * c) + (dy * c) * (dy * c) == (dx * dx + dy * dy) * (c * c)
  {
  }

  /** One frame of a node's motion: bounce, then repulsion. */
  function StepParticle(p: Particle, s: Scene, hypot: Hypot): (q: Particle)
    requires s.interactionRadius > 0.0
    ensures q.size == p.size
    ensures q.vx == Bounce(p, s.width, s.height).vx && q.vy == Bounce(p, s.width, s.height).vy
  {
    Repel(Bounce(p, s.width, s.height), s, hypot)
  }

  /** One frame of motion for every node, in order. */
  function Advance(ps: seq<Particle>, s: Scene, hypot: Hypot): seq<Particle>
    requires s.interactionRadius > 0.0
  {
    seq(|ps|, k requires 0 <= k < |ps| => StepParticle(ps[k], s, hypot))
  }

  /** Repulsion is not clamped: a node inside the viewport and close to the
      pointer can be pushed past the edge in the same frame. */
  lemma RepulsionCanLeaveViewport(hypot: Hypot)
    requires hypot(-0.5, 0.0) == 0.5
    ensures var s := Scene(100, 20, 155.0, 220.0, PointerState(Finite(1.0), Finite(10.0), true));
            var p := Particle(0.5, 10.0, 0.0, 0.0, 2.0);
            InViewport(p, s.width, s.height) && !InViewport(StepParticle(p, s, hypot), s.width, s.height)
  {
    var s := Scene(100, 20, 155.0, 220.0, PointerState(Finite(1.0), Finite(10.0), true));
    var p := Particle(0.5, 10.0, 0.0, 0.0, 2.0);
    assert Bounce(p, 100, 20) == p;
    IntensityBounds(0.5, 220.0);
    assert Intensity(0.5, 220.0) > 1.0;
    assert StepParticle(p, s, hypot).x == 0.5 - Intensity(0.5, 220.0);
  }

  // ---- links ----

  /** Link opacity before the pointer bonus: fades linearly to 0 at the link distance. */
  function BaseAlpha(d: real, linkDistance: real): real
    requires linkDistance > 0.0
  {
    (1.0 - d / linkDistance) * 0.42
  }

  lemma BaseAlphaBounds(d: real, linkDistance: real)
    requires linkDistance > 0.0 && 0.0 <= d <= linkDistance
    ensures 0.0 <= BaseAlpha(d, linkDistance) <= 0.42
  {
    Fraction(d, linkDistance);
  }

  /** The base opacity strictly decreases as the nodes move apart. */
  lemma BaseAlphaDecreasing(d1: real, d2: real, linkDistance: real)
    requires linkDistance > 0.0 && d1 < d2
    ensures BaseAlpha(d1, linkDistance) > BaseAlpha(d2, linkDistance)
  {
    assert d1 / linkDistance < d2 / linkDistance by {
      assert (d2 / linkDistance - d1 / linkDistance) * linkDistance == d2 - d1;
    }
  }

  /** The pointer bonus of a link: up to 0.45, by the proximity of the nearer
      endpoint to the active pointer. */
  function MouseBoost(a: Particle, b: Particle, s: Scene, hypot: Hypot): real
    requires s.interactionRadius > 0.0
  {
    if s.pointer.active then
      var nearest := JsMin(PointerDistance(s.pointer, a.x, a.y, hypot),
                           PointerDistance(s.pointer, b.x, b.y, hypot));
      if Below(nearest, s.interactionRadius) then (1.0 - nearest.value / s.interactionRadius) * 0.45
      else 0.0
    else 0.0
  }

  /** The bonus lies in [0, 0.45] and is 0 unless the pointer is active and
      an endpoint is within the interaction radius. */
  lemma MouseBoostBounds(a: Particle, b: Particle, s: Scene, hypot: Hypot)
    requires s.interactionRadius > 0.0 && IsDistance(hypot)
    ensures 0.0 <= MouseBoost(a, b, s, hypot) <= 0.45
    ensures !s.pointer.active ==> MouseBoost(a, b, s, hypot) == 0.0
    ensures !Below(JsMin(PointerDistance(s.pointer, a.x, a.y, hypot),
                         PointerDistance(s.pointer, b.x, b.y, hypot)), s.interactionRadius)
            ==> MouseBoost(a, b, s, hypot) == 0.0
  {
    var nearest := JsMin(PointerDistance(s.pointer, a.x, a.y, hypot),
                         PointerDistance(s.pointer, b.x, b.y, hypot));
    if s.pointer.active && Below(nearest, s.interactionRadius) {
      var r := s.interactionRadius;
      assert nearest.value >= 0.0;
      Fraction(nearest.value, r);
    }
  }

  /** The line drawn between nodes i and j at a and b, if any: none when
      they are farther apart than the link distance or when its opacity is at
      most 0.02. */
  function PairLine(a: Particle, b: Particle, i: nat, j: nat, s: Scene, hypot: Hypot): seq<Line>
    requires Radii(s)
  {
    var distance := hypot(a.x - b.x, a.y - b.y);
    if distance > s.linkDistance then []
    else
      var mouseBoost := MouseBoost(a, b, s, hypot);
      var alpha := Min(BaseAlpha(distance, s.linkDistance) + mouseBoost, 0.78);
      if alpha <= 0.02 then [] else [Line(i, j, alpha, 0.6 + mouseBoost * 1.4)]
  }

  /** The line drawn between nodes i and j of a frame, if any. */
  function PairLines(ps: seq<Particle>, i: nat, j: nat, s: Scene, hypot: Hypot): seq<Line>
    requires i < |ps| && j < |ps| && Radii(s)
  {
    PairLine(ps[i], ps[j], i, j, s, hypot)
  }

  /** A drawn line joins nodes no farther apart than the link distance, has
      opacity in (0.02, 0.78] and width 0.6 + 1.4·bonus; with a true distance
      its opacity is the base opacity plus the bonus, capped at 0.78, and its
      width lies in [0.6, 1.23]. */
  lemma PairLineBounds(ps: seq<Particle>, i: nat, j: nat, s: Scene, hypot: Hypot)
    requires i < |ps| && j < |ps| && Radii(s)
    ensures |PairLines(ps, i, j, s, hypot)| <= 1
    ensures forall line :: line in PairLines(ps, i, j, s, hypot) ==>
              && line.from == i && line.to == j
              && hypot(ps[i].x - ps[j].x, ps[i].y - ps[j].y) <= s.linkDistance
              && 0.02 < line.alpha <= 0.78
              && line.lineWidth == 0.6 + 1.4 * MouseBoost(ps[i], ps[j], s, hypot)
    ensures IsDistance(hypot) ==>
              forall line :: line in PairLines(ps, i, j, s, hypot) ==>
                && line.alpha == Min(BaseAlpha(hypot(ps[i].x - ps[j].x, ps[i].y - ps[j].y), s.linkDistance)
                                     + MouseBoost(ps[i], ps[j], s, hypot), 0.78)
                && 0.6 <= line.lineWidth <= 1.23
  {
    if IsDistance(hypot) {
      MouseBoostBounds(ps[i], ps[j], s, hypot);
    }
  }

  /** The lines of row i for partners i < k < j, in the order the inner loop draws them. */
  function RowLines(ps: seq<Particle>, i: nat, j: nat, s: Scene, hypot: Hypot): seq<Line>
    requires i < |ps| && j <= |ps| && Radii(s)
    decreases j
  {
    if j <= i + 1 then [] else RowLines(ps, i, j - 1, s, hypot) + PairLines(ps, i, j - 1, s, hypot)
  }

  /** The lines of the rows before i, in the order the outer loop draws them. */
  function LinesBefore(ps: seq<Particle>, i: nat, s: Scene, hypot: Hypot): seq<Line>
    requires i <= |ps| && Radii(s)
    decreases i
  {
    if i == 0 then [] else LinesBefore(ps, i - 1, s, hypot) + RowLines(ps, i - 1, |ps|, s, hypot)
  }

  /** Every line a frame draws between nodes. */
  function Links(ps: seq<Particle>, s: Scene, hypot: Hypot): seq<Line>
    requires Radii(s)
  {
    LinesBefore(ps, |ps|, s, hypot)
  }

  /** The order the nested loops visit pairs in: by first node, then by second. */
  predicate PairBefore(l1: Line, l2: Line) {
    l1.from < l2.from || (l1.from == l2.from && l1.to < l2.to)
  }

  predicate Ascending(lines: seq<Line>) {
    forall p, q :: 0 <= p < q < |lines| ==> PairBefore(lines[p], lines[q])
  }

  /** Each line is the one its pair produces. */
  predicate Genuine(ps: seq<Particle>, lines: seq<Line>, s: Scene, hypot: Hypot)
    requires Radii(s)
  {
    forall p :: 0 <= p < |lines| ==>
      lines[p].from < lines[p].to < |ps| &&
      PairLines(ps, lines[p].from, lines[p].to, s, hypot) == [lines[p]]
  }

  predicate Drawn(lines: seq<Line>, i: nat, j: nat) {
    exists p :: 0 <= p < |lines| && lines[p].from == i && lines[p].to == j
  }

  lemma AscendingAppend(a: seq<Line>, b: seq<Line>)
    requires Ascending(a) && Ascending(b)
    requires forall p, q :: 0 <= p < |a| && 0 <= q < |b| ==> PairBefore(a[p], b[q])
    ensures Ascending(a + b)
  {
    forall p, q | 0 <= p < q < |a + b|
      ensures PairBefore((a + b)[p], (a + b)[q])
    {
      if q < |a| {
        assert (a + b)[p] == a[p] && (a + b)[q] == a[q];
      } else if p >= |a| {
        assert (a + b)[p] == b[p - |a|] && (a + b)[q] == b[q - |a|];
      } else {
        assert (a + b)[p] == a[p] && (a + b)[q] == b[q - |a|];
      }
    }
  }

  lemma GenuineAppend(ps: seq<Particle>, a: seq<Line>, b: seq<Line>, s: Scene, hypot: Hypot)
    requires Radii(s) && Genuine(ps, a, s, hypot) && Genuine(ps, b, s, hypot)
    ensures Genuine(ps, a + b, s, hypot)
  {
    forall p | 0 <= p < |a + b|
      ensures (a + b)[p].from < (a + b)[p].to < |ps|
      ensures PairLines(ps, (a + b)[p].from, (a + b)[p].to, s, hypot) == [(a + b)[p]]
    {
      if p < |a| {
        assert (a + b)[p] == a[p];
      } else {
        assert (a + b)[p] == b[p - |a|];
      }
    }
  }

  lemma DrawnAppend(a: seq<Line>, b: seq<Line>, i: nat, j: nat)
    requires Drawn(a, i, j) || Drawn(b, i, j)
    ensures Drawn(a + b, i, j)
  {
    if Drawn(a, i, j) {
      var p :| 0 <= p < |a| && a[p].from == i && a[p].to == j;
      assert (a + b)[p] == a[p];
    } else {
      var p :| 0 <= p < |b| && b[p].from == i && b[p].to == j;
      assert (a + b)[|a| + p] == b[p];
    }
  }

  /** All lines of a sequence join `from` with partners in [lo, hi). */
  predicate RowRange(lines: seq<Line>, from: nat, lo: nat, hi: nat) {
    forall p :: 0 <= p < |lines| ==> lines[p].from == from && lo <= lines[p].to < hi
  }

  /** Appending the next pair of a row keeps the row in drawing order. */
  lemma RowAppendAscending(prev: seq<Line>, last: seq<Line>, i: nat, lo: nat, j: nat)
    requires Ascending(prev) && Ascending(last)
    requires RowRange(prev, i, lo, j) && RowRange(last, i, j, j + 1)
    ensures Ascending(prev + last)
  {
    forall p, q | 0 <= p < |prev| && 0 <= q < |last|
      ensures PairBefore(prev[p], last[q])
    {
      assert prev[p].to < j <= last[q].to;
    }
    AscendingAppend(prev, last);
  }

  /** Appending row i after lines that start before i keeps drawing order. */
  lemma BelowAppendAscending(prev: seq<Line>, row: seq<Line>, i: nat, lo: nat, hi: nat)
    requires Ascending(prev) && Ascending(row)
    requires FromBelow(prev, i) && RowRange(row, i, lo, hi)
    ensures Ascending(prev + row)
  {
    forall p, q | 0 <= p < |prev| && 0 <= q < |row|
      ensures PairBefore(prev[p], row[q])
    {
      assert prev[p].from < i == row[q].from;
    }
    AscendingAppend(prev, row);
  }

  lemma PairLinesSpec(ps: seq<Particle>, i: nat, j: nat, s: Scene, hypot: Hypot)
    requires i < j < |ps| && Radii(s)
    ensures var pair := PairLines(ps, i, j, s, hypot);
            && Ascending(pair) && Genuine(ps, pair, s, hypot) && RowRange(pair, i, j, j + 1)
            && (pair != [] ==> Drawn(pair, i, j))
  {
    var pair := PairLines(ps, i, j, s, hypot);
    PairLineBounds(ps, i, j, s, hypot);
    if pair != [] {
      assert pair == [pair[0]];
      assert pair[0] in pair;
    }
  }

  /** One more pass of the inner loop appends the lines of pair (i, j). */
  lemma RowLinesNext(ps: seq<Particle>, i: nat, j: nat, s: Scene, hypot: Hypot)
    requires i < j < |ps| && Radii(s)
    ensures RowLines(ps, i, j + 1, s, hypot) == RowLines(ps, i, j, s, hypot) + PairLine(ps[i], ps[j], i, j, s, hypot)
  {
  }

  /** One more pass of the outer loop appends row i. */
  lemma LinesBeforeNext(ps: seq<Particle>, i: nat, s: Scene, hypot: Hypot)
    requires i < |ps| && Radii(s)
    ensures LinesBefore(ps, i + 1, s, hypot) == LinesBefore(ps, i, s, hypot) + RowLines(ps, i, |ps|, s, hypot)
  {
  }

  lemma {:induction false} RowLinesRange(ps: seq<Particle>, i: nat, j: nat, s: Scene, hypot: Hypot)
    requires i < |ps| && j <= |ps| && Radii(s)
    ensures RowRange(RowLines(ps, i, j, s, hypot), i, i + 1, j)
    decreases j
  {
    if j > i + 1 {
      var prev := RowLines(ps, i, j - 1, s, hypot);
      var last := PairLines(ps, i, j - 1, s, hypot);
      RowLinesRange(ps, i, j - 1, s, hypot);
      PairLinesSpec(ps, i, j - 1, s, hypot);
      var row := prev + last;
      forall p | 0 <= p < |row|
        ensures row[p].from == i && i + 1 <= row[p].to < j
      {
        if p < |prev| { assert row[p] == prev[p]; } else { assert row[p] == last[p - |prev|]; }
      }
    }
  }

  lemma {:induction false} RowLinesAscending(ps: seq<Particle>, i: nat, j: nat, s: Scene, hypot: Hypot)
    requires i < |ps| && j <= |ps| && Radii(s)
    ensures Ascending(RowLines(ps, i, j, s, hypot))
    decreases j
  {
    if j > i + 1 {
      var prev := RowLines(ps, i, j - 1, s, hypot);
      var last := PairLines(ps, i, j - 1, s, hypot);
      RowLinesAscending(ps, i, j - 1, s, hypot);
      RowLinesRange(ps, i, j - 1, s, hypot);
      PairLinesSpec(ps, i, j - 1, s, hypot);
      RowAppendAscending(prev, last, i, i + 1, j - 1);
    }
  }

  lemma {:induction false} RowLinesGenuine(ps: seq<Particle>, i: nat, j: nat, s: Scene, hypot: Hypot)
    requires i < |ps| && j <= |ps| && Radii(s)
    ensures Genuine(ps, RowLines(ps, i, j, s, hypot), s, hypot)
    decreases j
  {
    if j > i + 1 {
      RowLinesGenuine(ps, i, j - 1, s, hypot);
      PairLinesSpec(ps, i, j - 1, s, hypot);
      GenuineAppend(ps, RowLines(ps, i, j - 1, s, hypot), PairLines(ps, i, j - 1, s, hypot), s, hypot);
    }
  }

  lemma {:induction false} RowLinesDrawn(ps: seq<Particle>, i: nat, j: nat, s: Scene, hypot: Hypot)
    requires i < |ps| && j <= |ps| && Radii(s)
    ensures forall k :: i < k < j && PairLines(ps, i, k, s, hypot) != [] ==> Drawn(RowLines(ps, i, j, s, hypot), i, k)
    decreases j
  {
    if j > i + 1 {
      var prev := RowLines(ps, i, j - 1, s, hypot);
      var last := PairLines(ps, i, j - 1, s, hypot);
      RowLinesDrawn(ps, i, j - 1, s, hypot);
      PairLinesSpec(ps, i, j - 1, s, hypot);
      forall k | i < k < j && PairLines(ps, i, k, s, hypot) != []
        ensures Drawn(prev + last, i, k)
      {
        if k < j - 1 {
          assert Drawn(prev, i, k);
        } else {
          assert Drawn(last, i, k);
        }
        DrawnAppend(prev, last, i, k);
      }
    }
  }

  /** Every line starts at a node before `bound`. */
  predicate FromBelow(lines: seq<Line>, bound: nat) {
    forall p :: 0 <= p < |lines| ==> lines[p].from < bound
  }

  lemma {:induction false} LinesBeforeRows(ps: seq<Particle>, i: nat, s: Scene, hypot: Hypot)
    requires i <= |ps| && Radii(s)
    ensures FromBelow(LinesBefore(ps, i, s, hypot), i)
    decreases i
  {
    if i > 0 {
      var prev := LinesBefore(ps, i - 1, s, hypot);
      var row := RowLines(ps, i - 1, |ps|, s, hypot);
      LinesBeforeRows(ps, i - 1, s, hypot);
      RowLinesRange(ps, i - 1, |ps|, s, hypot);
      assert FromBelow(prev, i - 1);
      var lines := prev + row;
      forall p | 0 <= p < |lines|
        ensures lines[p].from < i
      {
        if p < |prev| { assert lines[p] == prev[p]; } else { assert lines[p] == row[p - |prev|]; }
      }
    }
  }

  lemma {:induction false} LinesBeforeGenuine(ps: seq<Particle>, i: nat, s: Scene, hypot: Hypot)
    requires i <= |ps| && Radii(s)
    ensures Genuine(ps, LinesBefore(ps, i, s, hypot), s, hypot)
    decreases i
  {
    if i > 0 {
      LinesBeforeGenuine(ps, i - 1, s, hypot);
      RowLinesGenuine(ps, i - 1, |ps|, s, hypot);
      GenuineAppend(ps, LinesBefore(ps, i - 1, s, hypot), RowLines(ps, i - 1, |ps|, s, hypot), s, hypot);
    }
  }

  lemma {:induction false} LinesBeforeOrdered(ps: seq<Particle>, i: nat, s: Scene, hypot: Hypot)
    requires i <= |ps| && Radii(s)
    ensures Ascending(LinesBefore(ps, i, s, hypot))
    decreases i
  {
    if i > 0 {
      var prev := LinesBefore(ps, i - 1, s, hypot);
      var row := RowLines(ps, i - 1, |ps|, s, hypot);
      LinesBeforeOrdered(ps, i - 1, s, hypot);
      LinesBeforeRows(ps, i - 1, s, hypot);
      RowLinesAscending(ps, i - 1, |ps|, s, hypot);
      RowLinesRange(ps, i - 1, |ps|, s, hypot);
      BelowAppendAscending(prev, row, i - 1, i, |ps|);
    }
  }

  lemma {:induction false} LinesBeforeComplete(ps: seq<Particle>, i: nat, s: Scene, hypot: Hypot)
    requires i <= |ps| && Radii(s)
    ensures forall a, b :: 0 <= a < i && a < b < |ps| && PairLines(ps, a, b, s, hypot) != []
              ==> Drawn(LinesBefore(ps, i, s, hypot), a, b)
    decreases i
  {
    if i > 0 {
      var prev := LinesBefore(ps, i - 1, s, hypot);
      var row := RowLines(ps, i - 1, |ps|, s, hypot);
      LinesBeforeComplete(ps, i - 1, s, hypot);
      RowLinesDrawn(ps, i - 1, |ps|, s, hypot);
      forall a, b | 0 <= a < i && a < b < |ps| && PairLines(ps, a, b, s, hypot) != []
        ensures Drawn(prev + row, a, b)
      {
        if a < i - 1 {
          assert Drawn(prev, a, b);
        } else {
          assert Drawn(row, a, b);
        }
        DrawnAppend(prev, row, a, b);
      }
    }
  }

  /** The lines of a frame are exactly the drawable pairs i < j, each drawn
      once, in loop order: every line is the one its pair produces, pairs come
      in ascending order (so none twice), and every pair that produces a line
      is drawn. */
  lemma LinksSpec(ps: seq<Particle>, s: Scene, hypot: Hypot)
    requires Radii(s)
    ensures var lines := Links(ps, s, hypot);
            && Genuine(ps, lines, s, hypot)
            && Ascending(lines)
            && (forall p, q :: 0 <= p < q < |lines| ==> (lines[p].from, lines[p].to) != (lines[q].from, lines[q].to))
            && (forall i, j :: 0 <= i < j < |ps| ==> (Drawn(lines, i, j) <==> PairLines(ps, i, j, s, hypot) != []))
  {
    var lines := Links(ps, s, hypot);
    LinesBeforeOrdered(ps, |ps|, s, hypot);
    LinesBeforeGenuine(ps, |ps|, s, hypot);
    LinesBeforeComplete(ps, |ps|, s, hypot);
    forall i, j | 0 <= i < j < |ps| && Drawn(lines, i, j)
      ensures PairLines(ps, i, j, s, hypot) != []
    {
      var p :| 0 <= p < |lines| && lines[p].from == i && lines[p].to == j;
    }
  }

  // ---- nodes ----

  /** How strongly a node is lit by the pointer: 1 - d/R inside the
      interaction radius of the active pointer, 0 otherwise. */
  function Highlight(p: Particle, s: Scene, hypot: Hypot): real
    requires s.interactionRadius > 0.0
  {
    if s.pointer.active then
      var mouseDistance := PointerDistance(s.pointer, p.x, p.y, hypot);
      if Below(mouseDistance, s.interactionRadius) then 1.0 - mouseDistance.value / s.interactionRadius
      else 0.0
    else 0.0
  }

  /** The circle drawn for a node: grown by up to 1.3 and brightened by up to
      0.42 by the highlight. */
  function NodeDot(p: Particle, s: Scene, hypot: Hypot): Dot
    requires s.interactionRadius > 0.0
  {
    var highlight := Highlight(p, s, hypot);
    Dot(p.x, p.y, p.size + highlight * 1.3, 0.52 + highlight * 0.42)
  }

  /** Every circle a frame draws, one per node in order. */
  function Dots(ps: seq<Particle>, s: Scene, hypot: Hypot): (dots: seq<Dot>)
    requires s.interactionRadius > 0.0
    ensures |dots| == |ps|
    ensures forall k :: 0 <= k < |ps| ==> dots[k] == NodeDot(ps[k], s, hypot)
    decreases |ps|
  {
    if ps == [] then [] else [NodeDot(ps[0], s, hypot)] + Dots(ps[1..], s, hypot)
  }

  /** The highlight lies in [0, 1] and is 0 when the pointer is inactive or
      out of radius; so a node's circle has radius in [size, size + 1.3] and
      opacity in [0.52, 0.94]. */
  lemma NodeDotBounds(p: Particle, s: Scene, hypot: Hypot)
    requires s.interactionRadius > 0.0 && IsDistance(hypot)
    ensures 0.0 <= Highlight(p, s, hypot) <= 1.0
    ensures !s.pointer.active || !Below(PointerDistance(s.pointer, p.x, p.y, hypot), s.interactionRadius)
            ==> Highlight(p, s, hypot) == 0.0
    ensures var dot := NodeDot(p, s, hypot);
            && p.size <= dot.radius <= p.size + 1.3
            && 0.52 <= dot.alpha <= 0.94
            && dot.x == p.x && dot.y == p.y
  {
    var d := PointerDistance(s.pointer, p.x, p.y, hypot);
    if s.pointer.active && Below(d, s.interactionRadius) {
      assert d.value >= 0.0;
      Fraction(d.value, s.interactionRadius);
    }
  }
}
