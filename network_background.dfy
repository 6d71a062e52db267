/** The state the animated network background keeps between frames: the
    mutable node records, the pointer record, the viewport and radii set by
    `resize`, and the browser's queue of requested animation frames. The
    arithmetic each step performs is specified in ParticleMath. */
module NetworkBackground {
  import opened ParticleMath

  /** One node record; `updateNodePositions` rewrites its fields in place. */
  class Node {
    var x: real
    var y: real
    var vx: real
    var vy: real
    var size: real

    function State(): Particle
      reads this
    {
      Particle(x, y, vx, vy, size)
    }

    constructor (p: Particle)
      ensures State() == p
    {
      x, y, vx, vy, size := p.x, p.y, p.vx, p.vy, p.size;
    }

    /** The body of the update loop for one node: integrate and reflect off
        each edge, then let the pointer push the node away. */
    method Move(s: Scene, hypot: Hypot)
      requires s.interactionRadius > 0.0
      modifies this
      ensures State() == StepParticle(old(State()), s, hypot)
    {
      Bounce(s.width, s.height);
      Repel(s, hypot);
    }

    /** Integrate one frame of velocity; an axis at or past an edge has its
        velocity reversed and its coordinate clamped to the viewport. */
    method Bounce(width: nat, height: nat)
      modifies this
      ensures State() == ParticleMath.Bounce(old(State()), width, height)
    {
      x := x + vx;
      y := y + vy;
      if x <= 0.0 || x >= width as real {
        vx := vx * -1.0;
        x := Max(0.0, Min(width as real, x));
      }
      if y <= 0.0 || y >= height as real {
        vy := vy * -1.0;
        y := Max(0.0, Min(height as real, y));
      }
    }

    /** Push the node away from an active pointer within the interaction radius. */
    method Repel(s: Scene, hypot: Hypot)
      requires s.interactionRadius > 0.0
      modifies this
      ensures State() == ParticleMath.Repel(old(State()), s, hypot)
    {
      ghost var before := State();
      if s.pointer.active {
        // With NaN pointer coordinates the distance is NaN and neither comparison holds.
        if s.pointer.x.Finite? && s.pointer.y.Finite? {
          var dx := x - s.pointer.x.value;
          var dy := y - s.pointer.y.value;
          var distance := hypot(dx, dy);
          if distance < s.interactionRadius && distance > 0.001 {
            var force := (s.interactionRadius - distance) / s.interactionRadius;
            var intensity := force * force * 1.8;
            x := x + dx / distance * intensity;
            y := y + dy / distance * intensity;
            RepelShift(before, s, hypot, dx, dy, distance, intensity);
            return;
          }
        }
      }
      assert !Repels(before.x, before.y, s, hypot);
    }
  }

  /** The pointer record: NaN coordinates until the first pointer event. */
  class Pointer {
    var x: JsNumber
    var y: JsNumber
    var active: bool

    function State(): PointerState
      reads this
    {
      PointerState(x, y, active)
    }

    constructor ()
      ensures State() == PointerState(NaN, NaN, false)
    {
      x, y, active := NaN, NaN, false;
    }
  }

  /** The closure state of the background effect. `requestedFrames` stands
      for the browser's queue of animation-frame callbacks this component has
      requested and not cancelled; the browser hands out positive ids. */
  class Background {
    var animationFrameId: nat
    var requestedFrames: set<nat>
    var width: nat
    var height: nat
    var dpr: real
    var canvasWidth: int
    var canvasHeight: int
    var linkDistance: real
    var interactionRadius: real
    var nodes: seq<Node>
    const mouse: Pointer
    const hypot: Hypot

    /** The node records as values, in order. */
    function Particles(): seq<Particle>
      reads this, nodes
    {
      seq(|nodes|, k reads this, nodes requires 0 <= k < |nodes| => nodes[k].State())
    }

    /** What a frame reads besides the nodes. */
    function Scene(): Scene
      reads this, mouse
    {
      ParticleMath.Scene(width, height, linkDistance, interactionRadius, mouse.State())
    }

    /** The radii are positive and no node record appears twice. */
    ghost predicate Shaped()
      reads this
    {
      && linkDistance > 0.0 && interactionRadius > 0.0
      && forall a, b :: 0 <= a < b < |nodes| ==> nodes[a] != nodes[b]
    }

    /** At most one frame is ever queued, and it is the one whose id is kept:
        the id is 0 exactly when nothing is queued. */
    ghost predicate FramesConsistent()
      reads this
    {
      requestedFrames == if animationFrameId == 0 then {} else {animationFrameId}
    }

    ghost predicate Valid()
      reads this
    {
      Shaped() && FramesConsistent()
    }

    /** Mounting the effect: the initial closure values, then `resize()` and
        `animate()`. The window size, pixel ratio and random draws are those
        the browser supplies; `frameId` is what requestAnimationFrame returns. */
    constructor Mount(innerWidth: nat, innerHeight: nat, devicePixelRatio: real,
                      draws: seq<real>, hypot: Hypot, frameId: nat)
      requires 5 * NodeCountForViewport(innerWidth, innerHeight) <= |draws| && frameId > 0
      ensures Valid()
      ensures width == innerWidth && height == innerHeight
      ensures |nodes| == NodeCountForViewport(innerWidth, innerHeight)
      ensures animationFrameId == frameId && requestedFrames == {frameId}
      ensures mouse.State() == PointerState(NaN, NaN, false)
    {
      animationFrameId := 0;
      requestedFrames := {};
      width := 0;
      height := 0;
      dpr := 1.0;
      canvasWidth := 300;
      canvasHeight := 150;
      linkDistance := 150.0;
      interactionRadius := 220.0;
      nodes := [];
      mouse := new Pointer();
      this.hypot := hypot;
      new;
      Resize(innerWidth, innerHeight, devicePixelRatio, draws);
      Animate(frameId);
    }

    /** `resize`: read the window size, size the canvas backing store, pick the
        breakpoint radii and replace the nodes with a fresh set spawned from
        `draws`, five values per node. */
    method Resize(innerWidth: nat, innerHeight: nat, devicePixelRatio: real, draws: seq<real>)
      requires 5 * NodeCountForViewport(innerWidth, innerHeight) <= |draws|
      modifies this`width, this`height, this`dpr, this`canvasWidth, this`canvasHeight,
               this`linkDistance, this`interactionRadius, this`nodes
      ensures width == innerWidth && height == innerHeight
      ensures dpr == PixelRatio(devicePixelRatio)
      ensures canvasWidth == BackingSize(width, dpr) && canvasHeight == BackingSize(height, dpr)
      ensures linkDistance == LinkDistanceFor(width) && interactionRadius == InteractionRadiusFor(width)
      ensures |nodes| == NodeCountForViewport(width, height)
      ensures forall k :: 0 <= k < |nodes| ==> fresh(nodes[k])
      ensures forall k :: 0 <= k < |nodes| ==> nodes[k].State() == Spawn(draws, k, width, height)
      ensures Shaped()
    {
      width := innerWidth;
      height := innerHeight;
      dpr := PixelRatio(devicePixelRatio);
      canvasWidth := BackingSize(width, dpr);
      canvasHeight := BackingSize(height, dpr);
      linkDistance := LinkDistanceFor(width);
      interactionRadius := InteractionRadiusFor(width);
      var count := NodeCountForViewport(width, height);
      nodes := CreateNodes(count, width, height, draws);
    }

    /** `createNodes`: `count` fresh node records, node k spawned from draws
        5k to 5k + 4. */
    static method CreateNodes(count: nat, width: nat, height: nat, draws: seq<real>) returns (created: seq<Node>)
      requires 5 * count <= |draws|
      ensures |created| == count
      ensures forall k :: 0 <= k < count ==> fresh(created[k])
      ensures forall k :: 0 <= k < count ==> created[k].State() == Spawn(draws, k, width, height)
      ensures forall a, b :: 0 <= a < b < count ==> created[a] != created[b]
    {
      created := [];
      while |created| < count
        invariant |created| <= count
        invariant forall k :: 0 <= k < |created| ==> fresh(created[k])
        invariant forall k :: 0 <= k < |created| ==> created[k].State() == Spawn(draws, k, width, height)
        invariant forall a, b :: 0 <= a < b < |created| ==> created[a] != created[b]
      {
        var node := new Node(Spawn(draws, |created|, width, height));
        created := created + [node];
      }
    }

    /** `updateNodePositions`: every node takes one step of motion. */
    method UpdateNodePositions()
      requires Shaped()
      modifies nodes
      ensures Particles() == Advance(old(Particles()), Scene(), hypot)
    {
      ghost var before := Particles();
      var s := Scene();
      var i := 0;
      while i < |nodes|
        invariant 0 <= i <= |nodes|
        invariant forall k :: 0 <= k < i ==> nodes[k].State() == StepParticle(before[k], s, hypot)
        invariant forall k :: i <= k < |nodes| ==> nodes[k].State() == before[k]
      {
        nodes[i].Move(s, hypot);
        i := i + 1;
      }
      assert Scene() == s;
      assert forall k :: 0 <= k < |nodes| ==> Particles()[k] == Advance(before, s, hypot)[k];
    }

    /** `drawConnections`: the lines stroked, in drawing order. */
    method DrawConnections() returns (lines: seq<Line>)
      requires linkDistance > 0.0 && interactionRadius > 0.0
      ensures lines == Links(Particles(), Scene(), hypot)
    {
      ghost var ps := Particles();
      ghost var s := Scene();
      assert |ps| == |nodes|;
      lines := [];
      var i := 0;
      while i < |nodes|
        invariant 0 <= i <= |nodes|
        invariant lines == LinesBefore(ps, i, s, hypot)
      {
        var row := DrawRow(i);
        LinesBeforeNext(ps, i, s, hypot);
        lines := lines + row;
        i := i + 1;
      }
    }

    /** The inner loop of `drawConnections` for node i: its lines to every
        later node, in order. */
    method DrawRow(i: nat) returns (row: seq<Line>)
      requires linkDistance > 0.0 && interactionRadius > 0.0 && i < |nodes|
      ensures row == RowLines(Particles(), i, |nodes|, Scene(), hypot)
    {
      ghost var ps := Particles();
      var s := Scene();
      var a := nodes[i].State();
      assert a == ps[i];
      row := [];
      var j := i + 1;
      while j < |nodes|
        invariant i + 1 <= j <= |nodes|
        invariant row == RowLines(ps, i, j, s, hypot)
      {
        var b := nodes[j].State();
        assert b == ps[j];
        var stroke := PairStroke(a, b, i, j, s);
        RowLinesNext(ps, i, j, s, hypot);
        row := row + stroke;
        j := j + 1;
      }
    }

    /** One pass of the inner loop of `drawConnections`: the line stroked
        between nodes i and j, or none when the pass continues early. */
    method PairStroke(a: Particle, b: Particle, i: nat, j: nat, s: Scene) returns (stroke: seq<Line>)
      requires Radii(s)
      ensures stroke == PairLine(a, b, i, j, s, hypot)
    {
      stroke := [];
      var dx := a.x - b.x;
      var dy := a.y - b.y;
      var distance := hypot(dx, dy);
      if distance > s.linkDistance {
        return;
      }
      var baseAlpha := (1.0 - distance / s.linkDistance) * 0.42;
      var mouseBoost := 0.0;
      if s.pointer.active {
        var nearest := JsMin(PointerDistance(s.pointer, a.x, a.y, hypot),
                             PointerDistance(s.pointer, b.x, b.y, hypot));
        if Below(nearest, s.interactionRadius) {
          mouseBoost := (1.0 - nearest.value / s.interactionRadius) * 0.45;
        }
      }
      var alpha := Min(baseAlpha + mouseBoost, 0.78);
      if alpha <= 0.02 {
        return;
      }
      stroke := [Line(i, j, alpha, 0.6 + mouseBoost * 1.4)];
    }

    /** `drawNodes`: the circles filled, one per node in order. */
    method DrawNodes() returns (dots: seq<Dot>)
      requires linkDistance > 0.0 && interactionRadius > 0.0
      ensures dots == Dots(Particles(), Scene(), hypot)
    {
      ghost var ps := Particles();
      var s := Scene();
      dots := [];
      var i := 0;
      while i < |nodes|
        invariant 0 <= i <= |nodes|
        invariant |dots| == i
        invariant forall k :: 0 <= k < i ==> dots[k] == NodeDot(ps[k], s, hypot)
      {
        var node := nodes[i].State();
        var highlight := 0.0;
        if s.pointer.active {
          var mouseDistance := PointerDistance(s.pointer, node.x, node.y, hypot);
          if Below(mouseDistance, s.interactionRadius) {
            highlight := 1.0 - mouseDistance.value / s.interactionRadius;
          }
        }
        dots := dots + [Dot(node.x, node.y, node.size + highlight * 1.3, 0.52 + highlight * 0.42)];
        i := i + 1;
      }
    }

    /** `animate`: draw the background, move the nodes, draw the links and the
        nodes, and queue the next frame, whose id the browser returns. */
    method Animate(frameId: nat)
      requires Shaped() && frameId > 0
      modifies this`animationFrameId, this`requestedFrames, nodes
      ensures Shaped()
      ensures Particles() == Advance(old(Particles()), Scene(), hypot)
      ensures animationFrameId == frameId && requestedFrames == old(requestedFrames) + {frameId}
    {
      UpdateNodePositions();
      // The strokes and fills of this frame, as DrawConnections and DrawNodes state them.
      var lines := DrawConnections();
      var dots := DrawNodes();
      animationFrameId := frameId;
      requestedFrames := requestedFrames + {frameId};
    }

    /** The browser runs the queued frame `firedId`: it leaves the queue and
        `animate` runs, queueing `frameId`. */
    method OnAnimationFrame(firedId: nat, frameId: nat)
      requires Valid() && firedId in requestedFrames && frameId > 0
      modifies this`animationFrameId, this`requestedFrames, nodes
      ensures Valid()
      ensures Particles() == Advance(old(Particles()), Scene(), hypot)
      ensures animationFrameId == frameId && requestedFrames == {frameId}
    {
      requestedFrames := requestedFrames - {firedId};
      Animate(frameId);
    }

    /** `onPointerMove`, for both pointermove and pointerdown. */
    method OnPointerMove(clientX: real, clientY: real)
      modifies mouse
      ensures mouse.State() == PointerState(Finite(clientX), Finite(clientY), true)
    {
      mouse.x := Finite(clientX);
      mouse.y := Finite(clientY);
      mouse.active := true;
    }

    /** `onPointerLeave`, for window blur and document mouseleave: the
        coordinates are kept, only the active flag drops. */
    method OnPointerLeave()
      modifies mouse
      ensures mouse.State() == old(mouse.State()).(active := false)
    {
      mouse.active := false;
    }

    /** `onVisibilityChange`: hiding the page cancels the queued frame;
        showing it starts the loop again only if no frame is queued, so the
        page never runs two loops. */
    method OnVisibilityChange(hidden: bool, frameId: nat)
      requires Valid() && frameId > 0
      modifies this`animationFrameId, this`requestedFrames, nodes
      ensures Valid()
      ensures hidden ==> animationFrameId == 0 && requestedFrames == {}
      ensures hidden || old(animationFrameId) != 0 ==> Particles() == old(Particles())
      ensures !hidden && old(animationFrameId) != 0 ==>
                animationFrameId == old(animationFrameId) && requestedFrames == old(requestedFrames)
      ensures !hidden && old(animationFrameId) == 0 ==>
                && animationFrameId == frameId && requestedFrames == {frameId}
                && Particles() == Advance(old(Particles()), Scene(), hypot)
    {
      if hidden {
        if animationFrameId != 0 {
          requestedFrames := requestedFrames - {animationFrameId};
          animationFrameId := 0;
        }
        return;
      }
      if animationFrameId == 0 {
        Animate(frameId);
      }
    }

    /** The effect's cleanup: cancel the queued frame, if any. The listeners
        it removes are not modelled. */
    method Unmount()
      requires Valid()
      modifies this`requestedFrames
      ensures requestedFrames == {}
    {
      if animationFrameId != 0 {
        requestedFrames := requestedFrames - {animationFrameId};
      }
    }
  }
}
