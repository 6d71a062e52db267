# Hero typewriter and interactive network background

This project models the two pieces of behaviour in the portfolio site's
components that carry logic, and proves properties about them.

- **The rotating headline of the hero section** (`components/Hero.tsx`) is
  a typewriter over three fixed role titles. Each timeout callback shows one
  more character of the current title, or one less while deleting. It flips
  between typing and deleting, moves on to the next title, and the effect
  picks the delay of the next timeout from the new state.
  - Module `Typewriter` (`typewriter.dfy`) holds the state machine as
    functions: `Delay`, `Step`, `Run` and `Texts` over a phrase list.
  - Lemmas cover the reachable-state invariant, the exact cycle length and
    periodicity, and which delays can ever be scheduled.
  - Class `HeadlineRotator` is the mounted component. It holds the three
    state cells and the pending timeout, with a `Tick` method for the
    callback.
- **The animated network background**
  (`components/InteractiveNetworkBackground.tsx`) is a canvas effect.
  `resize` picks a node count, two radii and a pixel ratio for the viewport,
  and spawns nodes at random. Every animation frame moves each node, bouncing
  it off the viewport edges and pushing it away from the pointer. The frame
  then strokes a line between every pair of close nodes and fills a circle
  per node, both brightened near the pointer. Pointer and visibility events
  update a pointer record and the queued frame.
  - Module `ParticleMath` (`particle_math.dfy`) holds the arithmetic as
    functions over values:
    - node count, radii and pixel ratio;
    - spawning, bounce, repulsion and its intensity;
    - link opacity and width, the lines a frame draws (`Links`), and the
      node circles (`Dots`).
  - Module `NetworkBackground` (`network_background.dfy`) holds the effect's
    closure state as classes:
    - `Node`, a mutable node record;
    - `Pointer`, the mouse record;
    - `Background`, with the viewport, radii, node array, frame id and
      browser frame queue.
  - `Resize`, `UpdateNodePositions`, `DrawConnections`, `DrawNodes`,
    `Animate` and the node methods are proved against the `ParticleMath`
    functions that specify them. The pointer handlers, `Unmount` and the
    frame bookkeeping are stated over the fields and the pointer record.

Modelling choices:

- Numbers are reals. `Math.hypot` is a function parameter `hypot`. Where a
  bound needs it, lemmas assume only that it is non-negative (`IsDistance`),
  or a Euclidean norm at one point.
- The pointer coordinates start as NaN, so they are modelled as `JsNumber`
  (`NaN | Finite`). A comparison with NaN is false, so no node is pushed or
  highlighted before the first pointer event.
- `Math.random()` becomes a sequence `draws` of the values it returns, five
  per node.
- `requestAnimationFrame` returns the id passed in as `frameId`.
  `requestedFrames` is the set of frame callbacks the component has queued
  and not cancelled.
- JavaScript's `slice(0, end)` is modelled exactly (`SliceTo`): a negative
  end counts from the back.
- Two behaviours of the code are worth stating outright:
  - The code clamps nodes only in the bounce. The pointer push that follows
    is not clamped, so a node can leave the viewport in one frame
    (`RepulsionCanLeaveViewport`).
  - The effect computes 1200 ms and 300 ms delays (`components/Hero.tsx`
    lines 50-56) but never schedules them (see Findings).

## Model

| member | source | states |
|---|---|---|
| Typewriter.RotatingHeadlinesWellFormed | components/Hero.tsx:7-11 | the headline list has three non-empty titles, of 20, 20 and 35 characters |
| Typewriter.SliceTo | components/Hero.tsx:60-67 | `slice(0, end)` returns a prefix of the string |
| Typewriter.Delay | components/Hero.tsx:47-56 | the delay is 1200 exactly when typing with the whole phrase shown, 300 exactly when deleting with nothing shown, and otherwise 90 while typing and 45 while deleting |
| Typewriter.Next | components/Hero.tsx:58-75 | one tick of the selected revision, as written or corrected; the index stays in range |
| Typewriter.Run | components/Hero.tsx:58-75 | the state after n ticks, each one timeout callback; the index stays in range |
| Typewriter.Inv | components/Hero.tsx:58-74 | the reachable-state invariant: index in range, text a prefix of the current phrase, typing never shows the whole phrase and deleting never shows the empty text |
| Typewriter.Step | components/Hero.tsx:58-74 | a tick of the callback as written keeps the index in range and shows a prefix of the current phrase |
| Typewriter.InitialInv | components/Hero.tsx:18-20 | the mount state (0, "", typing) satisfies the invariant: index in range, text a prefix of the phrase, typing never shows the whole phrase, deleting never shows the empty text |
| Typewriter.StepKeepsInv | components/Hero.tsx:58-74 | a tick preserves that invariant and changes the text length by exactly +1 while typing and -1 while deleting |
| Typewriter.NoTerminalState | components/Hero.tsx:58-75 | no reachable state is left unchanged by a tick |
| Typewriter.RunKeepsInv | components/Hero.tsx:58-74 | every state reached by any number of ticks satisfies the invariant |
| Typewriter.ReachableDelay | components/Hero.tsx:48-56 | in every reachable state the delay is 90 while typing and 45 while deleting; 1200 and 300 never occur |
| Typewriter.TypingPhase | components/Hero.tsx:59-65 | typing from a prefix of length k reaches the whole phrase, already in deleting mode, after \|phrase\| - k ticks |
| Typewriter.DeletingPhase | components/Hero.tsx:66-73 | deleting from a prefix of length k >= 1 reaches the empty text of the next phrase, in typing mode, after k ticks |
| Typewriter.PhraseCycle | components/Hero.tsx:58-75 | from the empty text of phrase i, exactly 2·\|phrase i\| ticks reach the empty text of phrase (i + 1) mod n |
| Typewriter.PrefixCycles | components/Hero.tsx:58-75 | after typing and deleting the first m phrases the headline shows the empty text of phrase m (of phrase 0 when m = n) |
| Typewriter.FullCycle | components/Hero.tsx:58-75 | the states from mount are periodic: the sum of 2·\|phrase\| over all phrases returns to the mount state, from any point |
| Typewriter.RotatingHeadlinesPeriod | components/Hero.tsx:7-11 | for the site's three titles the period is 150 ticks |
| Typewriter.AsWrittenTrace | components/Hero.tsx:58-75 | for the phrases "A" and "BC" the shown texts are "", "A", "", "B", "BC", "B", "", "A": no text is shown twice in a row |
| Typewriter.PausingStep | components/Hero.tsx:47-56 | the corrected callback keeps the index in range |
| Typewriter.PausingStepKeepsInv | components/Hero.tsx:47-56 | the corrected callback keeps the text a prefix of the current phrase and grows it by at most one character |
| Typewriter.PausingNoTerminalState | components/Hero.tsx:58-78 | no state the corrected callback reaches is left unchanged by a tick, so the effect always runs again |
| Typewriter.PausingTypingPhase | components/Hero.tsx:59-62 | corrected: typing from a prefix of length k reaches the whole phrase, still typing, after \|phrase\| - k ticks |
| Typewriter.PausingDeletingPhase | components/Hero.tsx:66-68 | corrected: deleting from a prefix of length k reaches the empty text, still deleting, after k ticks |
| Typewriter.PausingPhraseCycle | components/Hero.tsx:47-56 | corrected: the whole phrase is shown with the 1200 ms delay, the empty text with the 300 ms delay, and the next phrase starts after 2·\|phrase\| + 2 ticks |
| Typewriter.WithPausesTrace | components/Hero.tsx:47-56 | corrected: for "A" and "BC" each whole phrase and each emptied text is shown for two ticks |
| Typewriter.HeadlineRotator.constructor | components/Hero.tsx:18-20 | mount: index 0, empty text, typing, first timeout 90 ms, invariant established |
| Typewriter.HeadlineRotator.Tick | components/Hero.tsx:58-75 | the callback updates the three state cells to the next state of the selected revision, which always differs from the old one (so the effect, keyed on all three cells, runs again), keeps the invariant, and schedules that state's delay, which is 45 or 90 ms as written |
| Typewriter.HeadlineRotator.Unmount | components/Hero.tsx:77 | the cleanup clears the pending timeout and leaves the state cells unchanged |
| ParticleMath.Density | components/InteractiveNetworkBackground.tsx:38 | nodes per square pixel: 0.00005 below width 768, 0.000065 otherwise |
| ParticleMath.RawNodeCount | components/InteractiveNetworkBackground.tsx:39 | floor(width·height·density), before clamping |
| ParticleMath.NodeCountForViewport | components/InteractiveNetworkBackground.tsx:37-41 | the count is floor(width·height·density) clamped to [30, 110], with density 0.00005 below width 768 and 0.000065 otherwise |
| ParticleMath.NodeCountMonotone | components/InteractiveNetworkBackground.tsx:37-41 | for a fixed width, a taller viewport never gets fewer nodes |
| ParticleMath.NodeCountExamples | components/InteractiveNetworkBackground.tsx:37-41 | a 375×667 viewport gets 30 nodes and a 1920×1080 viewport gets 110 |
| ParticleMath.LinkDistanceFor | components/InteractiveNetworkBackground.tsx:63 | the link distance: 105 below width 768, 155 otherwise |
| ParticleMath.InteractionRadiusFor | components/InteractiveNetworkBackground.tsx:64 | the interaction radius: 140 below width 768, 220 otherwise |
| ParticleMath.BackingSize | components/InteractiveNetworkBackground.tsx:57-58 | the canvas backing-store size floor(size·dpr) |
| ParticleMath.Uniform | components/InteractiveNetworkBackground.tsx:35 | `random(min, max)` given the value Math.random() returned: u·(max - min) + min |
| ParticleMath.Spawn | components/InteractiveNetworkBackground.tsx:43-50 | node k of a fresh set, from the draws 5k to 5k + 4 for x, y, vx, vy and size with the source's ranges (see SpawnInRange) |
| ParticleMath.PixelRatio | components/InteractiveNetworkBackground.tsx:55 | the pixel ratio never exceeds 2, is positive for a non-negative device ratio (0 reads as 1), and equals the device ratio when that lies in (0, 2] |
| ParticleMath.UniformInRange | components/InteractiveNetworkBackground.tsx:35 | `random(min, max)` of a value in [0, 1) lies in [min, max), or equals min when min = max |
| ParticleMath.SpawnInRange | components/InteractiveNetworkBackground.tsx:43-50 | a spawned node lies in the viewport, has velocity components in [-0.28, 0.28) and size in [1.1, 2.8) |
| ParticleMath.Bounce | components/InteractiveNetworkBackground.tsx:78-89 | after integrating and bouncing, the node lies inside the viewport; a velocity component is negated exactly when its integrated coordinate is at or past an edge; the coordinate is clamped to that edge, otherwise it is the integrated one |
| ParticleMath.Intensity | components/InteractiveNetworkBackground.tsx:97-98 | the push at distance d: ((R - d)/R)²·1.8 (see IntensityBounds, IntensityDecreasing) |
| ParticleMath.Repels | components/InteractiveNetworkBackground.tsx:91-96 | the push applies exactly when the pointer is active, its coordinates are numbers, and the distance lies in (0.001, R) |
| ParticleMath.IntensityBounds | components/InteractiveNetworkBackground.tsx:97-98 | inside the interaction radius the push ((R - d)/R)²·1.8 lies strictly between 0 and 1.8 |
| ParticleMath.IntensityDecreasing | components/InteractiveNetworkBackground.tsx:97-98 | the push strictly decreases as the distance grows |
| ParticleMath.Repel | components/InteractiveNetworkBackground.tsx:91-101 | repulsion leaves velocity and size unchanged, and leaves the node unchanged when the pointer is inactive, its coordinates are NaN, or the distance is at least R or at most 0.001 |
| ParticleMath.RepelMovesAway | components/InteractiveNetworkBackground.tsx:96-101 | a repelled node moves along the ray from the pointer through it: its offset from the pointer is scaled by 1 + intensity/d > 1 |
| ParticleMath.RepelDisplacement | components/InteractiveNetworkBackground.tsx:94-100 | when the distance is the Euclidean norm of the offset, a repelled node moves by exactly the intensity |
| ParticleMath.StepParticle | components/InteractiveNetworkBackground.tsx:78-101 | one frame of motion keeps the size, and the velocities are those the bounce leaves |
| ParticleMath.Advance | components/InteractiveNetworkBackground.tsx:76-104 | one frame of motion for every node, in order (see UpdateNodePositions) |
| ParticleMath.RepulsionCanLeaveViewport | components/InteractiveNetworkBackground.tsx:91-101 | a node inside the viewport next to the pointer is pushed outside it in one frame: the push is not clamped |
| ParticleMath.BaseAlpha | components/InteractiveNetworkBackground.tsx:118 | the link opacity before the pointer bonus: (1 - d/L)·0.42 (see BaseAlphaBounds, BaseAlphaDecreasing) |
| ParticleMath.MouseBoost | components/InteractiveNetworkBackground.tsx:119-129 | the pointer bonus (1 - nearest/R)·0.45 for the nearer endpoint within R of the active pointer, else 0 (see MouseBoostBounds) |
| ParticleMath.PairLine | components/InteractiveNetworkBackground.tsx:112-139 | the line between two nodes: none beyond the link distance or at opacity at most 0.02, else one line with opacity min(base + bonus, 0.78) and width 0.6 + 1.4·bonus |
| ParticleMath.PairLines | components/InteractiveNetworkBackground.tsx:112-139 | the line of pair (i, j) of a frame's nodes (see PairLineBounds) |
| ParticleMath.BaseAlphaBounds | components/InteractiveNetworkBackground.tsx:118 | for a linked pair (distance at most the link distance) the base opacity lies in [0, 0.42] |
| ParticleMath.BaseAlphaDecreasing | components/InteractiveNetworkBackground.tsx:118 | the base opacity strictly decreases with distance |
| ParticleMath.MouseBoostBounds | components/InteractiveNetworkBackground.tsx:119-129 | the pointer bonus lies in [0, 0.45] and is 0 unless the pointer is active and the nearer endpoint is within the interaction radius |
| ParticleMath.PairLineBounds | components/InteractiveNetworkBackground.tsx:112-139 | a pair yields at most one line, only within the link distance, with opacity in (0.02, 0.78] equal to min(base + bonus, 0.78) and width 0.6 + 1.4·bonus in [0.6, 1.23] |
| ParticleMath.RowLines | components/InteractiveNetworkBackground.tsx:110-140 | the lines the inner loop for node i draws for partners up to j, in loop order |
| ParticleMath.LinesBefore | components/InteractiveNetworkBackground.tsx:107-141 | the lines the first i passes of the outer loop draw, in loop order |
| ParticleMath.Links | components/InteractiveNetworkBackground.tsx:106-142 | every line a frame draws (see LinksSpec) |
| ParticleMath.RowLinesRange | components/InteractiveNetworkBackground.tsx:110-140 | the inner loop for node i draws only lines from i to partners in (i, j) |
| ParticleMath.RowLinesAscending | components/InteractiveNetworkBackground.tsx:110-140 | the inner loop draws its lines in increasing partner order |
| ParticleMath.RowLinesGenuine | components/InteractiveNetworkBackground.tsx:110-140 | every line of the inner loop is the line its pair produces |
| ParticleMath.RowLinesDrawn | components/InteractiveNetworkBackground.tsx:110-140 | every partner whose pair produces a line is drawn by the inner loop |
| ParticleMath.LinesBeforeRows | components/InteractiveNetworkBackground.tsx:107-141 | the first i passes of the outer loop draw only lines from nodes before i |
| ParticleMath.LinesBeforeGenuine | components/InteractiveNetworkBackground.tsx:107-141 | every line of the first i passes is the line its pair produces |
| ParticleMath.LinesBeforeOrdered | components/InteractiveNetworkBackground.tsx:107-141 | the first i passes draw their lines in pair order |
| ParticleMath.LinesBeforeComplete | components/InteractiveNetworkBackground.tsx:107-141 | every pair (a, b) with a < i that produces a line is drawn in the first i passes |
| ParticleMath.LinksSpec | components/InteractiveNetworkBackground.tsx:106-142 | a frame draws each unordered pair i < j at most once, in loop order, each line being its pair's line, and draws a pair exactly when its pair produces a line (within the link distance and opacity above 0.02) |
| ParticleMath.Highlight | components/InteractiveNetworkBackground.tsx:146-153 | how strongly the pointer lights a node: 1 - d/R within R of the active pointer, else 0 |
| ParticleMath.NodeDot | components/InteractiveNetworkBackground.tsx:155-156 | the circle of a node: radius size + 1.3·highlight, opacity 0.52 + 0.42·highlight (see NodeDotBounds) |
| ParticleMath.Dots | components/InteractiveNetworkBackground.tsx:144-163 | a frame fills one circle per node, in node order |
| ParticleMath.NodeDotBounds | components/InteractiveNetworkBackground.tsx:146-156 | the highlight lies in [0, 1] and is 0 when the pointer is inactive or out of radius; the circle has radius in [size, size + 1.3] and opacity in [0.52, 0.94] |
| NetworkBackground.Node.constructor | components/InteractiveNetworkBackground.tsx:44-50 | a new node record holds the given position, velocity and size |
| NetworkBackground.Node.Move | components/InteractiveNetworkBackground.tsx:77-103 | the update loop's body changes the node to one step of motion (bounce, then repulsion) |
| NetworkBackground.Node.Bounce | components/InteractiveNetworkBackground.tsx:78-89 | integrating and bouncing in place gives the bounce of the old node |
| NetworkBackground.Node.Repel | components/InteractiveNetworkBackground.tsx:91-101 | the in-place push gives the repulsion of the old node |
| NetworkBackground.Pointer.constructor | components/InteractiveNetworkBackground.tsx:29-33 | the pointer record starts as NaN, NaN, inactive |
| NetworkBackground.Background.Mount | components/InteractiveNetworkBackground.tsx:197-198 | after `resize()` and `animate()` the viewport is the window's, the node count is that of the viewport, exactly the first frame is queued and the pointer is NaN, NaN, inactive |
| NetworkBackground.Background.Resize | components/InteractiveNetworkBackground.tsx:52-66 | resize takes the window size, caps the pixel ratio, sizes the canvas backing store, sets radii 105/140 below width 768 and 155/220 otherwise, and replaces the nodes by NodeCountForViewport fresh, distinct records spawned from the draws |
| NetworkBackground.Background.CreateNodes | components/InteractiveNetworkBackground.tsx:43-50 | createNodes returns count fresh, distinct node records, node k spawned from draws 5k to 5k + 4 |
| NetworkBackground.Background.UpdateNodePositions | components/InteractiveNetworkBackground.tsx:76-104 | every node record becomes one step of motion of its old value |
| NetworkBackground.Background.DrawConnections | components/InteractiveNetworkBackground.tsx:106-142 | the lines stroked are exactly Links of the nodes (see LinksSpec) |
| NetworkBackground.Background.DrawRow | components/InteractiveNetworkBackground.tsx:110-140 | the inner loop strokes the lines of node i to every later node, in order |
| NetworkBackground.Background.PairStroke | components/InteractiveNetworkBackground.tsx:111-139 | one pass of the inner loop strokes the pair's line, or nothing when it continues early |
| NetworkBackground.Background.DrawNodes | components/InteractiveNetworkBackground.tsx:144-163 | the circles filled are exactly Dots of the nodes (see NodeDotBounds) |
| NetworkBackground.Background.Animate | components/InteractiveNetworkBackground.tsx:165-171 | a frame moves every node one step and queues the next frame, whose id is kept |
| NetworkBackground.Background.OnAnimationFrame | components/InteractiveNetworkBackground.tsx:165-171 | when the queued frame fires, one step runs and exactly one frame is queued again |
| NetworkBackground.Background.OnPointerMove | components/InteractiveNetworkBackground.tsx:173-177 | the pointer record takes both coordinates and becomes active together |
| NetworkBackground.Background.OnPointerLeave | components/InteractiveNetworkBackground.tsx:179-181 | only the active flag drops; the coordinates are kept |
| NetworkBackground.Background.OnVisibilityChange | components/InteractiveNetworkBackground.tsx:183-195 | hiding cancels the queued frame and zeroes the id; showing starts a frame only when none is queued, so a second show starts no second loop; at most one frame is ever queued |
| NetworkBackground.Background.Unmount | components/InteractiveNetworkBackground.tsx:207-210 | the cleanup cancels the queued frame, leaving none |

## Left out

- Rendering is not modelled: the canvas calls, the gradient of `drawBackground`, style strings, `setTransform`, and all JSX and framer-motion animation. What a frame strokes and fills is modelled as the lists of lines (`Line`) and circles (`Dot`).
- Floating-point rounding is not modelled. Numbers are reals, and `Math.hypot` is an arbitrary function parameter.
- `Math.random` is not called: its results are the `draws` parameter.
- Timers and frame callbacks are not run. `setTimeout`/`clearTimeout` are modelled as the `timer` field, and `requestAnimationFrame`/`cancelAnimationFrame` as the frame id plus the `requestedFrames` set.
- Listener registration and removal are left out: each handler is a method the caller invokes.
- The guards for a missing canvas or 2D context are left out. Without them the effect does nothing.
- A NaN or negative `window.devicePixelRatio` is not modelled; only the `|| 1` of a zero ratio is.
- The initial `linkDistance` 150 and `interactionRadius` 220 are assigned in `Mount`. `resize` overwrites them before any frame, so no lemma is about them.
- NetworkBackground.Background.Animate: states the motion and the frame queue. The lines and circles it draws are stated by DrawConnections and DrawNodes, which it calls, and not repeated in its own contract.
- NetworkBackground.Background.Mount: states the viewport, node count, queued frame and pointer, not the node positions after the first frame. Resize and Animate state those.
- NetworkBackground.Background.Unmount: does not model the removal of the six event listeners.
- The other components (chat client, contact form, header, cursor, footer and the static sections) are not part of this model.

## Findings

| source | as written | input that shows it | evidently intended | confidence | as-written member | corrected member |
|---|---|---|---|---|---|---|
| components/Hero.tsx:48-56 | the 1200 ms delay needs (whole phrase, typing) and the 300 ms delay needs (empty text, deleting), but the callback flips the mode in the same tick that reaches the whole phrase or the empty text, so neither state is ever reached | phrases "A" and "BC" from mount: the texts are "", "A", "", "B", "BC", "B", "", … with delays 90, 45, 90, 90, 45, 45, 90 | the whole phrase stays on screen for 1200 ms before deletion starts, and the empty text for 300 ms before the next phrase | high that the pauses never run; medium on the intent; not executed | Typewriter.ReachableDelay | Typewriter.PausingPhraseCycle |
