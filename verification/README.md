# Green Guy physics step, in Dafny

This project models the core of the Green Guy platformer engine (`green-guy.js`): the world setup and the per-frame physics step of its single player.

- **World setup.** `initializeEnvironment` checks that the world's width, height and tile size are set. It sizes the player from the tile size: 2 tiles wide, 4 tiles tall. `initializeTiles` then rejects bounds that are not a multiple of the tile size and builds a rows × columns grid filled with the empty sentinel `-1`.
- **Per-frame step.** `player.update(deltaTime)` runs these stages in order:
  - input control;
  - horizontal integration, then a row-major collision pass over every non-empty tile;
  - vertical integration, then the same pass;
  - clamping to the world bounds;
  - friction and gravity.
- **Support functions.** `touching` is a strict axis-aligned box test. `camera` computes the view translation.

Modelling choices:

- Positions, velocities, `dt` and the tuning constants are exact `real`s. They stand in for the engine's doubles.
- The world's width, height and tile size are integers. They are `Option`s before validation, because the engine tests them for `undefined`.
- JavaScript's `%` truncates toward zero; it is written out as `JsRem`. The engine's `/` divides in floating point, but `initializeTiles` only divides after the alignment test has passed, when the division is exact. So `JsQuot`, a truncating integer quotient, gives the same value there.
- The tile catalog is a sequence of `TileProps` (collision kind and footprint), passed as a parameter.
- The grid is a `seq<seq<int>>`.
- Each collision pass is a fold over `GridCells(grid)`. That is the list of non-empty cells in the order the engine's nested loops visit them.
- Collision callbacks are not run. The step instead returns a log of `Event(axis, cell)` values, one per callback the engine would fire, in firing order. The callbacks are taken to have no effect on the player, the grid or the keys (see "## Left out").
- The environment's `bottomCollision` is an input of the configuration. In `green-guy.js` it defaults to `true` (green-guy.js:9) unless the host overwrites it.
- `Physics.Step` is the whole frame. Its properties are stated in separate lemmas over it.

The model follows the code, including these behaviours a reader might not expect:

- **Left and right are exclusive, not additive.** They are an `if / else if`, so right wins when both are held (`ControlVersusAdditive`).
- **`collisionType` is never read by the passes.** Every non-empty tile blocks and fires, including `COLLISION_NONE` ones.
- **Left and up snaps can leave the player overlapping the tile.** A leftward hit snaps to `box.x - box.w` and an upward hit to `box.y - box.h`. For a tile smaller than the player, the player still overlaps it afterwards. So a frame that starts clear of every tile can end overlapping one. `HorizontalSnapSides` and `VerticalSnapSides` show it for one hit; `StepCanLeaveOverlap` shows a whole frame that starts clear and ends in overlap.
- **Only one kind of hit uses the player's own extent.** The first hit of a pass zeroes the velocity, so every later hit in that pass takes the `else` branch. Only a lone first hit made while moving right or down is placed using the player's own extent, flush against the tile's near side. Every other hit places the player one tile footprint before the tile's start (`ResolveSnap`).
- **A zero-area footprint can still register a touch** when it lies strictly inside the player's box (`ZeroAreaFootprintCanTouch`).
- **A zero-length frame keeps the position and applies the controls.** For a player inside the world that touches no tile, it keeps the position and sets the velocities from the controls. The frame ends with the player falling, because nothing supports it and the floor clamp needs it strictly below the floor. So no friction applies (`ZeroTimeKeepsPosition`).
- **The walking speed limit is `speed·friction/(1−friction)`.** Holding right on the ground adds `speed`, then applies friction. In frames that end supported, the speed approaches that value (`WalkingApproachesTopSpeed`).
- **A view wider than the world gets a positive offset of view − world.** p5's `constrain` returns its lower bound when the bounds are inverted (`AxisOffset`).

## Model

| member | source | states |
|---|---|---|
| Geometry.Constrain | green-guy.js:123 | p5's clamp: within proper bounds the result lies in them, is the input when the input already does, and is the admissible value nearest the input; with inverted bounds the lower bound wins |
| Geometry.Touching | green-guy.js:274-278 | boxes that are apart or share only an edge on either axis do not touch |
| Geometry.TouchingIffSharedInteriorPoint | green-guy.js:275-278 | for boxes of positive size, touching holds exactly when their open interiors share a point |
| Geometry.ZeroAreaFootprintCanTouch | green-guy.js:276-277 | some footprint of zero width and height touches the player's box |
| Geometry.ZeroWidthFootprintTouches | green-guy.js:276-277 | a zero-width footprint strictly between the player's sides, overlapping vertically, touches |
| World.NewTileProps | green-guy.js:38-45 | a tile type keeps its collision kind; its footprint is the given size, or one tile square by default |
| World.InitialPlayer | green-guy.js:54-60 | the player starts at rest at the origin with friction 0.75, gravity 2500, speed 50, jump force 600, not falling, sized 2×4 tiles |
| World.JsRem | green-guy.js:22 | the truncating remainder: dividend = divisor × truncated quotient + remainder, smaller than the divisor in size, with the dividend's sign |
| World.AlignmentExamples | green-guy.js:22-24 | 800×600 fits 40-pixel tiles, 801 does not, a zero tile size never fits, negative operands divide evenly too |
| World.InitializeTiles | green-guy.js:20-32 | fails exactly when either bound is misaligned; otherwise height/tileSize rows of width/tileSize cells (none when the quotient is not positive), all empty, so rows × tileSize = height for positive sizes |
| World.InitializeEnvironment | green-guy.js:281-305 | unset width or height fails first, then unset tile size, then misalignment, each exactly in its case; on success the environment is the configuration, the grid is the empty grid of the right shape, and the player is the initial one sized 2×4 tiles |
| World.RowCells | green-guy.js:83-86 | the non-empty cells of one row, exactly those with their indices, left to right |
| World.GridCells | green-guy.js:82-86 | the cells a collision pass visits: exactly the non-empty grid cells with their tile index, in strict row-major order |
| World.EmptyGridHasNoCells | green-guy.js:26-31 | a grid of empty sentinels gives the collision passes nothing to visit |
| Physics.Control | green-guy.js:67-76 | only velocities change; while falling nothing changes; otherwise right adds speed, else left subtracts it, and jump sets the vertical velocity to minus the jump force whatever it was |
| Physics.ControlVersusAdditive | green-guy.js:68-72 | the controls equal the additive reading exactly when falling, when not both directions are held, or when speed is zero; with both held, right wins |
| Physics.Resolve | green-guy.js:82-99 | a collision pass changes only its axis's position and velocity (and vertically `falling`), and fires only cells it visits |
| Physics.ResolveQuiet | green-guy.js:82-99 | a pass fires nothing exactly when no visited tile overlaps the starting box, and then leaves the player unchanged |
| Physics.ResolveSnap | green-guy.js:89-119 | after a pass that fired, the axis velocity is zero and the position is set by the last hit: flush with its near side only for a lone hit made moving right or down, otherwise the tile's own extent before its start |
| Physics.ResolveSupport | green-guy.js:110-118 | the vertical pass clears `falling` exactly when it fires while the player moves down, and otherwise leaves it as it was |
| Physics.ResolveOrder | green-guy.js:82-83 | hits come in strict row-major order, so each tile fires at most once per pass |
| Physics.ResolveFirstHit | green-guy.js:82-97 | the first tile to fire overlaps the starting box, and no earlier tile in row-major order does |
| Physics.ResolveSplit | green-guy.js:82-99 | a pass over two consecutive runs of cells is the pass over the first run, then the pass over the second from where the first left the player, with the hits of both in order |
| Physics.ResolveEveryHit | green-guy.js:82-121 | every visited tile fires exactly when it overlaps the player as the pass reaches it, after the hits on the cells before it; so a tile still overlapped after an earlier snap fires too |
| Physics.HorizontalSnapSides | green-guy.js:89-95 | a rightward hit leaves the player flush against the tile and not touching it; a leftward hit on a tile narrower than the player leaves it still touching |
| Physics.VerticalSnapSides | green-guy.js:110-117 | a downward hit lands the player flush on the tile, supported and not touching; an upward hit on a tile shorter than the player leaves it still touching |
| Physics.ClampToWorld | green-guy.js:123-129 | x ends in [0, width − w] (0 if the player is wider than the world): kept when already inside, 0 when left of it, width − w when right of it; y is floored at 0; with bottom collision y never exceeds height − h, and exactly when the floored y is below the floor it is set there with vertical speed zero and support; otherwise nothing else changes |
| Physics.ApplyForces | green-guy.js:131-133 | friction scales horizontal speed only when supported; gravity × dt/1000 is added to vertical speed always |
| Physics.Step | green-guy.js:65-133 | a frame changes only position, velocity and `falling`; the tuning constants and size are preserved |
| Physics.StepStaysInWorld | green-guy.js:123-129 | after a frame x ≥ 0 and x ≤ width − w when the player fits; with bottom collision y ≤ height − h; y ≥ 0 unless the floor clamp put it at a negative height − h |
| Physics.StepFiredTiles | green-guy.js:80-121 | every fired event names a non-empty grid cell, and horizontal events precede vertical ones |
| Physics.StepFiredLog | green-guy.js:80-121 | within each pass, events follow strict row-major order, so no tile fires twice per pass |
| Physics.StepHitsStop | green-guy.js:80-133 | a horizontal hit leaves zero horizontal speed after friction; a vertical hit leaves exactly this frame's gravity as vertical speed |
| Physics.StepSupport | green-guy.js:101-129 | the player ends supported only after a vertical hit or on the world floor, and without either it ends falling |
| Physics.EmptyGridFiresNothing | green-guy.js:82-121 | a frame on an empty grid fires no callbacks |
| Physics.ZeroTimeKeepsPosition | green-guy.js:80-133 | with zero elapsed time, a player inside the world that overlaps no tile keeps its position, fires nothing, takes the controlled velocities and ends falling, so no friction applies |
| Physics.WalkingApproachesTopSpeed | green-guy.js:67-132 | holding right while supported, a frame that ends supported and has no wall hit shrinks the gap to speed·friction/(1−friction) by the friction factor |
| Physics.WalkingStaysBelowTopSpeed | green-guy.js:67-132 | holding right while supported, in a frame that ends supported, a speed starting in [0, speed·friction/(1−friction)] stays there |
| Physics.WalkingVelocity | green-guy.js:68-132 | holding right while supported, in a frame that ends supported, the speed is (speed added, then friction), or zero after a wall hit |
| Physics.FrictionGap | green-guy.js:131-132 | one frame of adding speed and applying friction shrinks the gap to the limit speed by the friction factor and stays within [0, limit] |
| Physics.StepCanLeaveOverlap | green-guy.js:80-124 | in a 200×160 world whose only tile is a 40-square at row 0, column 2, a 100 ms frame takes a player inside the world on both axes and clear of that tile, moving left, to (40, 0), overlapping the tile |
| Camera.AxisOffset | green-guy.js:143-146 | for a view no larger than the world the visible span stays inside it (offset never positive); when possible the player's centre is at the view's centre; near either end the view rests against it; a view wider than the world gets offset view − world |
| Camera.Offset | green-guy.js:143-146 | both axes' offsets lie in [view − world, 0] when the view fits the world |
| Camera.OriginViewIsUnshifted | green-guy.js:144-145 | a player at the origin, within a view that fits the world, gets a zero offset on both axes |

## Left out

- Drawing is not modelled, because it is rendering only. That covers `player.draw` (green-guy.js:148-272), the tile-draw loop and background call in `updateEnvironment` (green-guy.js:313-330), and the `translate` the camera feeds. The camera's offset arithmetic is modelled.
- The `millis()` clock and the delta computation (green-guy.js:304, 308-309) are host clock I/O. `dt` is a parameter of `Step`.
- The key-scroll suppression listener (green-guy.js:290-296) is DOM plumbing and is not modelled.
- `updateKeys1`/`updateKeys2` (green-guy.js:333-352) are not modelled. The three buttons are an `Input` value given to `Step`.
- The walking-animation accumulator (green-guy.js:135-140) and `lockWalkingAnimationSpeed` are cosmetic and are not modelled. The accumulator tests `walkingAnimationSpeed`, which is never set, while the key handlers reset `walkingAnimationTime` rather than `_walkingAnimationTime`.
- Tile collision and draw callbacks are not run. `Step` logs which tile fired on which pass instead. The engine calls `tileProp.collisionEvent()` in the middle of each pass (green-guy.js:96, 118), and such a callback could write the player, the grid or the keys. The model assumes the callbacks change none of these. `Resolve`, `Step` and every lemma about a pass or a frame (`ResolveQuiet`, `ResolveSnap`, `ResolveSupport`, `ResolveOrder`, `ResolveFirstHit`, `ResolveSplit`, `ResolveEveryHit`, `StepStaysInWorld`, `StepFiredTiles`, `StepFiredLog`, `StepHitsStop`, `StepSupport`, `WalkingVelocity`, `WalkingApproachesTopSpeed`, `WalkingStaysBelowTopSpeed`, `StepCanLeaveOverlap`) hold only under that assumption.
- IEEE-754 rounding, NaN and infinities are not modelled, because exact reals are used. Width, height and tile size are integers: non-integer or non-numeric values are out of scope, apart from a zero tile size, which is modelled as misaligned (its NaN remainder also throws).
- Grid cells whose value is not a valid catalog index are excluded by the `ValidGrid` precondition. In the engine such a lookup fails with a type error.
- `initializeTiles` pushes onto a global array, so calling it twice would add rows. The model builds the grid from an empty array, as the single initialization does.
- `initializeEnvironment` sets the player's size before `initializeTiles` can throw. On failure the model returns only the error, because the session never starts.
- The `TileProperties` default footprint reads the tile size at construction time. `NewTileProps` takes that tile size as a defined integer. A tile type built before the tile size is set is not modelled.
- Filling the grid with tiles and registering tile types is the host's level-setup code. The grid and catalog are inputs.
- Multi-frame behaviour is not simulated. Landing on a tile (`VerticalSnapSides`, `StepSupport`) and the walking speed (`WalkingApproachesTopSpeed`) are stated per frame rather than as runs over many frames.
- `WalkingApproachesTopSpeed` and `WalkingStaysBelowTopSpeed` assume 0 ≤ friction < 1 and speed ≥ 0, where the limit speed exists. The engine's constants satisfy this; other tunings are not covered.
- `WalkingApproachesTopSpeed`, `WalkingStaysBelowTopSpeed` and `WalkingVelocity` cover only frames that end supported. A frame that ends falling skips friction (green-guy.js:131-132), so the speed can rise above the limit; for example, walking on an empty grid with bottom collision off never lands.
