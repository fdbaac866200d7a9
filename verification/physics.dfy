/** The per-frame player step: input control, horizontal move and collision
    pass, vertical move and collision pass, world-bound clamping, friction
    and gravity. Collision callbacks are reported as a log of fired tiles. */
module Physics {
  import opened Geometry
  import opened World

  /** The three logical buttons the step reads. */
  datatype Input = Input(jump: bool, left: bool, right: bool)

  datatype Axis = Horizontal | Vertical

  /** One collision callback firing: which pass, which cell. */
  datatype Event = Event(axis: Axis, cell: Cell)

  /** The outcome of one collision pass: the player and the cells that fired. */
  datatype Pass = Pass(player: Player, hits: seq<Cell>)

  /** The outcome of a frame: the player and every callback fired, in order. */
  datatype Frame = Frame(player: Player, fired: seq<Event>)

  /** Every non-empty cell indexes the tile catalog; an index outside it
      would make the engine's lookup fail. */
  predicate ValidGrid(grid: Grid, catalog: seq<TileProps>) {
    forall i, j :: 0 <= i < |grid| && 0 <= j < |grid[i]| ==> grid[i][j] < |catalog|
  }

  predicate Catalogued(cells: seq<Cell>, catalog: seq<TileProps>) {
    forall c :: c in cells ==> c.tile < |catalog|
  }

  function PlayerBox(p: Player): Box {
    Box(p.x, p.y, p.w, p.h)
  }

  /** The world-space box of a tile: its grid position and its catalog
      footprint, whatever its collision kind. */
  function TileBox(c: Cell, catalog: seq<TileProps>, tileSize: int): Box
    requires c.tile < |catalog|
  {
    Box((c.col * tileSize) as real, (c.row * tileSize) as real,
        catalog[c.tile].size.w, catalog[c.tile].size.h)
  }

  function Pos(axis: Axis, p: Player): real {
    match axis
    case Horizontal => p.x
    case Vertical => p.y
  }

  function Vel(axis: Axis, p: Player): real {
    match axis
    case Horizontal => p.xv
    case Vertical => p.yv
  }

  function Extent(axis: Axis, p: Player): real {
    match axis
    case Horizontal => p.w
    case Vertical => p.h
  }

  function BoxPos(axis: Axis, b: Box): real {
    match axis
    case Horizontal => b.x
    case Vertical => b.y
  }

  function BoxExtent(axis: Axis, b: Box): real {
    match axis
    case Horizontal => b.w
    case Vertical => b.h
  }

  /** A pass changes only its own axis (and, vertically, `falling`). */
  predicate OnlyAxisChanged(axis: Axis, p: Player, q: Player) {
    match axis
    case Horizontal => q == p.(x := q.x, xv := q.xv)
    case Vertical => q == p.(y := q.y, yv := q.yv, falling := q.falling)
  }

  /** Player controls. Right and left are exclusive alternatives with right
      checked first; jump re-applies every frame it is held. Nothing happens
      while falling. */
  function Control(p: Player, input: Input): (r: Player)
    ensures r == p.(xv := r.xv, yv := r.yv)
    ensures p.falling ==> r == p
    ensures !p.falling && input.jump ==> r.yv == -p.jumpForce
    ensures !input.jump ==> r.yv == p.yv
    ensures !p.falling && input.right ==> r.xv == p.xv + p.speed
    ensures !p.falling && !input.right && input.left ==> r.xv == p.xv - p.speed
    ensures !input.right && !input.left ==> r.xv == p.xv
  {
    if p.falling then p
    else
      var xv := if input.right then p.xv + p.speed
                else if input.left then p.xv - p.speed
                else p.xv;
      var yv := if input.jump then -p.jumpForce else p.yv;
      p.(xv := xv, yv := yv)
  }

  /** The additive reading of the controls (right adds, left subtracts, both
      apply), used only as a reference to compare `Control` against. */
  function AdditiveControl(p: Player, input: Input): Player {
    if p.falling then p
    else
      var xv := p.xv + (if input.right then p.speed else 0.0) - (if input.left then p.speed else 0.0);
      p.(xv := xv, yv := if input.jump then -p.jumpForce else p.yv)
  }

  /** The controls agree with the additive reading exactly when they cannot
      differ: while falling, when not both directions are held, or when the
      speed is zero. With both held, right wins. */
  lemma ControlVersusAdditive(p: Player, input: Input)
    ensures Control(p, input) == AdditiveControl(p, input) <==>
      p.falling || !(input.left && input.right) || p.speed == 0.0
    ensures !p.falling && input.left && input.right ==> Control(p, input).xv == p.xv + p.speed
  {
  }

  /** What one overlapping tile does to the player in a pass. */
  function Hit(axis: Axis, p: Player, box: Box): Player {
    match axis
    case Horizontal =>
      p.(x := if p.xv > 0.0 then box.x - p.w else box.x - box.w, xv := 0.0)
    case Vertical =>
      if p.yv > 0.0 then p.(y := box.y - p.h, yv := 0.0, falling := false)
      else p.(y := box.y - box.h, yv := 0.0)
  }

  /** Where the pass leaves the player on its axis, given the hits it made:
      the last hit decides, and only a lone first hit made while moving in the
      positive direction snaps flush against the tile's near side. */
  function SnapAfter(axis: Axis, p: Player, hits: seq<Cell>, catalog: seq<TileProps>, tileSize: int): real
    requires hits != [] && Catalogued(hits, catalog)
  {
    var last := TileBox(hits[|hits| - 1], catalog, tileSize);
    if |hits| == 1 && Vel(axis, p) > 0.0 then BoxPos(axis, last) - Extent(axis, p)
    else BoxPos(axis, last) - BoxExtent(axis, last)
  }

  /** One collision pass: visit `cells` in order, and for each tile whose
      box overlaps the player's current box apply `Hit` and fire it. */
  function Resolve(axis: Axis, p: Player, cells: seq<Cell>, catalog: seq<TileProps>, tileSize: int): (r: Pass)
    requires Catalogued(cells, catalog)
    ensures OnlyAxisChanged(axis, p, r.player)
    ensures forall c :: c in r.hits ==> c in cells
    decreases |cells|
  {
    if cells == [] then Pass(p, [])
    else
      var box := TileBox(cells[0], catalog, tileSize);
      var touching := Touching(PlayerBox(p), box);
      var rest := Resolve(axis, if touching then Hit(axis, p, box) else p, cells[1..], catalog, tileSize);
      Pass(rest.player, (if touching then [cells[0]] else []) + rest.hits)
  }

  /** Unfolds one step of `Resolve`. */
  lemma ResolveUnfold(axis: Axis, p: Player, cells: seq<Cell>, catalog: seq<TileProps>, tileSize: int)
    requires cells != [] && Catalogued(cells, catalog)
    ensures Catalogued(cells[1..], catalog)
    ensures var box := TileBox(cells[0], catalog, tileSize);
      var touching := Touching(PlayerBox(p), box);
      var rest := Resolve(axis, if touching then Hit(axis, p, box) else p, cells[1..], catalog, tileSize);
      Resolve(axis, p, cells, catalog, tileSize) == Pass(rest.player, (if touching then [cells[0]] else []) + rest.hits)
  {
  }

  /** A pass fires nothing exactly when no tile overlaps the starting box,
      and then it leaves the player alone. */
  lemma {:induction false} ResolveQuiet(axis: Axis, p: Player, cells: seq<Cell>, catalog: seq<TileProps>, tileSize: int)
    requires Catalogued(cells, catalog)
    ensures var r := Resolve(axis, p, cells, catalog, tileSize);
      r.hits == [] <==> forall c :: c in cells ==> !Touching(PlayerBox(p), TileBox(c, catalog, tileSize))
    ensures var r := Resolve(axis, p, cells, catalog, tileSize);
      r.hits == [] ==> r.player == p
    decreases |cells|
  {
    if cells != [] {
      ResolveUnfold(axis, p, cells, catalog, tileSize);
      var box := TileBox(cells[0], catalog, tileSize);
      if !Touching(PlayerBox(p), box) {
        ResolveQuiet(axis, p, cells[1..], catalog, tileSize);
        assert forall c :: c in cells ==> c == cells[0] || c in cells[1..];
      }
    }
  }

  /** After a pass that fired, the velocity on its axis is zero and the
      position is the one `SnapAfter` names: the first hit zeroes the
      velocity, so every later hit takes the far-side branch. */
  lemma {:induction false} ResolveSnap(axis: Axis, p: Player, cells: seq<Cell>, catalog: seq<TileProps>, tileSize: int)
    requires Catalogued(cells, catalog)
    ensures var r := Resolve(axis, p, cells, catalog, tileSize);
      r.hits != [] ==> Vel(axis, r.player) == 0.0 && Pos(axis, r.player) == SnapAfter(axis, p, r.hits, catalog, tileSize)
    decreases |cells|
  {
    if cells != [] {
      ResolveUnfold(axis, p, cells, catalog, tileSize);
      var box := TileBox(cells[0], catalog, tileSize);
      if Touching(PlayerBox(p), box) {
        var p1 := Hit(axis, p, box);
        assert Vel(axis, p1) == 0.0;
        ResolveSnap(axis, p1, cells[1..], catalog, tileSize);
        ResolveQuiet(axis, p1, cells[1..], catalog, tileSize);
        var rest := Resolve(axis, p1, cells[1..], catalog, tileSize);
        var hits := [cells[0]] + rest.hits;
        if rest.hits == [] {
          assert hits == [cells[0]];
          assert rest.player == p1;
        } else {
          assert hits[|hits| - 1] == rest.hits[|rest.hits| - 1];
          assert |hits| > 1;
        }
      } else {
        ResolveSnap(axis, p, cells[1..], catalog, tileSize);
      }
    }
  }

  /** The vertical pass finds support exactly when it fires while the player
      moves down: only the first hit can see a downward velocity. */
  lemma {:induction false} ResolveSupport(p: Player, cells: seq<Cell>, catalog: seq<TileProps>, tileSize: int)
    requires Catalogued(cells, catalog)
    ensures var r := Resolve(Vertical, p, cells, catalog, tileSize);
      r.player.falling == (p.falling && !(r.hits != [] && p.yv > 0.0))
    decreases |cells|
  {
    if cells != [] {
      ResolveUnfold(Vertical, p, cells, catalog, tileSize);
      var box := TileBox(cells[0], catalog, tileSize);
      if Touching(PlayerBox(p), box) {
        var p1 := Hit(Vertical, p, box);
        ResolveSupport(p1, cells[1..], catalog, tileSize);
      } else {
        ResolveSupport(p, cells[1..], catalog, tileSize);
      }
    }
  }

  /** A pass over row-major cells fires in row-major order, so each tile at
      most once. */
  lemma {:induction false} ResolveOrder(axis: Axis, p: Player, cells: seq<Cell>, catalog: seq<TileProps>, tileSize: int)
    requires Catalogued(cells, catalog) && RowMajorSorted(cells)
    ensures RowMajorSorted(Resolve(axis, p, cells, catalog, tileSize).hits)
    decreases |cells|
  {
    if cells != [] {
      ResolveUnfold(axis, p, cells, catalog, tileSize);
      var box := TileBox(cells[0], catalog, tileSize);
      var touching := Touching(PlayerBox(p), box);
      var p1 := if touching then Hit(axis, p, box) else p;
      ResolveOrder(axis, p1, cells[1..], catalog, tileSize);
      if touching {
        var rest := Resolve(axis, p1, cells[1..], catalog, tileSize).hits;
        assert forall d :: d in cells[1..] ==> RowMajorBefore(cells[0], d);
        SortedCons(cells[0], rest);
      }
    }
  }

  lemma SortedCons(c: Cell, s: seq<Cell>)
    requires RowMajorSorted(s)
    requires forall d :: d in s ==> RowMajorBefore(c, d)
    ensures RowMajorSorted([c] + s)
  {
    var t := [c] + s;
    forall a, b | 0 <= a < b < |t|
      ensures RowMajorBefore(t[a], t[b])
    {
      assert t[b] == s[b - 1] && s[b - 1] in s;
      if a > 0 {
        assert t[a] == s[a - 1];
      }
    }
  }

  /** The first tile to fire is the first, in row-major order, that
      overlaps the starting box. */
  lemma {:induction false} ResolveFirstHit(axis: Axis, p: Player, cells: seq<Cell>, catalog: seq<TileProps>, tileSize: int)
    requires Catalogued(cells, catalog) && RowMajorSorted(cells)
    ensures var r := Resolve(axis, p, cells, catalog, tileSize);
      r.hits != [] ==>
        && Touching(PlayerBox(p), TileBox(r.hits[0], catalog, tileSize))
        && forall c :: c in cells && RowMajorBefore(c, r.hits[0]) ==>
             !Touching(PlayerBox(p), TileBox(c, catalog, tileSize))
    decreases |cells|
  {
    if cells != [] {
      ResolveUnfold(axis, p, cells, catalog, tileSize);
      var box := TileBox(cells[0], catalog, tileSize);
      var touching := Touching(PlayerBox(p), box);
      assert forall c :: c in cells ==> c == cells[0] || c in cells[1..];
      if touching {
        assert forall c :: c in cells[1..] ==> !RowMajorBefore(c, cells[0]);
      } else {
        ResolveFirstHit(axis, p, cells[1..], catalog, tileSize);
      }
    }
  }

  /** A pass over `a + b` is the pass over `a` followed by the pass over
      `b` from where the first one left the player. */
  lemma {:induction false} ResolveSplit(axis: Axis, p: Player, a: seq<Cell>, b: seq<Cell>, catalog: seq<TileProps>, tileSize: int)
    requires Catalogued(a + b, catalog)
    ensures Catalogued(a, catalog) && Catalogued(b, catalog)
    ensures var r1 := Resolve(axis, p, a, catalog, tileSize);
      var r2 := Resolve(axis, r1.player, b, catalog, tileSize);
      Resolve(axis, p, a + b, catalog, tileSize) == Pass(r2.player, r1.hits + r2.hits)
    decreases |a|
  {
    CataloguedParts(a, b, catalog);
    if a == [] {
      assert a + b == b;
    } else {
      var c, rest := a[0], a[1..];
      assert a == [c] + rest && a + b == [c] + (rest + b);
      ResolveCons(axis, p, c, rest, catalog, tileSize);
      ResolveCons(axis, p, c, rest + b, catalog, tileSize);
      var box := TileBox(c, catalog, tileSize);
      if Touching(PlayerBox(p), box) {
        var p1 := Hit(axis, p, box);
        ResolveSplit(axis, p1, rest, b, catalog, tileSize);
        var q1 := Resolve(axis, p1, rest, catalog, tileSize);
        var q2 := Resolve(axis, q1.player, b, catalog, tileSize);
        assert [c] + (q1.hits + q2.hits) == ([c] + q1.hits) + q2.hits;
      } else {
        ResolveSplit(axis, p, rest, b, catalog, tileSize);
      }
    }
  }

  /** `ResolveUnfold` for a sequence written as a first cell and the rest. */
  lemma ResolveCons(axis: Axis, p: Player, c: Cell, rest: seq<Cell>, catalog: seq<TileProps>, tileSize: int)
    requires Catalogued([c] + rest, catalog)
    ensures c.tile < |catalog| && Catalogued(rest, catalog)
    ensures var box := TileBox(c, catalog, tileSize);
      Touching(PlayerBox(p), box) ==>
        var q := Resolve(axis, Hit(axis, p, box), rest, catalog, tileSize);
        Resolve(axis, p, [c] + rest, catalog, tileSize) == Pass(q.player, [c] + q.hits)
    ensures var box := TileBox(c, catalog, tileSize);
      !Touching(PlayerBox(p), box) ==>
        Resolve(axis, p, [c] + rest, catalog, tileSize) == Resolve(axis, p, rest, catalog, tileSize)
  {
    var cells := [c] + rest;
    assert cells[0] == c && cells[1..] == rest;
    ResolveUnfold(axis, p, cells, catalog, tileSize);
  }

  lemma CataloguedParts(a: seq<Cell>, b: seq<Cell>, catalog: seq<TileProps>)
    requires Catalogued(a + b, catalog)
    ensures Catalogued(a, catalog) && Catalogued(b, catalog)
    ensures a != [] ==> Catalogued(a[1..] + b, catalog)
  {
    assert forall c :: c in a ==> c in a + b;
    assert forall c :: c in b ==> c in a + b;
  }

  /** Every visited tile fires exactly when it overlaps the player as the
      pass reaches it, that is, after the pass over the cells before it.
      A left or up snap can leave the player overlapping, so later tiles
      fire too. */
  lemma ResolveEveryHit(axis: Axis, p: Player, cells: seq<Cell>, k: nat, catalog: seq<TileProps>, tileSize: int)
    requires Catalogued(cells, catalog) && RowMajorSorted(cells) && k < |cells|
    ensures Catalogued(cells[..k], catalog)
    ensures cells[k] in Resolve(axis, p, cells, catalog, tileSize).hits <==>
      Touching(PlayerBox(Resolve(axis, p, cells[..k], catalog, tileSize).player), TileBox(cells[k], catalog, tileSize))
  {
    var a, b := cells[..k], cells[k..];
    assert cells == a + b;
    ResolveSplit(axis, p, a, b, catalog, tileSize);
    var r1 := Resolve(axis, p, a, catalog, tileSize);
    ResolveUnfold(axis, r1.player, b, catalog, tileSize);
    var box := TileBox(b[0], catalog, tileSize);
    var q := if Touching(PlayerBox(r1.player), box) then Hit(axis, r1.player, box) else r1.player;
    var rest := Resolve(axis, q, b[1..], catalog, tileSize);
    assert b[0] == cells[k];
    assert cells[k] !in a by {
      forall i | 0 <= i < k ensures a[i] != cells[k] {
        assert RowMajorBefore(cells[i], cells[k]);
      }
    }
    assert cells[k] !in b[1..] by {
      forall i | 0 <= i < |b| - 1 ensures b[1..][i] != cells[k] {
        assert b[1..][i] == cells[k + 1 + i];
        assert RowMajorBefore(cells[k], cells[k + 1 + i]);
      }
    }
    assert cells[k] !in r1.hits;
    assert cells[k] !in rest.hits;
  }

  /** The world-bound clamp: x into [0, width - w], y floored at 0, and with
      bottom collision a floor at height - h that also stops the fall. */
  function ClampToWorld(p: Player, env: Env): (r: Player)
    ensures r == p.(x := r.x, y := r.y, yv := r.yv, falling := r.falling)
    ensures 0.0 <= r.x
    ensures p.w <= env.width as real ==> r.x <= env.width as real - p.w
    ensures env.width as real < p.w ==> r.x == 0.0
    ensures 0.0 <= p.x <= env.width as real - p.w ==> r.x == p.x
    // outside the range, x goes to the nearer end of it
    ensures p.x < 0.0 ==> r.x == 0.0
    ensures 0.0 <= env.width as real - p.w < p.x ==> r.x == env.width as real - p.w
    ensures env.bottomCollision ==> r.y <= env.height as real - p.h
    ensures r.y >= 0.0 || (env.bottomCollision && r.y == env.height as real - p.h)
    ensures !(env.bottomCollision && Max(p.y, 0.0) > env.height as real - p.h) ==>
      r.y == Max(p.y, 0.0) && r.yv == p.yv && r.falling == p.falling
    ensures env.bottomCollision && Max(p.y, 0.0) > env.height as real - p.h ==>
      r.y == env.height as real - p.h && r.yv == 0.0 && !r.falling
  {
    var x := Constrain(p.x, 0.0, env.width as real - p.w);
    var y := Max(p.y, 0.0);
    if env.bottomCollision && y > env.height as real - p.h then
      p.(x := x, y := env.height as real - p.h, yv := 0.0, falling := false)
    else
      p.(x := x, y := y)
  }

  /** End-of-frame forces: friction only with support, gravity always. */
  function ApplyForces(p: Player, dt: real): (r: Player)
    ensures r == p.(xv := r.xv, yv := r.yv)
    ensures p.falling ==> r.xv == p.xv
    ensures !p.falling ==> r.xv == p.xv * p.friction
    ensures r.yv - p.yv == p.gravity * (dt / 1000.0)
  {
    p.(xv := if p.falling then p.xv else p.xv * p.friction,
       yv := p.yv + p.gravity * (dt / 1000.0))
  }

  function Tag(axis: Axis, cs: seq<Cell>): (es: seq<Event>)
    ensures |es| == |cs|
    ensures forall i :: 0 <= i < |es| ==> es[i] == Event(axis, cs[i])
  {
    seq(|cs|, i requires 0 <= i < |cs| => Event(axis, cs[i]))
  }

  /** Horizontal integration: `dt` is in milliseconds. */
  function MoveX(p: Player, dt: real): Player {
    p.(x := p.x + p.xv * (dt / 1000.0))
  }

  /** Vertical integration; the player counts as falling until a pass or the
      floor says otherwise. */
  function MoveY(p: Player, dt: real): Player {
    p.(falling := true, y := p.y + p.yv * (dt / 1000.0))
  }

  /** The stages of a frame, kept apart so lemmas can name them. */
  datatype Stages = Stages(controlled: Player, horizontal: Pass, vertical: Pass, clamped: Player)

  function RunStages(env: Env, catalog: seq<TileProps>, grid: Grid, p: Player, input: Input, dt: real): Stages
    requires ValidGrid(grid, catalog)
  {
    var cells := GridCells(grid);
    var p1 := Control(p, input);
    var h := Resolve(Horizontal, MoveX(p1, dt), cells, catalog, env.tileSize);
    var v := Resolve(Vertical, MoveY(h.player, dt), cells, catalog, env.tileSize);
    Stages(p1, h, v, ClampToWorld(v.player, env))
  }

  /** `player.update(deltaTime)`: one frame of the player, with `dt` in
      milliseconds. The tuning constants and the size never change. */
  function Step(env: Env, catalog: seq<TileProps>, grid: Grid, p: Player, input: Input, dt: real): (f: Frame)
    requires ValidGrid(grid, catalog)
    ensures f.player == p.(x := f.player.x, y := f.player.y, xv := f.player.xv, yv := f.player.yv,
                           falling := f.player.falling)
  {
    var s := RunStages(env, catalog, grid, p, input, dt);
    Frame(ApplyForces(s.clamped, dt), Tag(Horizontal, s.horizontal.hits) + Tag(Vertical, s.vertical.hits))
  }

  /** After a frame the player's x is at least 0, and at most width - w
      when the player fits the world's width. With bottom collision the
      player is not below the floor. The player is not above the top,
      except when the floor clamp puts it at height - h and that is
      negative (a player taller than the world). */
  lemma StepStaysInWorld(env: Env, catalog: seq<TileProps>, grid: Grid, p: Player, input: Input, dt: real)
    requires ValidGrid(grid, catalog)
    ensures var f := Step(env, catalog, grid, p, input, dt);
      && 0.0 <= f.player.x
      && (p.w <= env.width as real ==> f.player.x <= env.width as real - p.w)
      && (env.bottomCollision ==> f.player.y <= env.height as real - p.h)
      && (f.player.y >= 0.0 || (env.bottomCollision && f.player.y == env.height as real - p.h))
  {
  }

  /** No horizontal event follows a vertical one in the log. */
  predicate HorizontalFirst(fired: seq<Event>) {
    forall i, j :: 0 <= i < j < |fired| && fired[i].axis == Vertical ==> fired[j].axis == Vertical
  }

  /** Within each pass, events follow strict row-major order. */
  predicate EachPassInRowMajorOrder(fired: seq<Event>) {
    forall i, j :: 0 <= i < j < |fired| && fired[i].axis == fired[j].axis ==>
      RowMajorBefore(fired[i].cell, fired[j].cell)
  }

  /** The fired log holds tiles of the grid, the horizontal pass's first. */
  lemma StepFiredTiles(env: Env, catalog: seq<TileProps>, grid: Grid, p: Player, input: Input, dt: real)
    requires ValidGrid(grid, catalog)
    ensures var f := Step(env, catalog, grid, p, input, dt);
      forall e :: e in f.fired ==> IsTileCell(grid, e.cell)
    ensures HorizontalFirst(Step(env, catalog, grid, p, input, dt).fired)
  {
    var s := RunStages(env, catalog, grid, p, input, dt);
    StagesFacts(env, catalog, grid, p, input, dt);
    StepLog(grid, s.horizontal.hits, s.vertical.hits, Step(env, catalog, grid, p, input, dt).fired);
  }

  /** Each pass fires in row-major order, and so each tile at most once. */
  lemma StepFiredLog(env: Env, catalog: seq<TileProps>, grid: Grid, p: Player, input: Input, dt: real)
    requires ValidGrid(grid, catalog)
    ensures EachPassInRowMajorOrder(Step(env, catalog, grid, p, input, dt).fired)
  {
    var s := RunStages(env, catalog, grid, p, input, dt);
    StagesFacts(env, catalog, grid, p, input, dt);
    StepLog(grid, s.horizontal.hits, s.vertical.hits, Step(env, catalog, grid, p, input, dt).fired);
  }

  /** A horizontal hit leaves the player without horizontal speed; a
      vertical hit leaves only this frame's gravity as vertical speed. */
  lemma StepHitsStop(env: Env, catalog: seq<TileProps>, grid: Grid, p: Player, input: Input, dt: real)
    requires ValidGrid(grid, catalog)
    ensures var f := Step(env, catalog, grid, p, input, dt);
      (exists e :: e in f.fired && e.axis == Horizontal) ==> f.player.xv == 0.0
    ensures var f := Step(env, catalog, grid, p, input, dt);
      (exists e :: e in f.fired && e.axis == Vertical) ==> f.player.yv == p.gravity * (dt / 1000.0)
  {
    var s := RunStages(env, catalog, grid, p, input, dt);
    StagesVelocityX(env, catalog, grid, p, input, dt);
    StagesVelocityY(env, catalog, grid, p, input, dt);
    var f := Step(env, catalog, grid, p, input, dt);
    LogAxes(s.horizontal.hits, s.vertical.hits, f.fired);
    assert f.player == ApplyForces(s.clamped, dt);
  }

  /** A vertical hit leaves no vertical speed before gravity. */
  lemma StagesVelocityY(env: Env, catalog: seq<TileProps>, grid: Grid, p: Player, input: Input, dt: real)
    requires ValidGrid(grid, catalog)
    ensures var s := RunStages(env, catalog, grid, p, input, dt);
      s.vertical.hits != [] ==> s.clamped.yv == 0.0 && s.clamped.gravity == p.gravity
  {
    var cells := GridCells(grid);
    assert Catalogued(cells, catalog);
    var s := RunStages(env, catalog, grid, p, input, dt);
    var p2 := MoveY(s.horizontal.player, dt);
    assert s.vertical == Resolve(Vertical, p2, cells, catalog, env.tileSize);
    ResolveSnap(Vertical, p2, cells, catalog, env.tileSize);
  }

  /** Support comes only from a tile met while moving down or from the
      world's floor; without either the player is falling. */
  lemma StepSupport(env: Env, catalog: seq<TileProps>, grid: Grid, p: Player, input: Input, dt: real)
    requires ValidGrid(grid, catalog)
    ensures var f := Step(env, catalog, grid, p, input, dt);
      !f.player.falling ==>
        (exists e :: e in f.fired && e.axis == Vertical) ||
        (env.bottomCollision && f.player.y == env.height as real - p.h)
    ensures var f := Step(env, catalog, grid, p, input, dt);
      ((forall e :: e in f.fired ==> e.axis == Horizontal) &&
       !(env.bottomCollision && f.player.y == env.height as real - p.h)) ==> f.player.falling
  {
    var s := RunStages(env, catalog, grid, p, input, dt);
    StagesFacts(env, catalog, grid, p, input, dt);
    StepLog(grid, s.horizontal.hits, s.vertical.hits, Step(env, catalog, grid, p, input, dt).fired);
  }

  /** What the stages of a frame establish, pass by pass. */
  lemma StagesFacts(env: Env, catalog: seq<TileProps>, grid: Grid, p: Player, input: Input, dt: real)
    requires ValidGrid(grid, catalog)
    ensures var s := RunStages(env, catalog, grid, p, input, dt);
      && (forall c :: c in s.horizontal.hits ==> IsTileCell(grid, c))
      && (forall c :: c in s.vertical.hits ==> IsTileCell(grid, c))
      && RowMajorSorted(s.horizontal.hits) && RowMajorSorted(s.vertical.hits)
      && s.clamped == p.(x := s.clamped.x, y := s.clamped.y, xv := s.clamped.xv, yv := s.clamped.yv,
                         falling := s.clamped.falling)
      && (s.horizontal.hits != [] ==> s.clamped.xv == 0.0)
      && (s.vertical.hits != [] ==> s.clamped.yv == 0.0)
      && (!s.clamped.falling ==>
            s.vertical.hits != [] || (env.bottomCollision && s.clamped.y == env.height as real - p.h))
      && (s.vertical.hits == [] && !(env.bottomCollision && s.clamped.y == env.height as real - p.h) ==>
            s.clamped.falling)
  {
    var cells := GridCells(grid);
    assert Catalogued(cells, catalog);
    var p1 := Control(p, input);
    var px := MoveX(p1, dt);
    var h := Resolve(Horizontal, px, cells, catalog, env.tileSize);
    ResolveOrder(Horizontal, px, cells, catalog, env.tileSize);
    ResolveSnap(Horizontal, px, cells, catalog, env.tileSize);
    var p2 := MoveY(h.player, dt);
    var v := Resolve(Vertical, p2, cells, catalog, env.tileSize);
    ResolveOrder(Vertical, p2, cells, catalog, env.tileSize);
    ResolveSnap(Vertical, p2, cells, catalog, env.tileSize);
    ResolveSupport(p2, cells, catalog, env.tileSize);
    var c := ClampToWorld(v.player, env);
    var s := RunStages(env, catalog, grid, p, input, dt);
    assert s.controlled == p1;
    assert s.horizontal == h;
    assert s.vertical == v;
    assert s.clamped == c;
    assert h.hits != [] ==> v.player.xv == 0.0;
  }

  lemma StepLog(grid: Grid, hx: seq<Cell>, hy: seq<Cell>, fired: seq<Event>)
    requires fired == Tag(Horizontal, hx) + Tag(Vertical, hy)
    requires forall c :: c in hx ==> IsTileCell(grid, c)
    requires forall c :: c in hy ==> IsTileCell(grid, c)
    requires RowMajorSorted(hx) && RowMajorSorted(hy)
    ensures forall e :: e in fired ==> IsTileCell(grid, e.cell)
    ensures HorizontalFirst(fired)
    ensures EachPassInRowMajorOrder(fired)
    ensures (exists e :: e in fired && e.axis == Horizontal) <==> hx != []
    ensures (exists e :: e in fired && e.axis == Vertical) <==> hy != []
  {
    var n := |hx|;
    assert forall i :: 0 <= i < |fired| ==> (fired[i].axis == Horizontal <==> i < n);
    assert forall i :: 0 <= i < n ==> fired[i].cell == hx[i];
    assert forall i :: n <= i < |fired| ==> fired[i].cell == hy[i - n];
    LogAxes(hx, hy, fired);
  }

  /** The log has a horizontal event exactly when the horizontal pass hit,
      and likewise vertically. */
  lemma LogAxes(hx: seq<Cell>, hy: seq<Cell>, fired: seq<Event>)
    requires fired == Tag(Horizontal, hx) + Tag(Vertical, hy)
    ensures (exists e :: e in fired && e.axis == Horizontal) <==> hx != []
    ensures (exists e :: e in fired && e.axis == Vertical) <==> hy != []
  {
    var n := |hx|;
    assert forall i :: 0 <= i < |fired| ==> (fired[i].axis == Horizontal <==> i < n);
    if hx != [] {
      assert fired[0] in fired;
    }
    if hy != [] {
      assert fired[n] in fired;
    }
  }

  /** The rightward snap puts the player flush against the tile's left side,
      no longer touching it; the leftward snap moves it to `box.x - box.w`,
      which for a tile narrower than the player still overlaps the tile. */
  lemma HorizontalSnapSides(p: Player, box: Box)
    requires Touching(PlayerBox(p), box)
    ensures var q := Hit(Horizontal, p, box);
      p.xv > 0.0 ==> q.x + q.w == box.x && !Touching(PlayerBox(q), box)
    ensures var q := Hit(Horizontal, p, box);
      p.xv <= 0.0 && 0.0 < box.w < p.w ==> Touching(PlayerBox(q), box)
  {
  }

  /** The downward snap lands the player on the tile's top, flush and
      supported; the upward snap moves it to `box.y - box.h`, which for a
      tile shorter than the player still overlaps the tile. */
  lemma VerticalSnapSides(p: Player, box: Box)
    requires Touching(PlayerBox(p), box)
    ensures var q := Hit(Vertical, p, box);
      p.yv > 0.0 ==> q.y + q.h == box.y && !q.falling && !Touching(PlayerBox(q), box)
    ensures var q := Hit(Vertical, p, box);
      p.yv <= 0.0 && 0.0 < box.h < p.h ==> Touching(PlayerBox(q), box) && q.falling == p.falling
  {
  }

  /** A frame on a grid with no tiles fires nothing; in particular the first
      frames after initialization do not. */
  lemma EmptyGridFiresNothing(env: Env, catalog: seq<TileProps>, grid: Grid, p: Player, input: Input, dt: real)
    requires AllEmpty(grid)
    ensures ValidGrid(grid, catalog)
    ensures Step(env, catalog, grid, p, input, dt).fired == []
  {
    EmptyGridHasNoCells(grid);
  }

  /** With no elapsed time, a player that overlaps no tile and is within the
      world bounds keeps its position and fires nothing. Its velocities take
      the controls, but the frame leaves it falling: nothing supports it, and
      the floor clamp needs it strictly below the floor. So no friction
      applies. */
  lemma ZeroTimeKeepsPosition(env: Env, catalog: seq<TileProps>, grid: Grid, p: Player, input: Input)
    requires ValidGrid(grid, catalog)
    requires forall c :: IsTileCell(grid, c) ==> !Touching(PlayerBox(p), TileBox(c, catalog, env.tileSize))
    requires 0.0 <= p.x <= env.width as real - p.w
    requires 0.0 <= p.y && (env.bottomCollision ==> p.y <= env.height as real - p.h)
    ensures var f := Step(env, catalog, grid, p, input, 0.0);
      f.player.x == p.x && f.player.y == p.y && f.fired == [] && f.player.yv == Control(p, input).yv
    ensures var f := Step(env, catalog, grid, p, input, 0.0);
      f.player.falling && f.player.xv == Control(p, input).xv
  {
    var cells := GridCells(grid);
    assert Catalogued(cells, catalog);
    var p1 := Control(p, input);
    var px := MoveX(p1, 0.0);
    assert PlayerBox(px) == PlayerBox(p);
    ResolveQuiet(Horizontal, px, cells, catalog, env.tileSize);
    var h := Resolve(Horizontal, px, cells, catalog, env.tileSize);
    var p2 := MoveY(h.player, 0.0);
    assert PlayerBox(p2) == PlayerBox(p);
    ResolveQuiet(Vertical, p2, cells, catalog, env.tileSize);
    var s := RunStages(env, catalog, grid, p, input, 0.0);
    assert s.horizontal == h;
    assert s.vertical.player == p2;
  }

  /** The steady walking speed when right is held on the ground: the fixed
      point of "add speed, then apply friction". */
  function TopSpeed(p: Player): real
    requires p.friction < 1.0
  {
    p.speed * p.friction / (1.0 - p.friction)
  }

  /** Holding right while supported, in a frame that also ends supported:
      unless a wall stops it, the gap to the top speed shrinks by the
      friction factor, so the speed approaches the top speed. A frame that
      ends falling skips friction and is not covered. */
  lemma WalkingApproachesTopSpeed(env: Env, catalog: seq<TileProps>, grid: Grid, p: Player, input: Input, dt: real)
    requires ValidGrid(grid, catalog)
    requires !p.falling && input.right
    requires 0.0 <= p.friction < 1.0 && 0.0 <= p.speed
    ensures var f := Step(env, catalog, grid, p, input, dt);
      !f.player.falling && (forall e :: e in f.fired ==> e.axis == Vertical) ==>
        TopSpeed(p) - f.player.xv == p.friction * (TopSpeed(p) - p.xv)
  {
    WalkingVelocity(env, catalog, grid, p, input, dt);
    FrictionGap(p);
  }

  /** Holding right while supported, in a frame that also ends supported, a
      speed starting in [0, top speed] stays there, wall or no wall. */
  lemma WalkingStaysBelowTopSpeed(env: Env, catalog: seq<TileProps>, grid: Grid, p: Player, input: Input, dt: real)
    requires ValidGrid(grid, catalog)
    requires !p.falling && input.right
    requires 0.0 <= p.friction < 1.0 && 0.0 <= p.speed
    ensures var f := Step(env, catalog, grid, p, input, dt);
      !f.player.falling && 0.0 <= p.xv <= TopSpeed(p) ==> 0.0 <= f.player.xv <= TopSpeed(p)
  {
    WalkingVelocity(env, catalog, grid, p, input, dt);
    FrictionGap(p);
  }

  /** Supported and holding right, in a frame that also ends supported, the
      frame's speed is "add speed, then friction", or zero after meeting a
      wall. */
  lemma WalkingVelocity(env: Env, catalog: seq<TileProps>, grid: Grid, p: Player, input: Input, dt: real)
    requires ValidGrid(grid, catalog)
    requires !p.falling && input.right
    ensures var f := Step(env, catalog, grid, p, input, dt);
      !f.player.falling && (forall e :: e in f.fired ==> e.axis == Vertical) ==>
        f.player.xv == (p.xv + p.speed) * p.friction
    ensures var f := Step(env, catalog, grid, p, input, dt);
      !f.player.falling && (exists e :: e in f.fired && e.axis == Horizontal) ==> f.player.xv == 0.0
  {
    var s := RunStages(env, catalog, grid, p, input, dt);
    StagesVelocityX(env, catalog, grid, p, input, dt);
    StagesFacts(env, catalog, grid, p, input, dt);
    WalkingFromStages(p, s.clamped, s.horizontal.hits, s.vertical.hits, Step(env, catalog, grid, p, input, dt), dt);
  }

  /** The frame-level step of `WalkingVelocity`, over the stages' results. */
  lemma WalkingFromStages(p: Player, c: Player, hx: seq<Cell>, hy: seq<Cell>, f: Frame, dt: real)
    requires !p.falling
    requires c.friction == p.friction
    requires c.xv == if hx == [] then p.xv + p.speed else 0.0
    requires f == Frame(ApplyForces(c, dt), Tag(Horizontal, hx) + Tag(Vertical, hy))
    ensures !f.player.falling && (forall e :: e in f.fired ==> e.axis == Vertical) ==>
      f.player.xv == (p.xv + p.speed) * p.friction
    ensures !f.player.falling && (exists e :: e in f.fired && e.axis == Horizontal) ==> f.player.xv == 0.0
  {
    LogAxes(hx, hy, f.fired);
  }

  /** Before friction, the horizontal speed is the controlled one unless the
      horizontal pass hit a tile. */
  lemma StagesVelocityX(env: Env, catalog: seq<TileProps>, grid: Grid, p: Player, input: Input, dt: real)
    requires ValidGrid(grid, catalog)
    ensures var s := RunStages(env, catalog, grid, p, input, dt);
      s.clamped.xv == if s.horizontal.hits == [] then Control(p, input).xv else 0.0
  {
    var cells := GridCells(grid);
    assert Catalogued(cells, catalog);
    var px := MoveX(Control(p, input), dt);
    var h := Resolve(Horizontal, px, cells, catalog, env.tileSize);
    ResolveQuiet(Horizontal, px, cells, catalog, env.tileSize);
    ResolveSnap(Horizontal, px, cells, catalog, env.tileSize);
    var v := Resolve(Vertical, MoveY(h.player, dt), cells, catalog, env.tileSize);
    assert v.player.xv == h.player.xv;
    var s := RunStages(env, catalog, grid, p, input, dt);
    assert s.horizontal == h && s.vertical == v;
  }

  /** One frame of "add speed, then friction" closes the gap to the top
      speed by the friction factor. */
  lemma FrictionGap(p: Player)
    requires 0.0 <= p.friction < 1.0 && 0.0 <= p.speed
    ensures TopSpeed(p) - (p.xv + p.speed) * p.friction == p.friction * (TopSpeed(p) - p.xv)
    ensures 0.0 <= p.xv <= TopSpeed(p) ==> 0.0 <= (p.xv + p.speed) * p.friction <= TopSpeed(p)
  {
    var top := TopSpeed(p);
    assert top * (1.0 - p.friction) == p.speed * p.friction;
    if 0.0 <= p.xv <= top {
      assert 0.0 <= p.friction * (top - p.xv);
      assert 0.0 <= p.xv + p.speed;
      assert 0.0 <= (p.xv + p.speed) * p.friction;
    }
  }

  /** A grid for a 200 by 160 world of 40-pixel tiles whose only tile is
      catalog entry 0, in row 0, column 2. */
  const OneTileGrid: Grid := seq(4, i => if i == 0 then [-1, -1, 0, -1, -1] else [-1, -1, -1, -1, -1])

  /** The leftward snap is not a separation: a frame that starts clear of
      every tile and ends overlapping the solid tile it hit. The world is
      200 by 160 with 40-pixel tiles, and its only tile is a 40-square at
      row 0, column 2 (`OneTileGrid` is such a grid). A player 80 wide and
      160 tall, inside the world and flush against the right side of that
      tile, moves left by 10 in a 100 ms frame, meets the tile and is
      snapped to x = 40; the vertical pass then snaps it to y = -40, which
      the clamp floors to 0. */
  lemma StepCanLeaveOverlap(grid: Grid)
    requires GridCells(grid) == [Cell(0, 2, 0)]
    requires |grid| == 4 && forall i :: 0 <= i < |grid| ==> |grid[i]| == 5
    ensures var env := Env(200, 160, 40, false);
      var catalog := [NewTileProps(CollisionSolid, Undefined, 40)];
      var p := Player(120.0, 0.0, -100.0, 0.0, 0.75, 2500.0, 50.0, 600.0, 80.0, 160.0, true);
      var tile := TileBox(Cell(0, 2, 0), catalog, env.tileSize);
      ValidGrid(grid, catalog) &&
      0.0 <= p.x <= env.width as real - p.w && 0.0 <= p.y <= env.height as real - p.h &&
      !Touching(PlayerBox(p), tile) &&
      var f := Step(env, catalog, grid, p, Input(false, false, false), 100.0);
      f.player.x == 40.0 && f.player.y == 0.0 &&
      Touching(PlayerBox(f.player), tile)
  {
    var env := Env(200, 160, 40, false);
    var catalog := [NewTileProps(CollisionSolid, Undefined, 40)];
    var p := Player(120.0, 0.0, -100.0, 0.0, 0.75, 2500.0, 50.0, 600.0, 80.0, 160.0, true);
    OnlyTileIsValid(grid, catalog, Cell(0, 2, 0));
    var cells := GridCells(grid);
    var px := MoveX(Control(p, Input(false, false, false)), 100.0);
    assert px == p.(x := 110.0);
    var h := Resolve(Horizontal, px, cells, catalog, env.tileSize);
    ResolveUnfold(Horizontal, px, cells, catalog, env.tileSize);
    assert h.player == p.(x := 40.0, xv := 0.0);
    var p2 := MoveY(h.player, 100.0);
    assert p2.y == 0.0;
    var v := Resolve(Vertical, p2, cells, catalog, env.tileSize);
    ResolveUnfold(Vertical, p2, cells, catalog, env.tileSize);
    assert v.player == p2.(y := -40.0, yv := 0.0);
    var s := RunStages(env, catalog, grid, p, Input(false, false, false), 100.0);
    assert s.vertical == v;
    assert s.clamped.x == 40.0 && s.clamped.y == 0.0;
  }

  /** A grid whose only tile indexes the catalog is valid for it. */
  lemma OnlyTileIsValid(grid: Grid, catalog: seq<TileProps>, c: Cell)
    requires GridCells(grid) == [c] && c.tile < |catalog|
    ensures ValidGrid(grid, catalog)
  {
    forall i, j | 0 <= i < |grid| && 0 <= j < |grid[i]|
      ensures grid[i][j] < |catalog|
    {
      if grid[i][j] >= 0 {
        var d := Cell(i, j, grid[i][j]);
        assert IsTileCell(grid, d);
        assert d in [c];
      }
    }
  }

  /** `OneTileGrid` has the shape of a 200 by 160 world of 40-pixel tiles,
      and its only tile is at row 0, column 2. */
  lemma OneTileGridCells()
    ensures GridCells(OneTileGrid) == [Cell(0, 2, 0)]
    ensures |OneTileGrid| == 4 && forall i :: 0 <= i < |OneTileGrid| ==> |OneTileGrid[i]| == 5
  {
    var grid, c := OneTileGrid, Cell(0, 2, 0);
    var cs := GridCells(grid);
    assert IsTileCell(grid, c);
    forall d | d in cs
      ensures d == c
    {
      assert IsTileCell(grid, d);
      assert d.row < 4 && d.col < 5;
      assert d.row == 0 && d.col == 2;
    }
    assert c in cs;
    SortedConstantIsShort(cs, c);
  }

  lemma SortedConstantIsShort(cs: seq<Cell>, c: Cell)
    requires RowMajorSorted(cs)
    requires forall d :: d in cs ==> d == c
    ensures |cs| <= 1
  {
    if |cs| > 1 {
      FirstTwoAreMembers(cs);
    }
  }

  lemma FirstTwoAreMembers<T>(s: seq<T>)
    requires |s| > 1
    ensures s[0] in s && s[1] in s
  {
  }
}
