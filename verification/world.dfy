/** The engine's world state: environment configuration, tile catalog, tile
    grid, the player record, and the initialization that validates the
    configuration and builds the empty grid. */
module World {

  /** A configuration entry that may have been left unset (JavaScript `undefined`). */
  datatype Option<T> = Undefined | Defined(value: T)

  /** The reasons initialization throws. */
  datatype InitError =
    | SizeUndefined       // width or height unset
    | TileSizeUndefined   // tile size unset
    | BoundsMisaligned    // width or height not a multiple of the tile size

  datatype Outcome<T> = Ok(value: T) | Err(error: InitError)

  /** The environment object as the host fills it in before initialization. */
  datatype Config = Config(width: Option<int>, height: Option<int>, tileSize: Option<int>, bottomCollision: bool)

  /** The environment once validated. */
  datatype Env = Env(width: int, height: int, tileSize: int, bottomCollision: bool)

  /** The solid collision kind of a tile type. The collision passes never
      consult a tile's kind. */
  const CollisionSolid: int := 1

  datatype Size = Size(w: real, h: real)

  /** One entry of the tile catalog; its draw and collision callbacks are not
      modelled (the step reports which tiles fired instead). */
  datatype TileProps = TileProps(collisionType: int, size: Size)

  /** The `TileProperties` constructor: the footprint defaults to one tile square. */
  function NewTileProps(collisionType: int, size: Option<Size>, tileSize: int): (t: TileProps)
    ensures t.collisionType == collisionType
    ensures size.Defined? ==> t.size == size.value
    ensures size.Undefined? ==> t.size.w == t.size.h == tileSize as real
  {
    TileProps(collisionType, if size.Defined? then size.value else Size(tileSize as real, tileSize as real))
  }

  /** The empty-cell sentinel; any other cell value indexes the tile catalog. */
  const Empty: int := -1

  type Grid = seq<seq<int>>

  predicate AllEmpty(grid: Grid) {
    forall i, j :: 0 <= i < |grid| && 0 <= j < |grid[i]| ==> grid[i][j] == Empty
  }

  /** The player record. `w`/`h` are its box size, `falling` is true while it
      has no support this frame. */
  datatype Player = Player(
    x: real, y: real,
    xv: real, yv: real,
    friction: real, gravity: real, speed: real, jumpForce: real,
    w: real, h: real,
    falling: bool)

  /** The player as the engine declares it, sized from the tile size as
      initialization does. `falling` starts unset in the engine, which reads as false. */
  function InitialPlayer(tileSize: int): (p: Player)
    ensures p.x == p.y == p.xv == p.yv == 0.0 && !p.falling
    ensures p.w == 2.0 * tileSize as real && p.h == 4.0 * tileSize as real
    ensures p.friction == 0.75 && p.gravity == 2500.0 && p.speed == 50.0 && p.jumpForce == 600.0
  {
    Player(0.0, 0.0, 0.0, 0.0, 0.75, 2500.0, 50.0, 600.0,
           (tileSize * 2) as real, (tileSize * 4) as real, false)
  }

  datatype Session = Session(env: Env, grid: Grid, player: Player)

  function Abs(n: int): nat {
    if n < 0 then -n else n
  }

  function Max0(n: int): nat {
    if n < 0 then 0 else n
  }

  /** JavaScript's `/` on integers that divide exactly, rounded toward zero. */
  function JsQuot(a: int, b: int): int
    requires b != 0
  {
    if (a < 0) == (b < 0) then Abs(a) / Abs(b) else -(Abs(a) / Abs(b))
  }

  /** JavaScript's `%` on integers: truncating, so the remainder takes the
      sign of the dividend (Dafny's own `%` is Euclidean). */
  function JsRem(a: int, b: int): (r: int)
    requires b != 0
    ensures a == b * JsQuot(a, b) + r
    ensures Abs(r) < Abs(b)
    ensures a >= 0 ==> r >= 0
    ensures a <= 0 ==> r <= 0
  {
    var q := Abs(a) / Abs(b);
    var m := Abs(a) % Abs(b);
    assert Abs(a) == Abs(b) * q + m;
    if a < 0 then -m else m
  }

  /** The alignment test of `initializeTiles`: `n % tileSize !== 0` throws,
      and with a zero tile size the remainder is NaN, which also throws. */
  predicate Aligned(n: int, tileSize: int) {
    tileSize != 0 && JsRem(n, tileSize) == 0
  }

  /** Alignment on sample bounds: 800 by 600 fits 40-pixel tiles, 801 does
      not, and a zero tile size never fits. */
  lemma AlignmentExamples(n: int)
    ensures Aligned(800, 40) && Aligned(600, 40)
    ensures !Aligned(801, 40)
    ensures !Aligned(n, 0)
    ensures Aligned(-800, 40) && Aligned(800, -40)
  {
  }

  /** `initializeTiles`: rejects misaligned bounds, then pushes
      `height / tileSize` rows of `width / tileSize` empty cells. */
  method InitializeTiles(width: int, height: int, tileSize: int) returns (r: Outcome<Grid>)
    ensures r.Err? <==> !(Aligned(width, tileSize) && Aligned(height, tileSize))
    ensures r.Err? ==> r.error == BoundsMisaligned
    ensures r.Ok? ==> |r.value| == Max0(JsQuot(height, tileSize))
    ensures r.Ok? ==> forall i :: 0 <= i < |r.value| ==> |r.value[i]| == Max0(JsQuot(width, tileSize))
    ensures r.Ok? ==> AllEmpty(r.value)
    ensures r.Ok? && tileSize > 0 && height >= 0 ==> |r.value| * tileSize == height
    ensures r.Ok? && tileSize > 0 && height > 0 && width >= 0 ==> |r.value[0]| * tileSize == width
  {
    if !(Aligned(width, tileSize) && Aligned(height, tileSize)) {
      return Err(BoundsMisaligned);
    }
    var cols := JsQuot(width, tileSize);
    var rows := JsQuot(height, tileSize);
    var grid: Grid := [];
    var i := 0;
    while i < rows
      invariant 0 <= i <= Max0(rows)
      invariant |grid| == i
      invariant forall k :: 0 <= k < |grid| ==> |grid[k]| == Max0(cols)
      invariant AllEmpty(grid)
    {
      var row: seq<int> := [];
      var j := 0;
      while j < cols
        invariant 0 <= j <= Max0(cols)
        invariant |row| == j
        invariant forall k :: 0 <= k < |row| ==> row[k] == Empty
      {
        row := row + [Empty];
        j := j + 1;
      }
      grid := grid + [row];
      i := i + 1;
    }
    return Ok(grid);
  }

  /** `initializeEnvironment`: checks that the bounds and the tile size are
      set, sizes the player from the tile size, then builds the grid. */
  method InitializeEnvironment(cfg: Config) returns (r: Outcome<Session>)
    ensures r == Err(SizeUndefined) <==> cfg.width.Undefined? || cfg.height.Undefined?
    ensures r == Err(TileSizeUndefined) <==>
      cfg.width.Defined? && cfg.height.Defined? && cfg.tileSize.Undefined?
    ensures r == Err(BoundsMisaligned) <==>
      cfg.width.Defined? && cfg.height.Defined? && cfg.tileSize.Defined? &&
      !(Aligned(cfg.width.value, cfg.tileSize.value) && Aligned(cfg.height.value, cfg.tileSize.value))
    ensures r.Ok? ==>
      && cfg.width.Defined? && cfg.height.Defined? && cfg.tileSize.Defined?
      && r.value.env == Env(cfg.width.value, cfg.height.value, cfg.tileSize.value, cfg.bottomCollision)
    ensures r.Ok? ==> |r.value.grid| == Max0(JsQuot(r.value.env.height, r.value.env.tileSize))
    ensures r.Ok? ==> forall i :: 0 <= i < |r.value.grid| ==>
      |r.value.grid[i]| == Max0(JsQuot(r.value.env.width, r.value.env.tileSize))
    ensures r.Ok? ==> AllEmpty(r.value.grid)
    ensures r.Ok? ==> r.value.player.w == 2.0 * r.value.env.tileSize as real
    ensures r.Ok? ==> r.value.player.h == 4.0 * r.value.env.tileSize as real
    ensures r.Ok? ==> r.value.player == InitialPlayer(r.value.env.tileSize)
  {
    if cfg.width.Undefined? || cfg.height.Undefined? {
      return Err(SizeUndefined);
    }
    if cfg.tileSize.Undefined? {
      return Err(TileSizeUndefined);
    }
    var env := Env(cfg.width.value, cfg.height.value, cfg.tileSize.value, cfg.bottomCollision);
    var player := InitialPlayer(env.tileSize);
    var tiles := InitializeTiles(env.width, env.height, env.tileSize);
    if tiles.Err? {
      return Err(tiles.error);
    }
    return Ok(Session(env, tiles.value, player));
  }

  /** A grid cell that holds a tile, with its position and catalog index. */
  datatype Cell = Cell(row: nat, col: nat, tile: nat)

  predicate IsTileCell(grid: Grid, c: Cell) {
    c.row < |grid| && c.col < |grid[c.row]| && grid[c.row][c.col] == c.tile
  }

  /** Row-major order: top to bottom, then left to right. */
  predicate RowMajorBefore(a: Cell, b: Cell) {
    a.row < b.row || (a.row == b.row && a.col < b.col)
  }

  predicate RowMajorSorted(cs: seq<Cell>) {
    forall a, b :: 0 <= a < b < |cs| ==> RowMajorBefore(cs[a], cs[b])
  }

  /** The non-empty cells of row `i`, left to right. */
  function RowCells(i: nat, row: seq<int>): (cs: seq<Cell>)
    ensures forall c :: c in cs <==> c.row == i && c.col < |row| && row[c.col] == c.tile
    ensures forall a, b :: 0 <= a < b < |cs| ==> cs[a].row == i && cs[a].col < cs[b].col
    decreases |row|
  {
    if |row| == 0 then []
    else
      var last := |row| - 1;
      var prefix := RowCells(i, row[..last]);
      assert forall c :: c in prefix ==> c.col < last;
      prefix + (if row[last] >= 0 then [Cell(i, last, row[last])] else [])
  }

  /** The cells the collision passes visit, in the order they visit them:
      every non-empty cell, in row-major order, each once. */
  function GridCells(grid: Grid): (cs: seq<Cell>)
    ensures forall c :: c in cs <==> IsTileCell(grid, c)
    ensures RowMajorSorted(cs)
    ensures forall c :: c in cs ==> c.row < |grid|
    decreases |grid|
  {
    if |grid| == 0 then []
    else
      var last := |grid| - 1;
      var prefix := GridCells(grid[..last]);
      var tail := RowCells(last, grid[last]);
      assert forall c :: IsTileCell(grid[..last], c) <==> IsTileCell(grid, c) && c.row < last;
      prefix + tail
  }

  /** A freshly initialized grid gives the collision passes nothing to visit. */
  lemma EmptyGridHasNoCells(grid: Grid)
    requires AllEmpty(grid)
    ensures GridCells(grid) == []
  {
    var cs := GridCells(grid);
    if cs != [] {
      HeadIsMember(cs);
    }
  }

  lemma HeadIsMember<T>(s: seq<T>)
    requires s != []
    ensures s[0] in s
  {
  }
}
