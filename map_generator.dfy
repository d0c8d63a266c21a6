/**
 * The map generator of the dungeon map engine: a width x height grid of wall
 * and floor cells, indexed tilemap[x, y], into which `Generate` carves
 * rectangular rooms joined by L-shaped corridors, and which `Draw` turns into
 * an ordered list of draw commands for the part a camera can see.
 *
 * The random numbers the generator draws are given to it as a list of
 * samples, and a draw command stands for the blit (or the fallback filled
 * rectangle when no tile is selected) the game makes on its screen.
 */
module MapGeneration {
  import opened Wrappers
  import opened Arith
  import opened TileSelection

  /** A grid cell: Wall is the source's 0, Floor its 1. */
  datatype Cell = Wall | Floor

  datatype Point = Point(x: int, y: int)

  /** Halves n rounding toward zero, as the C division inside a pygame Rect does. */
  function HalfTowardZero(n: int): int {
    if 0 <= n then n / 2 else -((-n) / 2)
  }

  /** A room: the rectangle of cells [x, x + w) x [y, y + h), as a pygame Rect. */
  datatype Rect = Rect(x: int, y: int, w: int, h: int)
  {
    predicate Contains(p: Point) {
      x <= p.x < x + w && y <= p.y < y + h
    }

    /** The Rect's centre; a room at least one cell wide and high contains it. */
    function Center(): (c: Point)
      ensures 1 <= w && 1 <= h ==> Contains(c)
    {
      Point(x + HalfTowardZero(w), y + HalfTowardZero(h))
    }
  }

  /** The four random numbers drawn for one room, in the order they are drawn. */
  datatype Sample = Sample(w: int, h: int, x: int, y: int)
  {
    function Room(): Rect {
      Rect(x, y, w, h)
    }
  }

  /** v is visited by a walk from `from` toward `to` in unit steps that stops before `to`. */
  predicate HalfOpen(from: int, to: int, v: int) {
    if from < to then from <= v < to else to < v <= from
  }

  /** The cells a corridor from `start` to `end` carves: along row start.y, then down or up column end.x. */
  predicate OnCorridor(start: Point, end: Point, p: Point) {
    || (p.y == start.y && HalfOpen(start.x, end.x, p.x))
    || (p.x == end.x && HalfOpen(start.y, end.y, p.y))
  }

  predicate Spans(a: int, b: int, v: int) {
    Min(a, b) <= v <= Max(a, b)
  }

  /** The whole L from `start` to `end`, both ends and the corner included. */
  predicate OnClosedL(start: Point, end: Point, p: Point) {
    || (p.y == start.y && Spans(start.x, end.x, p.x))
    || (p.x == end.x && Spans(start.y, end.y, p.y))
  }

  /** A corridor carves exactly its closed L except the end point itself. */
  lemma CorridorIsLWithoutEnd(start: Point, end: Point, p: Point)
    ensures OnCorridor(start, end, p) <==> OnClosedL(start, end, p) && p != end
  {
  }

  /**
   * The cells carved by placing `rooms` in order: every room, and for every room
   * after the first the corridor from the previous room's centre to its own.
   */
  predicate Carved(rooms: seq<Rect>, p: Point)
    decreases |rooms|
  {
    var n := |rooms|;
    && 0 < n
    && (|| Carved(rooms[..n - 1], p)
        || rooms[n - 1].Contains(p)
        || (1 < n && OnCorridor(rooms[n - 2].Center(), rooms[n - 1].Center(), p)))
  }

  /** Placing one more room carves that room and the corridor to it, and keeps what was carved. */
  lemma CarvedSnoc(rooms: seq<Rect>, room: Rect, p: Point)
    ensures Carved(rooms + [room], p) <==>
      || Carved(rooms, p)
      || room.Contains(p)
      || (0 < |rooms| && OnCorridor(rooms[|rooms| - 1].Center(), room.Center(), p))
  {
    assert (rooms + [room])[..|rooms|] == rooms;
  }

  /** A room, or the corridor that joins it to the room before, is carved by the whole sequence. */
  lemma {:induction false} StepCarved(rooms: seq<Rect>, i: int, p: Point)
    requires 0 <= i < |rooms|
    requires rooms[i].Contains(p) || (0 < i && OnCorridor(rooms[i - 1].Center(), rooms[i].Center(), p))
    ensures Carved(rooms, p)
    decreases |rooms|
  {
    var n := |rooms|;
    if i < n - 1 {
      var init := rooms[..n - 1];
      assert init[i] == rooms[i];
      if 0 < i {
        assert init[i - 1] == rooms[i - 1];
      }
      StepCarved(init, i, p);
    }
  }

  /** Every cell carved is one of a room or of a corridor between consecutive rooms. */
  lemma {:induction false} CarvedIsRoomOrCorridor(rooms: seq<Rect>, p: Point) returns (i: int)
    requires Carved(rooms, p)
    ensures 0 <= i < |rooms|
    ensures rooms[i].Contains(p) || (0 < i && OnCorridor(rooms[i - 1].Center(), rooms[i].Center(), p))
    decreases |rooms|
  {
    var n := |rooms|;
    var init := rooms[..n - 1];
    if Carved(init, p) {
      i := CarvedIsRoomOrCorridor(init, p);
      assert init[i] == rooms[i];
      if 0 < i {
        assert init[i - 1] == rooms[i - 1];
      }
    } else {
      i := n - 1;
    }
  }

  /** The room lies in the grid with at least one cell of border on every side. */
  predicate RoomInside(r: Rect, width: int, height: int) {
    && 1 <= r.w && 1 <= r.h
    && 1 <= r.x && r.x + r.w <= width - 1
    && 1 <= r.y && r.y + r.h <= height - 1
  }

  /** Rooms that keep off the border, and the corridors between their centres, never touch it. */
  lemma CarvedInside(rooms: seq<Rect>, width: int, height: int, p: Point)
    requires forall i :: 0 <= i < |rooms| ==> RoomInside(rooms[i], width, height)
    requires Carved(rooms, p)
    ensures 1 <= p.x < width - 1 && 1 <= p.y < height - 1
  {
    var i := CarvedIsRoomOrCorridor(rooms, p);
    if !rooms[i].Contains(p) {
      var a, b := rooms[i - 1].Center(), rooms[i].Center();
      assert rooms[i - 1].Contains(a) && rooms[i].Contains(b);
    }
  }

  /** Consecutive room centres are joined by carved cells along the whole closed L between them. */
  lemma CentresJoined(rooms: seq<Rect>, i: int, p: Point)
    requires 0 < i < |rooms| && 1 <= rooms[i].w && 1 <= rooms[i].h
    requires OnClosedL(rooms[i - 1].Center(), rooms[i].Center(), p)
    ensures Carved(rooms, p)
  {
    var end := rooms[i].Center();
    CorridorIsLWithoutEnd(rooms[i - 1].Center(), end, p);
    StepCarved(rooms, i, p);
  }

  /** What a draw command paints: a floor tile or a wall tile. */
  datatype Layer = FloorLayer | WallLayer

  /**
   * One draw at a screen position: the selected tile, or, when the selection
   * names no tile, the layer's flat fallback square of the tile size.
   */
  datatype DrawCommand = DrawCommand(layer: Layer, screenX: int, screenY: int, tile: Option<Tile>)

  /**
   * The range [start, end) of cell indices along one axis that the source draws
   * for a camera at pixel `camera` and a screen `screen` pixels long. Python's
   * floor division equals Dafny's division here since the tile size is positive.
   */
  function VisibleSpan(camera: int, screen: nat, ts: nat, cells: nat): (span: (int, int))
    requires 0 < ts
    ensures 0 <= span.0 && span.1 <= cells
  {
    (Max(0, camera / ts), Min(cells, (camera + screen) / ts + 1))
  }

  /** A cell is drawn exactly when its tile meets the screen's pixel range [camera, camera + screen]. */
  lemma VisibleIffOnScreen(camera: int, screen: nat, ts: nat, cells: nat, c: int)
    requires 0 < ts && 0 <= c < cells
    ensures var span := VisibleSpan(camera, screen, ts, cells);
      span.0 <= c < span.1 <==> camera < (c + 1) * ts && c * ts <= camera + screen
  {
    DivBounds(camera, ts, c + 1);
    DivBounds(camera + screen, ts, c);
  }

  /** The camera position and the cell window [startX, endX) x [startY, endY) one frame draws. */
  datatype View = View(cameraX: int, cameraY: int, startX: int, endX: int, startY: int, endY: int)

  /** c comes before d in the draw order: by column first, then by row. */
  predicate ScreenBefore(c: DrawCommand, d: DrawCommand) {
    c.screenX < d.screenX || (c.screenX == d.screenX && c.screenY < d.screenY)
  }

  predicate OnLayer(cs: seq<DrawCommand>, layer: Layer) {
    forall i :: 0 <= i < |cs| ==> cs[i].layer == layer
  }

  /** Every command is at screen column `sx`, above screen row `sy`. */
  predicate InColumnAbove(cs: seq<DrawCommand>, sx: int, sy: int) {
    forall i :: 0 <= i < |cs| ==> cs[i].screenX == sx && cs[i].screenY < sy
  }

  /** Every command is left of screen column `sx`. */
  predicate LeftOf(cs: seq<DrawCommand>, sx: int) {
    forall i :: 0 <= i < |cs| ==> cs[i].screenX < sx
  }

  /** The commands are strictly in draw order, so no position is drawn twice. */
  predicate InDrawOrder(cs: seq<DrawCommand>) {
    forall i, j :: 0 <= i < j < |cs| ==> ScreenBefore(cs[i], cs[j])
  }

  /** The sampled values `Generate` is given lie in the ranges the source draws them from. */
  predicate SampleInRange(s: Sample, width: int, height: int, minSize: int, maxSize: int) {
    && minSize <= s.w <= maxSize
    && minSize <= s.h <= maxSize
    && 1 <= s.x <= width - s.w - 1
    && 1 <= s.y <= height - s.h - 1
  }

  class MapGenerator {
    const width: nat
    const height: nat
    const tileSize: nat
    /** How many rooms `Generate` places and the range their sides are drawn from; callers may change them. */
    var roomCount: nat
    var roomMinSize: nat
    var roomMaxSize: nat

    /** The grid, tilemap[x, y] for 0 <= x < width and 0 <= y < height. */
    const tilemap: array2<Cell>
    /** The rooms placed by the last `Generate`, in order. */
    var rooms: seq<Rect>

    const tileSelector: TileSelector
    var floorTileset: int
    var floorTile: int
    var wallTileset: int
    var wallTile: int

    ghost predicate Valid() {
      tilemap.Length0 == width && tilemap.Length1 == height && 0 < tileSize
    }

    predicate InBounds(x: int, y: int) {
      0 <= x < width && 0 <= y < height
    }

    /** An all-wall grid with no rooms, drawing with the given tile selections. */
    constructor (width: nat, height: nat, tileSize: nat, tileSelector: TileSelector,
                 floorTileset: int, floorTile: int, wallTileset: int, wallTile: int)
      requires 0 < tileSize
      ensures Valid() && fresh(tilemap)
      ensures this.width == width && this.height == height && this.tileSize == tileSize
      ensures roomCount == 5 && roomMinSize == 6 && roomMaxSize == 15
      ensures this.tileSelector == tileSelector && rooms == []
      ensures this.floorTileset == floorTileset && this.floorTile == floorTile
      ensures this.wallTileset == wallTileset && this.wallTile == wallTile
      ensures forall x, y :: 0 <= x < width && 0 <= y < height ==> tilemap[x, y] == Wall
    {
      this.width := width;
      this.height := height;
      this.tileSize := tileSize;
      roomCount, roomMinSize, roomMaxSize := 5, 6, 15;
      tilemap := new Cell[width, height]((x, y) => Wall);
      rooms := [];
      this.tileSelector := tileSelector;
      this.floorTileset := floorTileset;
      this.floorTile := floorTile;
      this.wallTileset := wallTileset;
      this.wallTile := wallTile;
    }

    /** Selects the tiles drawn for floor and wall; the grid and the rooms stay as they are. */
    method SetTiles(floorTileset: int, floorTile: int, wallTileset: int, wallTile: int)
      modifies this`floorTileset, this`floorTile, this`wallTileset, this`wallTile
      ensures this.floorTileset == floorTileset && this.floorTile == floorTile
      ensures this.wallTileset == wallTileset && this.wallTile == wallTile
      ensures rooms == old(rooms) && unchanged(tilemap)
    {
      this.floorTileset := floorTileset;
      this.floorTile := floorTile;
      this.wallTileset := wallTileset;
      this.wallTile := wallTile;
    }

    /** The first phase of `Generate`: forget the rooms and turn every cell to wall. */
    method ResetMap()
      requires Valid()
      modifies this`rooms, tilemap
      ensures rooms == []
      ensures forall x, y :: 0 <= x < width && 0 <= y < height ==> tilemap[x, y] == Wall
    {
      rooms := [];
      for x := 0 to width
        invariant rooms == []
        invariant forall i, j :: 0 <= i < x && 0 <= j < height ==> tilemap[i, j] == Wall
      {
        for y := 0 to height
          invariant rooms == []
          invariant forall i, j :: 0 <= i < width && 0 <= j < height && (i < x || (i == x && j < y)) ==> tilemap[i, j] == Wall
        {
          tilemap[x, y] := Wall;
        }
      }
    }

    /** Turns to floor exactly the cells of `room` that lie in the grid. */
    method CreateRoom(room: Rect)
      requires Valid()
      modifies tilemap
      ensures forall x, y :: 0 <= x < width && 0 <= y < height ==>
        tilemap[x, y] == if room.Contains(Point(x, y)) then Floor else old(tilemap[x, y])
    {
      var x := room.x;
      while x < room.x + room.w
        invariant room.x <= x <= Max(room.x, room.x + room.w)
        invariant forall i, j :: 0 <= i < width && 0 <= j < height ==>
          tilemap[i, j] == if room.x <= i < x && room.Contains(Point(i, j)) then Floor else old(tilemap[i, j])
      {
        var y := room.y;
        while y < room.y + room.h
          invariant room.y <= y <= Max(room.y, room.y + room.h)
          invariant forall i, j :: 0 <= i < width && 0 <= j < height ==>
            tilemap[i, j] == if (room.x <= i < x || (i == x && j < y)) && room.Contains(Point(i, j)) then Floor else old(tilemap[i, j])
        {
          if 0 <= x < width && 0 <= y < height {
            tilemap[x, y] := Floor;
          }
          y := y + 1;
        }
        x := x + 1;
      }
    }

    /**
     * Carves the L-shaped corridor from `start` to `end`: the cells of row start.y
     * from start.x up to but not including end.x, then the cells of column end.x
     * from start.y up to but not including end.y; cells outside the grid are skipped.
     */
    method CreateCorridor(start: Point, end: Point)
      requires Valid()
      modifies tilemap
      ensures forall x, y :: 0 <= x < width && 0 <= y < height ==>
        tilemap[x, y] == if OnCorridor(start, end, Point(x, y)) then Floor else old(tilemap[x, y])
    {
      var x1, y1 := start.x, start.y;
      var x2, y2 := end.x, end.y;

      var stepX := if x1 < x2 then 1 else -1;
      var x := x1;
      while x != x2
        invariant Spans(x1, x2, x) && (x != x1 ==> HalfOpen(x1, x2, x - stepX))
        invariant forall i, j :: 0 <= i < width && 0 <= j < height ==>
          tilemap[i, j] == if j == y1 && HalfOpen(x1, x2, i) && !HalfOpen(x, x2, i) then Floor else old(tilemap[i, j])
        decreases if x < x2 then x2 - x else x - x2
      {
        if 0 <= x < width && 0 <= y1 < height {
          tilemap[x, y1] := Floor;
        }
        x := x + stepX;
      }

      var stepY := if y1 < y2 then 1 else -1;
      var y := y1;
      while y != y2
        invariant Spans(y1, y2, y)
        invariant forall i, j :: 0 <= i < width && 0 <= j < height ==>
          tilemap[i, j] ==
            if (j == y1 && HalfOpen(x1, x2, i)) || (i == x2 && HalfOpen(y1, y2, j) && !HalfOpen(y, y2, j)) then Floor
            else old(tilemap[i, j])
        decreases if y < y2 then y2 - y else y - y2
      {
        if 0 <= x2 < width && 0 <= y < height {
          tilemap[x2, y] := Floor;
        }
        y := y + stepY;
      }
    }

    /**
     * A grid whose floor cells are exactly those carved by rooms that keep off
     * the border has every room cell on the floor, a wall all along its border,
     * and a floor path along the closed L between consecutive room centres.
     */
    lemma CarvedGridFacts()
      requires Valid()
      requires forall i :: 0 <= i < |rooms| ==> RoomInside(rooms[i], width, height)
      requires forall x, y :: 0 <= x < width && 0 <= y < height ==>
        (tilemap[x, y] == Floor <==> Carved(rooms, Point(x, y)))
      ensures forall i, x, y :: 0 <= i < |rooms| && rooms[i].Contains(Point(x, y)) ==>
        InBounds(x, y) && tilemap[x, y] == Floor
      ensures forall x, y :: 0 <= x < width && 0 <= y < height && (x == 0 || x == width - 1 || y == 0 || y == height - 1) ==>
        tilemap[x, y] == Wall
      ensures forall i, x, y :: 0 < i < |rooms| && OnClosedL(rooms[i - 1].Center(), rooms[i].Center(), Point(x, y)) ==>
        InBounds(x, y) && tilemap[x, y] == Floor
    {
      forall i, x, y | 0 <= i < |rooms| && rooms[i].Contains(Point(x, y))
        ensures InBounds(x, y) && tilemap[x, y] == Floor
      {
        StepCarved(rooms, i, Point(x, y));
        CarvedInside(rooms, width, height, Point(x, y));
      }
      forall x, y | 0 <= x < width && 0 <= y < height && tilemap[x, y] == Floor
        ensures 1 <= x < width - 1 && 1 <= y < height - 1
      {
        CarvedInside(rooms, width, height, Point(x, y));
      }
      forall i, x, y | 0 < i < |rooms| && OnClosedL(rooms[i - 1].Center(), rooms[i].Center(), Point(x, y))
        ensures InBounds(x, y) && tilemap[x, y] == Floor
      {
        CentresJoined(rooms, i, Point(x, y));
        CarvedInside(rooms, width, height, Point(x, y));
      }
    }

    /**
     * One step of `Generate`: appends `room`, carves it, and, when a room was
     * placed before, carves the corridor from that room's centre to this one's.
     * A grid whose floor is what the placed rooms carve stays so.
     */
    method PlaceRoom(room: Rect)
      requires Valid()
      requires forall x, y :: 0 <= x < width && 0 <= y < height ==>
        (tilemap[x, y] == Floor <==> Carved(rooms, Point(x, y)))
      modifies this`rooms, tilemap
      ensures rooms == old(rooms) + [room]
      ensures forall x, y :: 0 <= x < width && 0 <= y < height ==>
        (tilemap[x, y] == Floor <==> Carved(rooms, Point(x, y)))
    {
      ghost var placed := rooms;
      rooms := rooms + [room];
      label Placed:
      CreateRoom(room);
      label Roomed:
      if 1 < |rooms| {
        CreateCorridor(rooms[|rooms| - 2].Center(), room.Center());
      }
      forall x, y | 0 <= x < width && 0 <= y < height
        ensures tilemap[x, y] == Floor <==> Carved(rooms, Point(x, y))
      {
        var p := Point(x, y);
        CarvedSnoc(placed, room, p);
        assert old@Placed(tilemap[x, y]) == Floor <==> Carved(placed, p);
        assert old@Roomed(tilemap[x, y]) == Floor <==> Carved(placed, p) || room.Contains(p);
      }
    }

    /**
     * Builds a fresh dungeon: resets the grid, then places `roomCount` rooms from
     * the samples, carving each one and the corridor from the previous room's
     * centre to its own.
     */
    method Generate(samples: seq<Sample>)
      requires Valid()
      requires |samples| == roomCount
      requires forall i :: 0 <= i < |samples| ==>
        SampleInRange(samples[i], width, height, roomMinSize, roomMaxSize)
      modifies this`rooms, tilemap
      ensures |rooms| == roomCount
      ensures forall i :: 0 <= i < |rooms| ==> rooms[i] == samples[i].Room()
      ensures forall i :: 0 <= i < |rooms| ==>
        roomMinSize <= rooms[i].w <= roomMaxSize && roomMinSize <= rooms[i].h <= roomMaxSize
      ensures forall x, y :: 0 <= x < width && 0 <= y < height ==>
        (tilemap[x, y] == Floor <==> Carved(rooms, Point(x, y)))
      // With rooms at least one cell a side, as the default sizes give, rooms keep
      // off the border, and so do the corridors between their centres.
      ensures 0 < roomMinSize ==> forall i :: 0 <= i < |rooms| ==> RoomInside(rooms[i], width, height)
      ensures 0 < roomMinSize ==> forall i, x, y :: 0 <= i < |rooms| && rooms[i].Contains(Point(x, y)) ==>
        InBounds(x, y) && tilemap[x, y] == Floor
      ensures 0 < roomMinSize ==> forall x, y :: 0 <= x < width && 0 <= y < height && (x == 0 || x == width - 1 || y == 0 || y == height - 1) ==>
        tilemap[x, y] == Wall
      ensures 0 < roomMinSize ==> forall i, x, y :: 0 < i < |rooms| && OnClosedL(rooms[i - 1].Center(), rooms[i].Center(), Point(x, y)) ==>
        InBounds(x, y) && tilemap[x, y] == Floor
    {
      ResetMap();
      for i := 0 to roomCount
        invariant |rooms| == i
        invariant forall k :: 0 <= k < i ==> rooms[k] == samples[k].Room()
        invariant forall x, y :: 0 <= x < width && 0 <= y < height ==>
          (tilemap[x, y] == Floor <==> Carved(rooms, Point(x, y)))
      {
        var s := samples[i];
        PlaceRoom(Rect(s.x, s.y, s.w, s.h));
      }
      if 0 < roomMinSize {
        forall i | 0 <= i < |rooms|
          ensures RoomInside(rooms[i], width, height)
        {
          assert SampleInRange(samples[i], width, height, roomMinSize, roomMaxSize);
        }
        CarvedGridFacts();
      }
    }

    /** The view one frame draws for a camera at (cameraX, cameraY) and a screen of screenW x screenH pixels. */
    function ViewOf(cameraX: int, cameraY: int, screenW: nat, screenH: nat): (v: View)
      requires Valid()
      ensures 0 <= v.startX && v.endX <= width && 0 <= v.startY && v.endY <= height
    {
      var (startX, endX) := VisibleSpan(cameraX, screenW, tileSize, width);
      var (startY, endY) := VisibleSpan(cameraY, screenH, tileSize, height);
      View(cameraX, cameraY, startX, endX, startY, endY)
    }

    predicate Fits(v: View) {
      0 <= v.startX && v.endX <= width && 0 <= v.startY && v.endY <= height
    }

    /** The tile selected for a layer, or None when the selection names no loaded tile. */
    function LayerTile(layer: Layer): Option<Tile>
      reads this
    {
      match layer
      case FloorLayer => tileSelector.GetTile(floorTileset, floorTile)
      case WallLayer => tileSelector.GetTile(wallTileset, wallTile)
    }

    /** The command drawing cell (x, y) at its screen position: grid position times tile size, less the camera. */
    function CommandAt(layer: Layer, tile: Option<Tile>, v: View, x: int, y: int): DrawCommand {
      DrawCommand(layer, x * tileSize - v.cameraX, y * tileSize - v.cameraY, tile)
    }

    /**
     * Whether cell (x, y) is drawn on a layer: on the floor layer every floor
     * cell; on the wall layer a wall cell only when the cell below it is floor.
     */
    predicate Shows(layer: Layer, x: int, y: int)
      reads this, tilemap
      requires Valid() && InBounds(x, y)
    {
      match layer
      case FloorLayer => tilemap[x, y] == Floor
      case WallLayer => tilemap[x, y] == Wall && y < height - 1 && tilemap[x, y + 1] == Floor
    }

    /** The commands of one layer for column x, for the rows of the view above row y, top to bottom. */
    function ColumnCommands(layer: Layer, tile: Option<Tile>, v: View, x: int, y: int): seq<DrawCommand>
      reads this, tilemap
      requires Valid() && Fits(v) && 0 <= x < width && y <= v.endY
      decreases y - v.startY
    {
      if y <= v.startY then []
      else
        ColumnCommands(layer, tile, v, x, y - 1)
        + (if Shows(layer, x, y - 1) then [CommandAt(layer, tile, v, x, y - 1)] else [])
    }

    /** The commands of one layer for the columns of the view left of column x, column by column. */
    function LayerCommands(layer: Layer, tile: Option<Tile>, v: View, x: int): seq<DrawCommand>
      reads this, tilemap
      requires Valid() && Fits(v) && x <= v.endX
      decreases x - v.startX
    {
      if x <= v.startX then []
      else LayerCommands(layer, tile, v, x - 1) + ColumnCommands(layer, tile, v, x - 1, v.endY)
    }

    /** Everything one frame draws: the floor layer, then the wall layer. */
    function Frame(cameraX: int, cameraY: int, screenW: nat, screenH: nat): seq<DrawCommand>
      reads this, tilemap
      requires Valid()
    {
      var v := ViewOf(cameraX, cameraY, screenW, screenH);
      LayerCommands(FloorLayer, LayerTile(FloorLayer), v, v.endX)
      + LayerCommands(WallLayer, LayerTile(WallLayer), v, v.endX)
    }

    lemma CommandAtInjective(layer: Layer, tile: Option<Tile>, v: View, a: int, b: int, x: int, y: int)
      requires Valid() && CommandAt(layer, tile, v, a, b) == CommandAt(layer, tile, v, x, y)
      ensures a == x && b == y
    {
      if a < x { MulStrict(a, x, tileSize); }
      if x < a { MulStrict(x, a, tileSize); }
      if b < y { MulStrict(b, y, tileSize); }
      if y < b { MulStrict(y, b, tileSize); }
    }

    /** A column's commands are those of its cells in the view above row y that the layer shows. */
    lemma {:induction false} ColumnCommandsIff(layer: Layer, tile: Option<Tile>, v: View, x: int, y: int, a: int, b: int)
      requires Valid() && Fits(v) && 0 <= x < width && y <= v.endY
      ensures CommandAt(layer, tile, v, a, b) in ColumnCommands(layer, tile, v, x, y) <==>
        a == x && v.startY <= b < y && Shows(layer, a, b)
      decreases y - v.startY
    {
      if v.startY < y {
        ColumnCommandsIff(layer, tile, v, x, y - 1, a, b);
        if CommandAt(layer, tile, v, a, b) == CommandAt(layer, tile, v, x, y - 1) {
          CommandAtInjective(layer, tile, v, a, b, x, y - 1);
        }
      }
    }

    /** A layer's commands are those of the cells of the view left of column x that the layer shows. */
    lemma {:induction false} LayerCommandsIff(layer: Layer, tile: Option<Tile>, v: View, x: int, a: int, b: int)
      requires Valid() && Fits(v) && x <= v.endX
      ensures CommandAt(layer, tile, v, a, b) in LayerCommands(layer, tile, v, x) <==>
        v.startX <= a < x && v.startY <= b < v.endY && Shows(layer, a, b)
      decreases x - v.startX
    {
      if v.startX < x {
        ColumnCommandsIff(layer, tile, v, x - 1, v.endY, a, b);
        LayerCommandsIff(layer, tile, v, x - 1, a, b);
      }
    }

    /** Every command of a column is the command of a cell of that column above row y that the layer shows. */
    lemma {:induction false} ColumnCommandsOnlyCells(layer: Layer, tile: Option<Tile>, v: View, x: int, y: int, c: DrawCommand)
      requires Valid() && Fits(v) && 0 <= x < width && y <= v.endY
      requires c in ColumnCommands(layer, tile, v, x, y)
      ensures exists b :: v.startY <= b < y && Shows(layer, x, b) && c == CommandAt(layer, tile, v, x, b)
      decreases y - v.startY
    {
      if c in ColumnCommands(layer, tile, v, x, y - 1) {
        ColumnCommandsOnlyCells(layer, tile, v, x, y - 1, c);
      } else {
        assert Shows(layer, x, y - 1) && c == CommandAt(layer, tile, v, x, y - 1);
      }
    }

    /** Every command of a layer is the command of a cell of the view left of column x that the layer shows. */
    lemma {:induction false} LayerCommandsOnlyCells(layer: Layer, tile: Option<Tile>, v: View, x: int, c: DrawCommand)
      requires Valid() && Fits(v) && x <= v.endX
      requires c in LayerCommands(layer, tile, v, x)
      ensures exists a, b ::
                v.startX <= a < x && v.startY <= b < v.endY && Shows(layer, a, b)
                && c == CommandAt(layer, tile, v, a, b)
      decreases x - v.startX
    {
      if c in LayerCommands(layer, tile, v, x - 1) {
        LayerCommandsOnlyCells(layer, tile, v, x - 1, c);
      } else {
        ColumnCommandsOnlyCells(layer, tile, v, x - 1, v.endY, c);
      }
    }

    /** A column's commands belong to the layer, sit in column x above row y, and go down the column. */
    lemma {:induction false} ColumnCommandsOrdered(layer: Layer, tile: Option<Tile>, v: View, x: int, y: int)
      requires Valid() && Fits(v) && 0 <= x < width && y <= v.endY
      ensures OnLayer(ColumnCommands(layer, tile, v, x, y), layer)
      ensures InColumnAbove(ColumnCommands(layer, tile, v, x, y), x * tileSize - v.cameraX, y * tileSize - v.cameraY)
      ensures InDrawOrder(ColumnCommands(layer, tile, v, x, y))
      decreases y - v.startY
    {
      if v.startY < y {
        ColumnCommandsOrdered(layer, tile, v, x, y - 1);
        assert (y - 1) * tileSize == y * tileSize - tileSize;
        var rest := ColumnCommands(layer, tile, v, x, y - 1);
        var last := if Shows(layer, x, y - 1) then [CommandAt(layer, tile, v, x, y - 1)] else [];
        var cs := rest + last;
        assert cs == ColumnCommands(layer, tile, v, x, y);
        forall i | 0 <= i < |cs|
          ensures cs[i].layer == layer && cs[i].screenX == x * tileSize - v.cameraX
          ensures cs[i].screenY < y * tileSize - v.cameraY
        {
          if i < |rest| {
            assert cs[i] == rest[i];
          } else {
            assert cs[i] == last[i - |rest|];
          }
        }
        forall i, j | 0 <= i < j < |cs|
          ensures ScreenBefore(cs[i], cs[j])
        {
          if j < |rest| {
            assert cs[i] == rest[i] && cs[j] == rest[j];
          } else {
            assert cs[i] == rest[i] && cs[j] == last[j - |rest|];
          }
        }
      }
    }

    /** A layer's commands belong to the layer, lie left of column x, and are in column-then-row order. */
    lemma {:induction false} LayerCommandsOrdered(layer: Layer, tile: Option<Tile>, v: View, x: int)
      requires Valid() && Fits(v) && x <= v.endX
      ensures OnLayer(LayerCommands(layer, tile, v, x), layer)
      ensures LeftOf(LayerCommands(layer, tile, v, x), x * tileSize - v.cameraX)
      ensures InDrawOrder(LayerCommands(layer, tile, v, x))
      decreases x - v.startX
    {
      if v.startX < x {
        LayerCommandsOrdered(layer, tile, v, x - 1);
        ColumnCommandsOrdered(layer, tile, v, x - 1, v.endY);
        assert (x - 1) * tileSize == x * tileSize - tileSize;
        var rest, column := LayerCommands(layer, tile, v, x - 1), ColumnCommands(layer, tile, v, x - 1, v.endY);
        var cs := rest + column;
        assert cs == LayerCommands(layer, tile, v, x);
        forall i | 0 <= i < |cs|
          ensures cs[i].layer == layer && cs[i].screenX < x * tileSize - v.cameraX
        {
          if i < |rest| {
            assert cs[i] == rest[i];
          } else {
            assert cs[i] == column[i - |rest|];
          }
        }
        forall i, j | 0 <= i < j < |cs|
          ensures ScreenBefore(cs[i], cs[j])
        {
          if j < |rest| {
            assert cs[i] == rest[i] && cs[j] == rest[j];
          } else if i < |rest| {
            assert cs[i] == rest[i] && cs[j] == column[j - |rest|];
          } else {
            assert cs[i] == column[i - |rest|] && cs[j] == column[j - |rest|];
          }
        }
      }
    }

    /**
     * A frame draws cell (x, y) on a layer exactly when the cell's tile meets the
     * screen on both axes and the layer shows the cell.
     */
    lemma FrameIff(cameraX: int, cameraY: int, screenW: nat, screenH: nat, layer: Layer, x: int, y: int)
      requires Valid() && InBounds(x, y)
      ensures var v := ViewOf(cameraX, cameraY, screenW, screenH);
        CommandAt(layer, LayerTile(layer), v, x, y) in Frame(cameraX, cameraY, screenW, screenH) <==>
          && cameraX < (x + 1) * tileSize && x * tileSize <= cameraX + screenW
          && cameraY < (y + 1) * tileSize && y * tileSize <= cameraY + screenH
          && Shows(layer, x, y)
    {
      var v := ViewOf(cameraX, cameraY, screenW, screenH);
      VisibleIffOnScreen(cameraX, screenW, tileSize, width, x);
      VisibleIffOnScreen(cameraY, screenH, tileSize, height, y);
      LayerCommandsIff(layer, LayerTile(layer), v, v.endX, x, y);
      var other := if layer == FloorLayer then WallLayer else FloorLayer;
      LayerCommandsOrdered(other, LayerTile(other), v, v.endX);
    }

    /**
     * A frame draws nothing but cells: each of its commands draws, with its layer's
     * selected tile, an in-grid cell that is on screen on both axes and that the
     * layer shows.
     */
    lemma FrameOnlyCells(cameraX: int, cameraY: int, screenW: nat, screenH: nat, c: DrawCommand)
      requires Valid() && c in Frame(cameraX, cameraY, screenW, screenH)
      ensures exists x, y ::
                && InBounds(x, y)
                && cameraX < (x + 1) * tileSize && x * tileSize <= cameraX + screenW
                && cameraY < (y + 1) * tileSize && y * tileSize <= cameraY + screenH
                && Shows(c.layer, x, y)
                && c == CommandAt(c.layer, LayerTile(c.layer), ViewOf(cameraX, cameraY, screenW, screenH), x, y)
    {
      var v := ViewOf(cameraX, cameraY, screenW, screenH);
      var layer := if c in LayerCommands(FloorLayer, LayerTile(FloorLayer), v, v.endX) then FloorLayer else WallLayer;
      LayerCommandsOnlyCells(layer, LayerTile(layer), v, v.endX, c);
      var x, y :| v.startX <= x < v.endX && v.startY <= y < v.endY && Shows(layer, x, y)
        && c == CommandAt(layer, LayerTile(layer), v, x, y);
      VisibleIffOnScreen(cameraX, screenW, tileSize, width, x);
      VisibleIffOnScreen(cameraY, screenH, tileSize, height, y);
    }

    /** The commands of one layer, built by the source's nested loops: columns outside, rows inside. */
    method DrawLayer(layer: Layer, tile: Option<Tile>, v: View) returns (commands: seq<DrawCommand>)
      requires Valid() && Fits(v)
      ensures commands == LayerCommands(layer, tile, v, v.endX)
    {
      commands := [];
      var x := v.startX;
      while x < v.endX
        invariant v.startX <= x
        invariant commands == LayerCommands(layer, tile, v, Min(x, v.endX))
      {
        var y := v.startY;
        while y < v.endY
          invariant v.startY <= y
          invariant commands == LayerCommands(layer, tile, v, x) + ColumnCommands(layer, tile, v, x, Min(y, v.endY))
        {
          if Shows(layer, x, y) {
            commands := commands + [CommandAt(layer, tile, v, x, y)];
          }
          y := y + 1;
        }
        x := x + 1;
      }
    }

    /**
     * Draws the visible part of the map: every visible floor cell first, then
     * every visible wall cell with floor below it, each layer column by column.
     */
    method Draw(cameraX: int, cameraY: int, screenW: nat, screenH: nat) returns (commands: seq<DrawCommand>)
      requires Valid()
      ensures commands == Frame(cameraX, cameraY, screenW, screenH)
      ensures forall i, j :: 0 <= i < j < |commands| && commands[j].layer == FloorLayer ==>
        commands[i].layer == FloorLayer
      ensures forall i, j :: 0 <= i < j < |commands| && commands[i].layer == commands[j].layer ==>
        ScreenBefore(commands[i], commands[j])
    {
      var v := ViewOf(cameraX, cameraY, screenW, screenH);
      var floorImage := tileSelector.GetTile(floorTileset, floorTile);
      var wallImage := tileSelector.GetTile(wallTileset, wallTile);
      var floors := DrawLayer(FloorLayer, floorImage, v);
      var walls := DrawLayer(WallLayer, wallImage, v);
      commands := floors + walls;
      LayerCommandsOrdered(FloorLayer, floorImage, v, v.endX);
      LayerCommandsOrdered(WallLayer, wallImage, v, v.endX);
      forall i, j | 0 <= i < j < |commands|
        ensures commands[j].layer == FloorLayer ==> commands[i].layer == FloorLayer
        ensures commands[i].layer == commands[j].layer ==> ScreenBefore(commands[i], commands[j])
      {
        if j < |floors| {
          assert commands[i] == floors[i] && commands[j] == floors[j];
        } else if i < |floors| {
          assert commands[i] == floors[i] && commands[j] == walls[j - |floors|];
        } else {
          assert commands[i] == walls[i - |floors|] && commands[j] == walls[j - |floors|];
        }
      }
    }
  }

  /** The tileset path groups the generator probes, in order. */
  const TilesetSearchPaths: seq<seq<string>> := [
    ["assets/tileset1.png", "assets/tileset2.png"],
    ["Assets/tileset1.png", "Assets/tileset2.png"],
    ["tileset1.png", "tileset2.png"]
  ]

  /**
   * The tileset paths the generator loads: from the first group whose first
   * path exists, the paths of that group that exist; None when no group's
   * first path exists.
   */
  function ResolveTilesetPaths(groups: seq<seq<string>>, fs: FileSystem): (r: Option<seq<string>>)
    requires forall i :: 0 <= i < |groups| ==> 0 < |groups[i]|
    ensures r.None? <==> forall i :: 0 <= i < |groups| ==> groups[i][0] !in fs
    ensures r.Some? ==>
      exists i :: 0 <= i < |groups| && groups[i][0] in fs && r.value == Existing(groups[i], fs)
        && forall j :: 0 <= j < i ==> groups[j][0] !in fs
    decreases |groups|
  {
    if groups == [] then None
    else if groups[0][0] in fs then Some(Existing(groups[0], fs))
    else
      var r := ResolveTilesetPaths(groups[1..], fs);
      assert forall i :: 1 <= i < |groups| ==> groups[i] == groups[1..][i - 1];
      r
  }

  /** Why the generator could not be built. */
  datatype InitError = TilesetNotFound | TilesetLoadFailed(path: string)

  /**
   * Builds a generator as the source's constructor does: probe for the
   * tileset files, load them, and start from an all-wall grid with no rooms.
   */
  method NewMapGenerator(fs: FileSystem, width: nat := 50, height: nat := 50, tileSize: nat := DEFAULT_TILE_SIZE,
                         floorTileset: int := 0, floorTile: int := 0, wallTileset: int := 0, wallTile: int := 1)
    returns (r: Result<MapGenerator, InitError>)
    requires 0 < tileSize
    ensures ResolveTilesetPaths(TilesetSearchPaths, fs).None? ==> r == Failure(TilesetNotFound)
    ensures ResolveTilesetPaths(TilesetSearchPaths, fs).Some? ==>
      var paths := ResolveTilesetPaths(TilesetSearchPaths, fs).value;
      && (r.Failure? <==> FirstFailure(paths, fs).Some?)
      && (r.Failure? ==> r.error == TilesetLoadFailed(FirstFailure(paths, fs).value))
      && (r.Success? ==>
            r.value.tileSelector == TileSelector(tileSize, SheetsOf(Existing(paths, fs), fs, tileSize), NamesOf(Existing(paths, fs))))
    ensures r.Success? ==>
      && fresh(r.value) && fresh(r.value.tilemap) && r.value.Valid()
      && r.value.width == width && r.value.height == height && r.value.tileSize == tileSize
      && r.value.rooms == [] && r.value.tileSelector.Valid()
      && r.value.roomCount == 5 && r.value.roomMinSize == 6 && r.value.roomMaxSize == 15
      && 0 < r.value.tileSelector.GetTilesetCount()
      && r.value.floorTileset == floorTileset && r.value.floorTile == floorTile
      && r.value.wallTileset == wallTileset && r.value.wallTile == wallTile
      && forall x, y :: 0 <= x < width && 0 <= y < height ==> r.value.tilemap[x, y] == Wall
  {
    var found := ResolveTilesetPaths(TilesetSearchPaths, fs);
    if found.None? {
      return Failure(TilesetNotFound);
    }
    var paths := found.value;
    var loaded := Load(paths, fs, tileSize);
    assert ResolveTilesetPaths(TilesetSearchPaths, fs).value == paths;
    if loaded.Failure? {
      return Failure(TilesetLoadFailed(loaded.error.path));
    }
    ghost var i :| 0 <= i < |TilesetSearchPaths| && TilesetSearchPaths[i][0] in fs && paths == Existing(TilesetSearchPaths[i], fs);
    ExistingMembers(TilesetSearchPaths[i], fs, TilesetSearchPaths[i][0]);
    ExistingMembers(paths, fs, TilesetSearchPaths[i][0]);
    var generator := new MapGenerator(width, height, tileSize, loaded.value, floorTileset, floorTile, wallTileset, wallTile);
    return Success(generator);
  }
}
