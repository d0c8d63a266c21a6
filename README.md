# Dungeon map engine: generator and tile selector

This project models the two core classes of a small pygame dungeon engine and
proves properties of the model.

- `MapGenerator` keeps a `width` x `height` grid of cells, indexed
  `tilemap[x][y]`. Each cell is wall (0) or floor (1). `generate` clears the
  grid and carves `room_count` (5) random rectangular rooms. Each room after
  the first is joined to the one before it by an L-shaped corridor: first
  along the previous centre's row, then along the new centre's column. `draw`
  paints the part of the grid a camera can see. It paints every visible
  floor cell first. Then it paints every visible wall cell that has floor
  directly below it. Each layer goes column by column, top to bottom.
- `TileSelector` loads a list of sprite sheets. It skips paths that do not
  exist and aborts on a file that exists but does not decode. It cuts each
  sheet into `tile_size` square tiles, row by row. A lookup by (sheet, tile)
  returns `None` when either index is out of range.

Modules:

- `Wrappers` (`wrappers.dfy`): `Option` and `Result`.
- `Arith` (`arith.dfy`): small facts about multiplication and division.
- `TileSelection` (`tile_selector.dfy`): the tile selector. It is a value
  (`datatype TileSelector`), because nothing updates it after construction.
  Construction is the method `Load`, which returns a `Result`.
- `MapGeneration` (`map_generator.dfy`): the generator as a `class` over an
  `array2<Cell>`. Its methods update the grid in place. Each method is proved
  against a specification function: `Carved` for the grid `Generate` builds,
  and `Frame` for the commands `Draw` emits.

Environment stand-ins:

- The random numbers `generate` draws are passed in as a list of `Sample`s
  (w, h, x, y per room, in draw order).
- The file system is a map from the paths that exist to what decoding them
  gives.
- A blit or fallback rectangle is a `DrawCommand`: a layer, a screen position,
  and the selected tile (`None` means the fallback square).
- The screen size is passed in as `screenW`, `screenH`.

## Model

| member | source | states |
|---|---|---|
| TileSelection.TileSelector.GetTile | map_engine/tile_selector.py:46-52 | the result is a tile exactly when both indices are in range, and it is the tile at those indices; otherwise None, never an error |
| TileSelection.TileSelector.GetTilesetCount | map_engine/tile_selector.py:54-56 | the count is the number of loaded sheets, and on a well-formed selector also the number of names |
| TileSelection.Slice | map_engine/tile_selector.py:28-37 | the nested row/column loops produce exactly (W / ts) * (H / ts) tiles, tile i cut at ((i mod cols) * ts, (i div cols) * ts) |
| TileSelection.TilesInsideSheet | map_engine/tile_selector.py:28-36 | every tile is a whole ts x ts square on the tile grid lying inside the sheet; partial edge squares are dropped |
| TileSelection.WholeSquaresAreTiles | map_engine/tile_selector.py:28-37 | every whole grid square that fits in the sheet is a tile, at index row * cols + col |
| TileSelection.SliceExample | map_engine/tile_selector.py:28-37 | a 96 x 48 sheet cut at 16 pixels gives 18 tiles, and tile 6 starts the second row at (0, 16) |
| TileSelection.BasenameIsLastComponent | map_engine/tile_selector.py:40 | a sheet's name is the path's final component: a suffix with no '/', preceded by '/' unless it is the whole path |
| TileSelection.ExistingMembers | map_engine/tile_selector.py:17-22 | a path yields a sheet exactly when it is among the inputs and exists; missing paths are skipped |
| TileSelection.ExistingPosition | map_engine/tile_selector.py:17-39 | an existing path's sheet sits at the index equal to the number of existing paths before it |
| TileSelection.FirstFailureIff | map_engine/tile_selector.py:17-44 | a first failing path exists exactly when some path exists but does not decode, and it is the earliest such path |
| TileSelection.LoadedSheetsAt | map_engine/tile_selector.py:17-40 | when nothing fails, sheet k holds the tiles of the k-th existing path's image and name k is that path's basename |
| TileSelection.Load | map_engine/tile_selector.py:9-44 | fails exactly when some path exists but does not decode, naming the first such path; otherwise the selector keeps the given tile size and holds, in order, the sheets and names of the existing paths |
| MapGeneration.Rect.Center | map_engine/map_generator.py:74-75 | the centre of a room at least one cell wide and high lies inside the room |
| MapGeneration.CorridorIsLWithoutEnd | map_engine/map_generator.py:85-102 | a corridor's cells are its closed L (both legs, corner included) minus the end point |
| MapGeneration.CarvedSnoc | map_engine/map_generator.py:69-76 | placing one more room carves that room and the corridor to it and keeps every cell carved before |
| MapGeneration.StepCarved | map_engine/map_generator.py:63-76 | every room and every corridor between consecutive rooms stays carved after all rooms are placed |
| MapGeneration.CarvedIsRoomOrCorridor | map_engine/map_generator.py:63-76 | every carved cell belongs to some room or to the corridor that joins a room to the one before it |
| MapGeneration.CarvedInside | map_engine/map_generator.py:63-76 | when rooms keep off the border, no room or corridor cell touches the border |
| MapGeneration.CentresJoined | map_engine/map_generator.py:73-76 | the whole closed L between consecutive room centres is carved, end point included, because the end is the new room's centre |
| MapGeneration.MapGenerator.constructor | map_engine/map_generator.py:9-46 | the grid starts all wall with no rooms; the room count and size limits start at 5, 6 and 15; the size, tile size, selector and tile selections are those given |
| MapGeneration.MapGenerator.SetTiles | map_engine/map_generator.py:48-53 | the four tile selections take the given values; the grid and the rooms are unchanged |
| MapGeneration.MapGenerator.ResetMap | map_engine/map_generator.py:57-61 | the room list is emptied and every cell becomes wall |
| MapGeneration.MapGenerator.CreateRoom | map_engine/map_generator.py:78-83 | exactly the in-grid cells of the room become floor; every other cell keeps its value |
| MapGeneration.MapGenerator.CreateCorridor | map_engine/map_generator.py:85-102 | exactly the in-grid cells of the half-open L (row of start up to end.x, then column end.x up to end.y) become floor; the rest is unchanged |
| MapGeneration.MapGenerator.PlaceRoom | map_engine/map_generator.py:69-76 | the room is appended, and a grid whose floor is exactly what the placed rooms carve stays so once the room and the corridor to it are carved |
| MapGeneration.MapGenerator.CarvedGridFacts | map_engine/map_generator.py:63-83 | a grid whose floor is exactly what in-border rooms carve has every room cell floor, an all-wall border and a floor path between consecutive centres |
| MapGeneration.MapGenerator.Generate | map_engine/map_generator.py:55-76 | the rooms are the sampled ones in order, as many as the current room count, each side within the current size limits; a cell is floor exactly when carved; when the minimum size is positive, the rooms keep off the border, room cells and the L between consecutive centres are floor, and the border stays wall |
| MapGeneration.VisibleSpan | map_engine/map_generator.py:109-112 | the drawn index range never leaves the grid |
| MapGeneration.VisibleIffOnScreen | map_engine/map_generator.py:109-112 | a cell index is in the drawn range exactly when its tile's pixels meet [camera, camera + screen] |
| MapGeneration.MapGenerator.ViewOf | map_engine/map_generator.py:106-112 | the drawn window of cells lies inside the grid on both axes |
| MapGeneration.MapGenerator.CommandAtInjective | map_engine/map_generator.py:121-122 | distinct cells are drawn at distinct screen positions |
| MapGeneration.MapGenerator.ColumnCommandsIff | map_engine/map_generator.py:118-156 | a column's commands are those of exactly the window cells above row y that the layer shows |
| MapGeneration.MapGenerator.LayerCommandsIff | map_engine/map_generator.py:117-156 | a layer draws exactly the window cells left of column x that it shows: floor cells, or walls with floor below |
| MapGeneration.MapGenerator.ColumnCommandsOrdered | map_engine/map_generator.py:118-122 | a column's commands are on their layer, in that column above row y, and go strictly down the column |
| MapGeneration.MapGenerator.LayerCommandsOrdered | map_engine/map_generator.py:117-156 | a layer's commands are on the layer, left of column x, and in strict column-then-row order, so no position is drawn twice |
| MapGeneration.MapGenerator.ColumnCommandsOnlyCells | map_engine/map_generator.py:118-156 | every command of a column draws a cell of that column above row y that the layer shows |
| MapGeneration.MapGenerator.LayerCommandsOnlyCells | map_engine/map_generator.py:117-156 | every command of a layer draws a window cell left of column x that the layer shows |
| MapGeneration.MapGenerator.FrameIff | map_engine/map_generator.py:104-156 | a frame draws a cell on a layer exactly when the cell's tile meets the screen on both axes and the layer shows the cell |
| MapGeneration.MapGenerator.FrameOnlyCells | map_engine/map_generator.py:104-156 | a frame draws nothing but cells: each command draws, with its layer's selected tile, an in-grid cell that is on screen on both axes and that the layer shows |
| MapGeneration.MapGenerator.DrawLayer | map_engine/map_generator.py:117-156 | the nested column/row loops of one layer emit exactly that layer's commands for the window |
| MapGeneration.MapGenerator.Draw | map_engine/map_generator.py:104-156 | the commands are the frame's; every floor command comes before every wall command; within a layer they are in column-then-row order |
| MapGeneration.ResolveTilesetPaths | map_engine/map_generator.py:22-39 | the paths loaded are the existing members of the first group whose first path exists; none when no group's first path exists |
| MapGeneration.NewMapGenerator | map_engine/map_generator.py:9-46 | fails with tileset-not-found when no group's first path exists; fails with a load error naming the first resolved path that exists but does not decode, and only then; otherwise an all-wall grid with no rooms, room count and size limits 5, 6 and 15, and a selector that has the given tile size and holds the sheets and names of the resolved paths that exist, at least one of them |

## Left out

- Image decoding, `convert_alpha`, blitting and `pygame.draw.rect` are not modelled. A sheet is only its pixel size and a tile only the square it is cut from. The fallback colours (200, 200, 200) for floor and (80, 60, 40) for wall are represented by a command whose tile is `None`.
- The console warnings and progress messages are left out.
- `os.path.exists` and the current working directory are modelled as a map from existing paths to file contents. A file may disappear between the existence check and the load; that race is not modelled.
- `os.path.basename` is modelled for POSIX '/' separators only.
- The random number generator is replaced by the samples passed to `Generate`, so the model says nothing about the distribution of rooms.
- MapGeneration.MapGenerator.Generate: requires every sample to lie in the range `random.randint` draws it from. On a grid too small for the largest room, `randint` gets an empty range and raises `ValueError`; that error path is not modelled.
- MapGeneration.MapGenerator.constructor: requires a positive tile size, and so does every member that divides by it. With a tile size of 0 the source raises `ZeroDivisionError` at the first slice or draw. A negative tile size is also excluded, although the source accepts it: floor division then gives a negative tile count, the slicing ranges are empty, and every sheet gets zero tiles.
- TileSelection.Load: requires a positive tile size for the same reason.
- MapGeneration.MapGenerator.ResetMap: `rooms.clear()` empties the list in place, and any alias of it would see that. The model assigns a new empty sequence instead.
- Camera coordinates and screen sizes are integers. Python would also accept floats for the camera; those are not modelled.
- MapGeneration.MapGenerator.constructor: the width and height are natural numbers. Python also accepts negative sizes: the grid is then empty, `draw` draws nothing and `generate` raises `ValueError` in `randint`.
- MapGeneration.MapGenerator.Generate: the room count and the size limits are natural numbers. Python would also accept negative values, which make `generate` place no rooms or raise in `randint`.
- Python integers are unbounded and so are Dafny's, so no overflow is modelled.
- The enemy module and the game loop that calls `draw` are not part of this model.

Notes on the code:

- The corridor legs stop before `end.x` and `end.y`, so the corridor never carves the end cell itself.
- After `generate` that cell is floor only because it is the new room's centre. `CorridorIsLWithoutEnd` and `CentresJoined` state both facts.
- `__init__` sets the room count and the room size limits to 5, 6 and 15. They are public attributes, and `generate` reads them on every call.
- The border stays wall only because rooms are at least one cell a side. With a minimum size of 0, a zero-width room may sit against the right or bottom border, and the corridor out of its centre then starts on the border. `Generate` therefore promises the border facts only when the minimum size is positive.
