/**
 * The tile selector of the dungeon map engine: it slices every sprite sheet
 * that exists into square tiles of a fixed size, row by row, and answers
 * bounds-checked lookups by (sheet index, tile index).
 *
 * A decoded sheet is known only by its pixel size and a tile by the square
 * it is cropped from; the file system is a map from the paths that exist to
 * what decoding them gives.
 */
module TileSelection {
  import opened Wrappers
  import opened Arith

  /** The tile size, in pixels, used when the caller gives none. */
  const DEFAULT_TILE_SIZE: nat := 48

  /** A decoded sprite sheet: its width and height in pixels. */
  datatype Sheet = Sheet(width: nat, height: nat)

  /** A tile: the `size` x `size` square of its sheet whose top-left pixel is (left, top). */
  datatype Tile = Tile(left: int, top: int, size: nat)

  /** What is stored at a path that exists: an image that decodes, or one that does not. */
  datatype FileEntry = Image(sheet: Sheet) | Corrupt

  /** The paths that exist, with their contents; a path not in the map does not exist. */
  type FileSystem = map<string, FileEntry>

  /** Construction failed while decoding the file at `path`. */
  datatype LoadError = LoadError(path: string)

  predicate FailsToLoad(fs: FileSystem, path: string) {
    path in fs && fs[path].Corrupt?
  }

  /** The loaded sheets, each a list of tiles, and the file name each came from. */
  datatype TileSelector = TileSelector(tileSize: nat, tilesetImages: seq<seq<Tile>>, tilesetNames: seq<string>)
  {
    /** Every loaded sheet has a name. */
    predicate Valid() {
      |tilesetImages| == |tilesetNames|
    }

    /** Looks up a tile; out-of-range indices give None rather than an error. */
    function GetTile(tilesetIdx: int, tileIdx: int): (r: Option<Tile>)
      ensures r.Some? <==> 0 <= tilesetIdx < |tilesetImages| && 0 <= tileIdx < |tilesetImages[tilesetIdx]|
      ensures r.Some? ==> r.value == tilesetImages[tilesetIdx][tileIdx]
    {
      if 0 <= tilesetIdx < |tilesetImages| then
        var tiles := tilesetImages[tilesetIdx];
        if 0 <= tileIdx < |tiles| then Some(tiles[tileIdx]) else None
      else
        None
    }

    /** The number of loaded sheets. */
    function GetTilesetCount(): (n: nat)
      ensures n == |tilesetImages|
      ensures Valid() ==> n == |tilesetNames|
    {
      |tilesetImages|
    }
  }

  /** Whole tiles across a sheet; a partial column at the right is dropped. */
  function Columns(sheet: Sheet, ts: nat): nat
    requires 0 < ts
  {
    sheet.width / ts
  }

  /** Whole tiles down a sheet; a partial row at the bottom is dropped. */
  function Rows(sheet: Sheet, ts: nat): nat
    requires 0 < ts
  {
    sheet.height / ts
  }

  /** Tile i of a sheet `cols` tiles wide: column i % cols and row i / cols of the tile grid. */
  function TileAt(i: int, cols: nat, ts: nat): Tile
    requires 0 < cols
  {
    Tile((i % cols) * ts, (i / cols) * ts, ts)
  }

  /** The tiles of a sheet in row-major order. */
  function SheetTiles(sheet: Sheet, ts: nat): seq<Tile>
    requires 0 < ts
  {
    var cols, rows := Columns(sheet, ts), Rows(sheet, ts);
    if cols == 0 then []
    else seq(cols * rows, i requires 0 <= i < cols * rows => TileAt(i, cols, ts))
  }

  /** Cuts a sheet into tiles with the source's two nested loops, rows outside, columns inside. */
  method Slice(sheet: Sheet, ts: nat) returns (tiles: seq<Tile>)
    requires 0 < ts
    ensures tiles == SheetTiles(sheet, ts)
    ensures |tiles| == Columns(sheet, ts) * Rows(sheet, ts)
  {
    var width := sheet.width / ts;
    var height := sheet.height / ts;
    tiles := [];
    for y := 0 to height
      invariant |tiles| == y * width
      invariant forall i :: 0 <= i < |tiles| ==> 0 < width && tiles[i] == TileAt(i, width, ts)
    {
      for x := 0 to width
        invariant |tiles| == y * width + x
        invariant forall i :: 0 <= i < |tiles| ==> 0 < width && tiles[i] == TileAt(i, width, ts)
      {
        assert Tile(x * ts, y * ts, ts) == TileAt(|tiles|, width, ts) by {
          DivModOf(y, x, width);
        }
        tiles := tiles + [Tile(x * ts, y * ts, ts)];
      }
      assert (y + 1) * width == y * width + width;
    }
    assert |tiles| == Columns(sheet, ts) * Rows(sheet, ts);
  }

  /** Grid line k of `count` whole tiles along an extent starts on the grid and its tile ends inside the extent. */
  lemma GridLineInside(k: int, count: nat, ts: nat, extent: nat)
    requires 0 < ts && 0 <= k < count && count == extent / ts
    ensures (k * ts) % ts == 0 && 0 <= k * ts && k * ts + ts <= extent
  {
    DivModOf(k, 0, ts);
    MulMono(k + 1, count, ts);
    DivBounds(extent, ts, count);
  }

  /** Every tile is a whole `ts` x `ts` square inside its sheet, on the tile grid. */
  lemma TilesInsideSheet(sheet: Sheet, ts: nat, i: int)
    requires 0 < ts && 0 <= i < |SheetTiles(sheet, ts)|
    ensures var t := SheetTiles(sheet, ts)[i];
      && t.size == ts && t.left % ts == 0 && t.top % ts == 0
      && 0 <= t.left && t.left + ts <= sheet.width
      && 0 <= t.top && t.top + ts <= sheet.height
  {
    var cols, rows := Columns(sheet, ts), Rows(sheet, ts);
    assert 0 < cols && i < cols * rows;
    var t := SheetTiles(sheet, ts)[i];
    assert t == Tile((i % cols) * ts, (i / cols) * ts, ts);
    DivBounds(i, cols, rows);
    GridLineInside(i % cols, cols, ts, sheet.width);
    GridLineInside(i / cols, rows, ts, sheet.height);
  }

  /** Every whole square of the tile grid that fits in the sheet is a tile, at index row * Columns + col. */
  lemma WholeSquaresAreTiles(sheet: Sheet, ts: nat, row: nat, col: nat)
    requires 0 < ts
    requires (col + 1) * ts <= sheet.width && (row + 1) * ts <= sheet.height
    ensures col < Columns(sheet, ts) && row < Rows(sheet, ts)
    ensures row * Columns(sheet, ts) + col < |SheetTiles(sheet, ts)|
    ensures SheetTiles(sheet, ts)[row * Columns(sheet, ts) + col] == Tile(col * ts, row * ts, ts)
  {
    var cols, rows := Columns(sheet, ts), Rows(sheet, ts);
    DivBounds(sheet.width, ts, col + 1);
    DivBounds(sheet.height, ts, row + 1);
    MulMono(row + 1, rows, cols);
    DivModOf(row, col, cols);
  }

  /** A 96 x 48 sheet cut into 16-pixel tiles gives 6 columns and 3 rows; tile 6 starts row 1. */
  lemma SliceExample()
    ensures |SheetTiles(Sheet(96, 48), 16)| == 18
    ensures SheetTiles(Sheet(96, 48), 16)[6] == Tile(0, 16, 16)
  {
  }

  /** The final path component, as POSIX basename gives it: everything after the last '/'. */
  function Basename(path: string): string
    decreases |path|
  {
    if path == [] || path[|path| - 1] == '/' then []
    else Basename(path[..|path| - 1]) + [path[|path| - 1]]
  }

  /** A sheet's name is a suffix of its path with no '/', preceded by '/' unless it is the whole path. */
  lemma {:induction false} BasenameIsLastComponent(path: string)
    ensures var name := Basename(path);
      && |name| <= |path| && name == path[|path| - |name|..]
      && (forall i :: 0 <= i < |name| ==> name[i] != '/')
      && (|name| < |path| ==> path[|path| - |name| - 1] == '/')
    decreases |path|
  {
    if path != [] && path[|path| - 1] != '/' {
      var init, last := path[..|path| - 1], path[|path| - 1];
      BasenameIsLastComponent(init);
      var rest := Basename(init);
      var name := rest + [last];
      assert Basename(path) == name;
      assert path[|path| - |name|..] == init[|init| - |rest|..] + [last];
      forall i | 0 <= i < |name|
        ensures name[i] != '/'
      {
        if i < |rest| {
          assert name[i] == rest[i];
        }
      }
      if |name| < |path| {
        assert path[|path| - |name| - 1] == init[|init| - |rest| - 1];
      }
    }
  }

  /** The paths that exist, in their input order. */
  function Existing(paths: seq<string>, fs: FileSystem): (found: seq<string>)
    ensures |found| <= |paths|
    decreases |paths|
  {
    if paths == [] then []
    else
      var rest, p := Existing(paths[..|paths| - 1], fs), paths[|paths| - 1];
      if p in fs then rest + [p] else rest
  }

  /** Exactly the paths that exist are kept. */
  lemma {:induction false} ExistingMembers(paths: seq<string>, fs: FileSystem, p: string)
    ensures p in Existing(paths, fs) <==> p in paths && p in fs
    decreases |paths|
  {
    if paths != [] {
      var init := paths[..|paths| - 1];
      assert paths == init + [paths[|paths| - 1]];
      ExistingMembers(init, fs, p);
    }
  }

  /** One more path adds itself to the paths found exactly when it exists. */
  lemma ExistingSnoc(paths: seq<string>, fs: FileSystem, i: int)
    requires 0 <= i < |paths|
    ensures Existing(paths[..i + 1], fs) ==
      if paths[i] in fs then Existing(paths[..i], fs) + [paths[i]] else Existing(paths[..i], fs)
  {
    assert paths[..i + 1][..i] == paths[..i];
  }

  /** An existing path is found at the position given by the number of existing paths before it. */
  lemma {:induction false} ExistingPosition(paths: seq<string>, fs: FileSystem, i: int)
    requires 0 <= i < |paths| && paths[i] in fs
    ensures |Existing(paths[..i], fs)| < |Existing(paths, fs)|
    ensures Existing(paths, fs)[|Existing(paths[..i], fs)|] == paths[i]
    decreases |paths|
  {
    var n := |paths|;
    var init := paths[..n - 1];
    if i < n - 1 {
      assert init[..i] == paths[..i];
      ExistingPosition(init, fs, i);
    } else {
      assert init == paths[..i];
    }
  }

  /** The sheets loaded from `found`, one per path: the tiles of its decoded image. */
  function SheetsOf(found: seq<string>, fs: FileSystem, ts: nat): (sheets: seq<seq<Tile>>)
    requires 0 < ts
    ensures |sheets| == |found|
    decreases |found|
  {
    if found == [] then []
    else
      var p := found[|found| - 1];
      SheetsOf(found[..|found| - 1], fs, ts) + [if p in fs && fs[p].Image? then SheetTiles(fs[p].sheet, ts) else []]
  }

  /** The names of the sheets loaded from `found`, one per path. */
  function NamesOf(found: seq<string>): (names: seq<string>)
    ensures |names| == |found|
    decreases |found|
  {
    if found == [] then [] else NamesOf(found[..|found| - 1]) + [Basename(found[|found| - 1])]
  }

  /** Sheet k holds the tiles of the k-th path's image. */
  lemma {:induction false} SheetsOfAt(found: seq<string>, fs: FileSystem, ts: nat, k: int)
    requires 0 < ts && 0 <= k < |found| && found[k] in fs && fs[found[k]].Image?
    ensures SheetsOf(found, fs, ts)[k] == SheetTiles(fs[found[k]].sheet, ts)
    decreases |found|
  {
    var init := found[..|found| - 1];
    if k < |init| {
      assert init[k] == found[k];
      SheetsOfAt(init, fs, ts, k);
    }
  }

  /** Name k is the basename of the k-th path. */
  lemma {:induction false} NamesOfAt(found: seq<string>, k: int)
    requires 0 <= k < |found|
    ensures NamesOf(found)[k] == Basename(found[k])
    decreases |found|
  {
    var init := found[..|found| - 1];
    if k < |init| {
      assert init[k] == found[k];
      NamesOfAt(init, k);
    }
  }

  /** The first path that exists but does not decode, if any. */
  function FirstFailure(paths: seq<string>, fs: FileSystem): Option<string>
    decreases |paths|
  {
    if paths == [] then None
    else if FailsToLoad(fs, paths[0]) then Some(paths[0])
    else FirstFailure(paths[1..], fs)
  }

  /** There is a first failure exactly when some path fails, and it is the earliest such path. */
  lemma {:induction false} FirstFailureIff(paths: seq<string>, fs: FileSystem)
    ensures FirstFailure(paths, fs).None? <==> forall i :: 0 <= i < |paths| ==> !FailsToLoad(fs, paths[i])
    ensures FirstFailure(paths, fs).Some? ==>
      exists i :: 0 <= i < |paths| && FailsToLoad(fs, paths[i]) && FirstFailure(paths, fs).value == paths[i]
        && forall j :: 0 <= j < i ==> !FailsToLoad(fs, paths[j])
    decreases |paths|
  {
    if paths != [] && !FailsToLoad(fs, paths[0]) {
      var rest := paths[1..];
      FirstFailureIff(rest, fs);
      assert forall i :: 1 <= i < |paths| ==> paths[i] == rest[i - 1];
      if FirstFailure(rest, fs).Some? {
        var i :| 0 <= i < |rest| && FailsToLoad(fs, rest[i]) && FirstFailure(rest, fs).value == rest[i]
          && forall j :: 0 <= j < i ==> !FailsToLoad(fs, rest[j]);
        assert FailsToLoad(fs, paths[i + 1]);
      }
    }
  }

  /**
   * When no path fails to load, sheet k holds the tiles of the k-th existing
   * path's image and name k is that path's basename.
   */
  lemma LoadedSheetsAt(paths: seq<string>, fs: FileSystem, ts: nat, k: int)
    requires 0 < ts && forall j :: 0 <= j < |paths| ==> !FailsToLoad(fs, paths[j])
    requires 0 <= k < |Existing(paths, fs)|
    ensures var found := Existing(paths, fs);
      && found[k] in fs && fs[found[k]].Image?
      && SheetsOf(found, fs, ts)[k] == SheetTiles(fs[found[k]].sheet, ts)
      && NamesOf(found)[k] == Basename(found[k])
  {
    var found := Existing(paths, fs);
    ExistingMembers(paths, fs, found[k]);
    SheetsOfAt(found, fs, ts, k);
    NamesOfAt(found, k);
  }

  /**
   * Builds the selector from the candidate paths: a path that does not exist is
   * skipped, an existing one is decoded and sliced, and a file that exists but
   * does not decode aborts the whole construction.
   */
  method Load(paths: seq<string>, fs: FileSystem, tileSize: nat) returns (r: Result<TileSelector, LoadError>)
    requires 0 < tileSize
    ensures r.Failure? <==> FirstFailure(paths, fs).Some?
    ensures r.Failure? ==> r.error == LoadError(FirstFailure(paths, fs).value)
    ensures r.Success? ==>
      && r.value.Valid() && r.value.GetTilesetCount() == |Existing(paths, fs)|
      && r.value == TileSelector(tileSize, SheetsOf(Existing(paths, fs), fs, tileSize), NamesOf(Existing(paths, fs)))
  {
    var images: seq<seq<Tile>> := [];
    var names: seq<string> := [];
    ghost var found: seq<string> := [];
    for i := 0 to |paths|
      invariant FirstFailure(paths, fs) == FirstFailure(paths[i..], fs)
      invariant found == Existing(paths[..i], fs)
      invariant images == SheetsOf(found, fs, tileSize) && names == NamesOf(found)
    {
      var path := paths[i];
      assert paths[i..][1..] == paths[i + 1..];
      if path in fs {
        if fs[path].Corrupt? {
          return Failure(LoadError(path));
        }
        var tiles := Slice(fs[path].sheet, tileSize);
        assert found + [path] == Existing(paths[..i + 1], fs) by {
          ExistingSnoc(paths, fs, i);
        }
        assert images + [tiles] == SheetsOf(found + [path], fs, tileSize) by {
          assert (found + [path])[..|found|] == found;
        }
        assert names + [Basename(path)] == NamesOf(found + [path]) by {
          assert (found + [path])[..|found|] == found;
        }
        images := images + [tiles];
        names := names + [Basename(path)];
        found := found + [path];
      } else {
        assert found == Existing(paths[..i + 1], fs) by {
          ExistingSnoc(paths, fs, i);
        }
      }
    }
    assert paths[..|paths|] == paths;
    assert paths[|paths|..] == [];
    r := Success(TileSelector(tileSize, images, names));
  }
}
