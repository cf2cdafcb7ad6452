/**
 * The split pass: walk the grid row by row, skip the fully transparent tiles
 * when asked to, save every other tile under its tile name, and count both.
 * Saving a tile is modelled as appending its name and crop box to the
 * sequence of written tiles.
 */
module Splitter {
  import opened Wrappers
  import opened Tiles
  import opened TileNaming

  /** A tile written to the output directory: its file name and the box it was cut from. */
  datatype SavedTile = SavedTile(name: string, box: Box)

  /** The report printed as JSON at the end of the pass. */
  datatype SplitResult = SplitResult(
    input: string,
    outputDir: string,
    tileSize: int,
    width: nat,
    height: nat,
    columns: nat,
    rows: nat,
    tilesSaved: nat,
    tilesSkipped: nat,
    files: seq<string>)

  /** The pass stops before writing anything when the image holds no whole tile. */
  datatype SplitError = ImageTooSmall(width: nat, height: nat, tileSize: int)

  /** The cells `(row, 0) .. (row, n - 1)`, in the order of the inner loop. */
  function RowCells(row: nat, n: nat): (cells: seq<Cell>)
    ensures |cells| == n
    ensures forall k :: 0 <= k < n ==> cells[k] == Cell(row, k)
  {
    if n == 0 then [] else RowCells(row, n - 1) + [Cell(row, n - 1)]
  }

  /** The cells of the first `rows` rows of a grid `columns` wide, in traversal order. */
  function Cells(rows: nat, columns: nat): (cells: seq<Cell>)
    ensures forall k :: 0 <= k < |cells| ==> InGrid(Grid(columns, rows), cells[k])
  {
    if rows == 0 then [] else Cells(rows - 1, columns) + RowCells(rows - 1, columns)
  }

  /** The first `rows` rows hold `rows * columns` cells. */
  lemma {:induction false} CellsCount(rows: nat, columns: nat)
    ensures |Cells(rows, columns)| == rows * columns
  {
    if rows > 0 {
      CellsCount(rows - 1, columns);
      assert (rows - 1) * columns + columns == rows * columns;
    }
  }

  /** The cells visited before cell (`row`, `col`): all earlier rows, then the start of this one. */
  function Visited(row: nat, col: nat, columns: nat): seq<Cell>
  {
    Cells(row, columns) + RowCells(row, col)
  }

  lemma VisitedNext(row: nat, col: nat, columns: nat)
    ensures Visited(row, col + 1, columns) == Visited(row, col, columns) + [Cell(row, col)]
    ensures Visited(row, 0, columns) == Cells(row, columns)
    ensures Visited(row, columns, columns) == Cells(row + 1, columns)
  {
    assert RowCells(row, col + 1) == RowCells(row, col) + [Cell(row, col)];
    assert RowCells(row, 0) == [];
  }

  /** Row-major order: `(row, col)` compared lexicographically. */
  predicate Before(a: Cell, b: Cell)
  {
    a.row < b.row || (a.row == b.row && a.col < b.col)
  }

  predicate RowMajor(cells: seq<Cell>)
  {
    forall i, j :: 0 <= i < j < |cells| ==> Before(cells[i], cells[j])
  }

  /** Every cell of the grid is visited, and the visit order is strictly row-major. */
  lemma {:induction false} CellsRowMajor(rows: nat, columns: nat)
    ensures RowMajor(Cells(rows, columns))
    ensures forall c :: InGrid(Grid(columns, rows), c) ==> c in Cells(rows, columns)
  {
    if rows > 0 {
      CellsRowMajor(rows - 1, columns);
      var prev, last := Cells(rows - 1, columns), RowCells(rows - 1, columns);
      var all := prev + last;
      forall i, j | 0 <= i < j < |all| ensures Before(all[i], all[j]) {
        if j < |prev| {
          assert all[i] == prev[i] && all[j] == prev[j];
        } else if i < |prev| {
          assert all[i] == prev[i] && all[j] == last[j - |prev|];
        }
      }
      forall c | InGrid(Grid(columns, rows), c) ensures c in all {
        if c.row < rows - 1 {
          assert InGrid(Grid(columns, rows - 1), c);
        } else {
          assert last[c.col] == c;
        }
      }
    }
  }

  /** What the pass starts from: a well-formed image and a tile size of at least one pixel. */
  predicate Setup(img: Image, tileSize: int)
  {
    WellFormed(img) && tileSize >= 1
  }

  /**
   * The pass skips a cell of the grid when `skipEmpty` holds and the alpha
   * extrema of its tile are (0, 0). Cells off the grid are never visited.
   */
  predicate Skips(img: Image, tileSize: int, skipEmpty: bool, c: Cell)
  {
    && Setup(img, tileSize)
    && InGrid(GridFor(img.width, img.height, tileSize), c)
    && skipEmpty
    && (CropBoxInside(img, tileSize, c); IsEmptyTile(Crop(img, CropBox(tileSize, c))))
  }

  /** The cells whose tiles are saved, in the order visited. */
  function Kept(img: Image, tileSize: int, skipEmpty: bool, cells: seq<Cell>): (kept: seq<Cell>)
  {
    if cells == [] then []
    else
      var last := cells[|cells| - 1];
      Kept(img, tileSize, skipEmpty, cells[..|cells| - 1])
        + (if Skips(img, tileSize, skipEmpty, last) then [] else [last])
  }

  /** The file names of the saved cells. */
  function Names(prefix: string, cells: seq<Cell>): (names: seq<string>)
  {
    if cells == [] then []
    else
      var last := cells[|cells| - 1];
      Names(prefix, cells[..|cells| - 1]) + [TileName(prefix, last.row, last.col)]
  }

  /** What the pass writes for the saved cells: each name with its crop box. */
  function Saves(prefix: string, tileSize: nat, cells: seq<Cell>): (tiles: seq<SavedTile>)
  {
    if cells == [] then []
    else
      var last := cells[|cells| - 1];
      Saves(prefix, tileSize, cells[..|cells| - 1]) + [SavedTile(TileName(prefix, last.row, last.col), CropBox(tileSize, last))]
  }

  lemma {:induction false} NamesAt(prefix: string, cells: seq<Cell>)
    ensures |Names(prefix, cells)| == |cells|
    ensures forall k :: 0 <= k < |cells| ==>
      Names(prefix, cells)[k] == TileName(prefix, cells[k].row, cells[k].col)
  {
    if cells != [] {
      NamesAt(prefix, cells[..|cells| - 1]);
    }
  }

  lemma {:induction false} SavesAt(prefix: string, tileSize: nat, cells: seq<Cell>)
    ensures |Saves(prefix, tileSize, cells)| == |cells|
    ensures forall k :: 0 <= k < |cells| ==>
      Saves(prefix, tileSize, cells)[k] == SavedTile(TileName(prefix, cells[k].row, cells[k].col), CropBox(tileSize, cells[k]))
  {
    if cells != [] {
      SavesAt(prefix, tileSize, cells[..|cells| - 1]);
    }
  }

  lemma KeptAppend(img: Image, tileSize: int, skipEmpty: bool, cells: seq<Cell>, c: Cell)
    ensures Kept(img, tileSize, skipEmpty, cells + [c])
      == Kept(img, tileSize, skipEmpty, cells) + (if Skips(img, tileSize, skipEmpty, c) then [] else [c])
  {
    assert (cells + [c])[..|cells|] == cells;
  }

  lemma NamesAppend(prefix: string, tileSize: nat, cells: seq<Cell>, c: Cell)
    ensures Names(prefix, cells + [c]) == Names(prefix, cells) + [TileName(prefix, c.row, c.col)]
    ensures Saves(prefix, tileSize, cells + [c])
      == Saves(prefix, tileSize, cells) + [SavedTile(TileName(prefix, c.row, c.col), CropBox(tileSize, c))]
  {
    assert (cells + [c])[..|cells|] == cells;
  }

  /** The skip decision is the extrema test on the cell's cropped tile. */
  lemma SkipsIsExtremaTest(img: Image, tileSize: int, skipEmpty: bool, c: Cell)
    requires Setup(img, tileSize)
    requires InGrid(GridFor(img.width, img.height, tileSize), c)
    ensures Inside(img, CropBox(tileSize, c))
    ensures CropBox(tileSize, c).right - CropBox(tileSize, c).left == tileSize
    ensures CropBox(tileSize, c).bottom - CropBox(tileSize, c).top == tileSize
    ensures Skips(img, tileSize, skipEmpty, c) == (skipEmpty && IsEmptyTile(Crop(img, CropBox(tileSize, c))))
  {
    CropBoxInside(img, tileSize, c);
  }

  /** All cells of the grid of `img`, in traversal order. */
  function GridCells(img: Image, tileSize: int): seq<Cell>
    requires tileSize >= 1
  {
    var g := GridFor(img.width, img.height, tileSize);
    Cells(g.rows, g.columns)
  }

  /** The cells the pass saves over the whole grid of `img`. */
  function SavedCells(img: Image, tileSize: int, skipEmpty: bool): seq<Cell>
    requires tileSize >= 1
  {
    Kept(img, tileSize, skipEmpty, GridCells(img, tileSize))
  }

  /**
   * The state of the pass once it has visited `cells`: the files list names
   * the kept cells, a tile was written for each of them, and each visited
   * cell was counted once, as saved or as skipped.
   */
  predicate Accumulated(img: Image, tileSize: nat, skipEmpty: bool, prefix: string, cells: seq<Cell>,
                        files: seq<string>, written: seq<SavedTile>, saved: nat, skipped: nat)
  {
    var kept := Kept(img, tileSize, skipEmpty, cells);
    && files == Names(prefix, kept)
    && written == Saves(prefix, tileSize, kept)
    && saved == |files|
    && saved + skipped == |cells|
  }

  /**
   * The body of the inner loop for one cell: crops its tile, and either counts
   * it as skipped or saves it under its tile name and lists the name.
   */
  method VisitCell(img: Image, tileSize: int, prefix: string, skipEmpty: bool, cell: Cell, ghost visited: seq<Cell>,
                   files: seq<string>, written: seq<SavedTile>, saved: nat, skipped: nat)
    returns (files': seq<string>, written': seq<SavedTile>, saved': nat, skipped': nat)
    requires Setup(img, tileSize)
    requires InGrid(GridFor(img.width, img.height, tileSize), cell)
    requires Accumulated(img, tileSize, skipEmpty, prefix, visited, files, written, saved, skipped)
    ensures Accumulated(img, tileSize, skipEmpty, prefix, visited + [cell], files', written', saved', skipped')
  {
    var box := CropBox(tileSize, cell);
    CropBoxInside(img, tileSize, cell);
    var tile := Crop(img, box);
    ghost var kept := Kept(img, tileSize, skipEmpty, visited);
    SkipsIsExtremaTest(img, tileSize, skipEmpty, cell);
    KeptAppend(img, tileSize, skipEmpty, visited, cell);
    if skipEmpty && IsEmptyTile(tile) {
      files', written', saved', skipped' := files, written, saved, skipped + 1;
      assert Kept(img, tileSize, skipEmpty, visited + [cell]) == kept;
    } else {
      var name := TileName(prefix, cell.row, cell.col);
      NamesAppend(prefix, tileSize, kept, cell);
      files', written', saved', skipped' := files + [name], written + [SavedTile(name, box)], saved + 1, skipped;
      assert Kept(img, tileSize, skipEmpty, visited + [cell]) == kept + [cell];
    }
    assert |visited + [cell]| == |visited| + 1;
  }

  /**
   * The inner `for col` loop of the split pass for one row of the grid: crops
   * each cell of the row, skips it or saves it, and extends the files list,
   * the written tiles and the counters accordingly.
   */
  method VisitRow(img: Image, tileSize: int, prefix: string, skipEmpty: bool, row: nat,
                  files: seq<string>, written: seq<SavedTile>, saved: nat, skipped: nat)
    returns (files': seq<string>, written': seq<SavedTile>, saved': nat, skipped': nat)
    requires Setup(img, tileSize)
    requires row < GridFor(img.width, img.height, tileSize).rows
    requires Accumulated(img, tileSize, skipEmpty, prefix, Cells(row, GridFor(img.width, img.height, tileSize).columns),
                         files, written, saved, skipped)
    ensures Accumulated(img, tileSize, skipEmpty, prefix, Cells(row + 1, GridFor(img.width, img.height, tileSize).columns),
                        files', written', saved', skipped')
  {
    var g := GridFor(img.width, img.height, tileSize);
    files', written', saved', skipped' := files, written, saved, skipped;
    VisitedNext(row, 0, g.columns);
    for col := 0 to g.columns
      invariant Accumulated(img, tileSize, skipEmpty, prefix, Visited(row, col, g.columns), files', written', saved', skipped')
    {
      VisitedNext(row, col, g.columns);
      files', written', saved', skipped' :=
        VisitCell(img, tileSize, prefix, skipEmpty, Cell(row, col), Visited(row, col, g.columns), files', written', saved', skipped');
    }
    VisitedNext(row, g.columns, g.columns);
  }

  /** The two nested loops of the pass: every cell of the grid, row by row. */
  method VisitRows(img: Image, tileSize: int, prefix: string, skipEmpty: bool)
    returns (files: seq<string>, written: seq<SavedTile>, saved: nat, skipped: nat)
    requires Setup(img, tileSize)
    ensures Accumulated(img, tileSize, skipEmpty, prefix, GridCells(img, tileSize), files, written, saved, skipped)
  {
    var g := GridFor(img.width, img.height, tileSize);
    files, written, saved, skipped := [], [], 0, 0;
    for row := 0 to g.rows
      invariant Accumulated(img, tileSize, skipEmpty, prefix, Cells(row, g.columns), files, written, saved, skipped)
    {
      files, written, saved, skipped := VisitRow(img, tileSize, prefix, skipEmpty, row, files, written, saved, skipped);
    }
  }

  /**
   * The split pass over a decoded image. Fails with ImageTooSmall, writing
   * nothing, when the grid has no column or no row; otherwise visits every cell
   * in row-major order, saving those it does not skip.
   */
  method Split(input: string, outputDir: string, img: Image, tileSize: int, prefix: string, skipEmpty: bool)
    returns (r: Result<SplitResult, SplitError>, written: seq<SavedTile>)
    requires Setup(img, tileSize)
    ensures r.Err? <==> TooSmall(GridFor(img.width, img.height, tileSize))
    ensures r.Err? ==> r.error == ImageTooSmall(img.width, img.height, tileSize) && written == []
    ensures r.Ok? ==>
      var g := GridFor(img.width, img.height, tileSize);
      && r.value.input == input && r.value.outputDir == outputDir
      && r.value.tileSize == tileSize && r.value.width == img.width && r.value.height == img.height
      && r.value.columns == g.columns && r.value.rows == g.rows
      && r.value.files == Names(prefix, SavedCells(img, tileSize, skipEmpty))
      && written == Saves(prefix, tileSize, SavedCells(img, tileSize, skipEmpty))
      && r.value.tilesSaved == |r.value.files|
      && r.value.tilesSaved + r.value.tilesSkipped == g.columns * g.rows
    ensures r.Ok? && !skipEmpty ==> r.value.tilesSkipped == 0
  {
    var g := GridFor(img.width, img.height, tileSize);
    if g.columns == 0 || g.rows == 0 {
      return Err(ImageTooSmall(img.width, img.height, tileSize)), [];
    }
    var files, written', saved, skipped := VisitRows(img, tileSize, prefix, skipEmpty);
    CellsCount(g.rows, g.columns);
    if !skipEmpty {
      KeepEmptySavesEveryCell(img, tileSize);
      NamesAt(prefix, SavedCells(img, tileSize, skipEmpty));
    }
    written := written';
    r := Ok(SplitResult(input, outputDir, tileSize, img.width, img.height, g.columns, g.rows, saved, skipped, files));
  }

  /** A visited cell is saved exactly when the pass does not skip it. */
  lemma {:induction false} KeptMembers(img: Image, tileSize: int, skipEmpty: bool, cells: seq<Cell>, c: Cell)
    ensures c in Kept(img, tileSize, skipEmpty, cells) <==> c in cells && !Skips(img, tileSize, skipEmpty, c)
  {
    if cells != [] {
      var init := cells[..|cells| - 1];
      KeptMembers(img, tileSize, skipEmpty, init, c);
      assert cells == init + [cells[|cells| - 1]];
    }
  }

  /** Only visited cells are saved. */
  lemma {:induction false} KeptSubset(img: Image, tileSize: int, skipEmpty: bool, cells: seq<Cell>)
    ensures forall k :: 0 <= k < |Kept(img, tileSize, skipEmpty, cells)| ==>
      Kept(img, tileSize, skipEmpty, cells)[k] in cells
  {
    if cells != [] {
      var init := cells[..|cells| - 1];
      KeptSubset(img, tileSize, skipEmpty, init);
      assert cells == init + [cells[|cells| - 1]];
    }
  }

  /** The saved cells keep the order in which they were visited. */
  lemma {:induction false} KeptRowMajor(img: Image, tileSize: int, skipEmpty: bool, cells: seq<Cell>)
    requires RowMajor(cells)
    ensures RowMajor(Kept(img, tileSize, skipEmpty, cells))
  {
    if cells != [] {
      var init, last := cells[..|cells| - 1], cells[|cells| - 1];
      KeptRowMajor(img, tileSize, skipEmpty, init);
      var prev := Kept(img, tileSize, skipEmpty, init);
      KeptSubset(img, tileSize, skipEmpty, init);
      forall k | 0 <= k < |prev| ensures Before(prev[k], last) {
        var i :| 0 <= i < |init| && init[i] == prev[k];
        assert cells[i] == prev[k];
      }
    }
  }

  /** Without skipping, every visited cell is saved. */
  lemma {:induction false} KeptEverything(img: Image, tileSize: int, cells: seq<Cell>)
    ensures Kept(img, tileSize, false, cells) == cells
  {
    if cells != [] {
      KeptEverything(img, tileSize, cells[..|cells| - 1]);
    }
  }

  /**
   * A cell of the grid is skipped exactly when skipping is on and every pixel
   * of its tile has alpha 0: a tile with any non-zero alpha is always saved.
   */
  lemma SavedUnlessTransparent(img: Image, tileSize: int, skipEmpty: bool, c: Cell)
    requires Setup(img, tileSize)
    requires InGrid(GridFor(img.width, img.height, tileSize), c)
    ensures Inside(img, CropBox(tileSize, c))
    ensures c in SavedCells(img, tileSize, skipEmpty) <==> !(skipEmpty && Transparent(img, CropBox(tileSize, c)))
  {
    var g := GridFor(img.width, img.height, tileSize);
    CellsRowMajor(g.rows, g.columns);
    KeptMembers(img, tileSize, skipEmpty, Cells(g.rows, g.columns), c);
    SkipsIsExtremaTest(img, tileSize, skipEmpty, c);
    EmptyTileIffTransparent(img, CropBox(tileSize, c));
  }

  /** With keep-empty every cell of the grid is saved, in traversal order, and none is skipped. */
  lemma KeepEmptySavesEveryCell(img: Image, tileSize: int)
    requires Setup(img, tileSize)
    ensures var g := GridFor(img.width, img.height, tileSize);
      SavedCells(img, tileSize, false) == Cells(g.rows, g.columns)
      && |SavedCells(img, tileSize, false)| == g.columns * g.rows
  {
    var g := GridFor(img.width, img.height, tileSize);
    KeptEverything(img, tileSize, Cells(g.rows, g.columns));
    CellsCount(g.rows, g.columns);
  }

  /**
   * The files list is in row-major `(row, col)` order and names every saved
   * cell once: no two entries are equal.
   */
  lemma FilesInTraversalOrder(img: Image, tileSize: int, skipEmpty: bool, prefix: string)
    requires Setup(img, tileSize)
    ensures RowMajor(SavedCells(img, tileSize, skipEmpty))
    ensures var files := Names(prefix, SavedCells(img, tileSize, skipEmpty));
      forall i, j :: 0 <= i < j < |files| ==> files[i] != files[j]
  {
    var g := GridFor(img.width, img.height, tileSize);
    var kept := SavedCells(img, tileSize, skipEmpty);
    CellsRowMajor(g.rows, g.columns);
    KeptRowMajor(img, tileSize, skipEmpty, Cells(g.rows, g.columns));
    var files := Names(prefix, kept);
    NamesAt(prefix, kept);
    forall i, j | 0 <= i < j < |files| ensures files[i] != files[j] {
      assert Before(kept[i], kept[j]);
      TileNameInjective(prefix, kept[i].row, kept[i].col, kept[j].row, kept[j].col);
    }
  }

  /**
   * Every tile written is cut from a whole `tileSize` x `tileSize` box inside
   * the image, and carries the name of the cell it was cut from.
   */
  lemma WrittenTilesInside(img: Image, tileSize: int, skipEmpty: bool, prefix: string)
    requires Setup(img, tileSize)
    ensures var kept := SavedCells(img, tileSize, skipEmpty);
      var written := Saves(prefix, tileSize, kept);
      && |written| == |kept|
      && forall k :: 0 <= k < |written| ==>
        && written[k].name == TileName(prefix, kept[k].row, kept[k].col)
        && written[k].box.right - written[k].box.left == tileSize
        && written[k].box.bottom - written[k].box.top == tileSize
        && Inside(img, written[k].box)
  {
    var g := GridFor(img.width, img.height, tileSize);
    var kept := SavedCells(img, tileSize, skipEmpty);
    var written := Saves(prefix, tileSize, kept);
    SavesAt(prefix, tileSize, kept);
    KeptSubset(img, tileSize, skipEmpty, Cells(g.rows, g.columns));
    forall k | 0 <= k < |written|
      ensures written[k].box.right - written[k].box.left == tileSize
      ensures written[k].box.bottom - written[k].box.top == tileSize
      ensures Inside(img, written[k].box)
    {
      assert written[k].box == CropBox(tileSize, kept[k]);
      CropBoxInside(img, tileSize, kept[k]);
    }
  }
}
