/**
 * The image and its grid as the split pass sees them. Decoding is done by the
 * image library; what the pass uses of the decoded RGBA image is its size and
 * its alpha channel, here a plane of rows of 8-bit values.
 */
module Tiles {
  import opened Wrappers

  /** A decoded image: `alpha[y][x]` is the alpha value of the pixel in column x, row y. */
  datatype Image = Image(width: nat, height: nat, alpha: seq<seq<int>>)

  predicate WellFormed(img: Image)
  {
    && |img.alpha| == img.height
    && (forall y :: 0 <= y < img.height ==> |img.alpha[y]| == img.width)
    && (forall y, x :: 0 <= y < img.height && 0 <= x < |img.alpha[y]| ==> 0 <= img.alpha[y][x] <= 255)
  }

  /** Number of whole tiles across and down. */
  datatype Grid = Grid(columns: nat, rows: nat)

  /** `columns = width // tile_size`, `rows = height // tile_size`. */
  function GridFor(width: nat, height: nat, tileSize: int): Grid
    requires tileSize >= 1
  {
    Grid(width / tileSize, height / tileSize)
  }

  /** The grid holds as many whole tiles across and down as fit, and no more. */
  lemma GridForBounds(width: nat, height: nat, tileSize: int)
    requires tileSize >= 1
    ensures var g := GridFor(width, height, tileSize);
      && g.columns * tileSize <= width < (g.columns + 1) * tileSize
      && g.rows * tileSize <= height < (g.rows + 1) * tileSize
  {
    FloorDivBounds(width, tileSize);
    FloorDivBounds(height, tileSize);
  }

  lemma FloorDivBounds(n: nat, d: int)
    requires d >= 1
    ensures (n / d) * d <= n < (n / d + 1) * d
  {
    assert n == (n / d) * d + n % d;
  }

  /** The image cannot hold a single whole tile. */
  predicate TooSmall(g: Grid) { g.columns == 0 || g.rows == 0 }

  /** The image is too small exactly when it is narrower or lower than one tile. */
  lemma TooSmallIff(width: nat, height: nat, tileSize: int)
    requires tileSize >= 1
    ensures TooSmall(GridFor(width, height, tileSize)) <==> width < tileSize || height < tileSize
  {
    GridForBounds(width, height, tileSize);
    var g := GridFor(width, height, tileSize);
    if g.columns >= 1 {
      MulMonotone(1, g.columns, tileSize);
    }
    if g.rows >= 1 {
      MulMonotone(1, g.rows, tileSize);
    }
  }

  /** Trailing strips narrower than a tile are dropped; an image smaller than one tile has no grid. */
  lemma GridExamples()
    ensures GridFor(64, 64, 32) == Grid(2, 2)
    ensures GridFor(50, 50, 32) == Grid(1, 1) && !TooSmall(GridFor(50, 50, 32))
    ensures TooSmall(GridFor(16, 16, 32))
    ensures TooSmall(GridFor(100, 16, 32)) && GridFor(100, 16, 32).columns == 3
  {
  }

  /** A grid cell, counted from zero. */
  datatype Cell = Cell(row: nat, col: nat)

  predicate InGrid(g: Grid, c: Cell) { c.row < g.rows && c.col < g.columns }

  /** A crop rectangle in Pillow's (left, top, right, bottom) convention: right and bottom exclusive. */
  datatype Box = Box(left: nat, top: nat, right: nat, bottom: nat)

  /**
   * Where tile number `index` starts along one axis, `tileSize` pixels per tile:
   * `index * tileSize`, as `OffsetIsProduct` shows. It is written as a sum so
   * that the loops of the split pass reason without nonlinear arithmetic,
   * which keeps their proofs stable.
   */
  function Offset(index: nat, tileSize: nat): nat
  {
    if index == 0 then 0 else Offset(index - 1, tileSize) + tileSize
  }

  lemma {:induction false} OffsetIsProduct(index: nat, tileSize: nat)
    ensures Offset(index, tileSize) == index * tileSize
  {
    if index > 0 {
      OffsetIsProduct(index - 1, tileSize);
      assert (index - 1) * tileSize + tileSize == index * tileSize;
    }
  }

  function CropBox(tileSize: nat, c: Cell): Box
  {
    var left := Offset(c.col, tileSize);
    var top := Offset(c.row, tileSize);
    Box(left, top, left + tileSize, top + tileSize)
  }

  /** The crop box of cell (`row`, `col`) starts `col * tileSize` across and `row * tileSize` down and is one tile wide and high. */
  lemma CropBoxCorners(tileSize: nat, c: Cell)
    ensures CropBox(tileSize, c) ==
      Box(c.col * tileSize, c.row * tileSize, c.col * tileSize + tileSize, c.row * tileSize + tileSize)
  {
    OffsetIsProduct(c.col, tileSize);
    OffsetIsProduct(c.row, tileSize);
  }

  predicate Inside(img: Image, b: Box)
  {
    b.left <= b.right <= img.width && b.top <= b.bottom <= img.height
  }

  lemma MulMonotone(a: nat, b: nat, k: nat)
    requires a <= b
    ensures a * k <= b * k
  {
    assert b * k == a * k + (b - a) * k;
  }

  /** A tile that starts at an earlier multiple of `k` ends no later than the next one starts. */
  lemma TileEndsBefore(a: nat, b: nat, k: nat)
    requires a < b
    ensures a * k + k <= b * k
  {
    MulMonotone(a + 1, b, k);
    assert (a + 1) * k == a * k + k;
  }

  lemma {:induction false} OffsetMonotone(a: nat, b: nat, tileSize: nat)
    requires a <= b
    ensures Offset(a, tileSize) <= Offset(b, tileSize)
    decreases b
  {
    if a < b {
      OffsetMonotone(a, b - 1, tileSize);
    }
  }

  /** The whole tiles that fit along an axis end inside it. */
  lemma WholeTilesFit(length: nat, tileSize: int)
    requires tileSize >= 1
    ensures Offset(length / tileSize, tileSize) <= length
  {
    var q := length / tileSize;
    OffsetIsProduct(q, tileSize);
    assert q * tileSize <= length by {
      assert length == q * tileSize + length % tileSize;
    }
  }

  /** The crop box of every cell of the grid is a whole tile that lies inside the image. */
  lemma CropBoxInside(img: Image, tileSize: int, c: Cell)
    requires tileSize >= 1
    requires InGrid(GridFor(img.width, img.height, tileSize), c)
    ensures var b := CropBox(tileSize, c);
      && b.right - b.left == tileSize && b.bottom - b.top == tileSize
      && Inside(img, b)
  {
    var g := GridFor(img.width, img.height, tileSize);
    WholeTilesFit(img.width, tileSize);
    WholeTilesFit(img.height, tileSize);
    OffsetMonotone(c.col + 1, g.columns, tileSize);
    OffsetMonotone(c.row + 1, g.rows, tileSize);
  }

  /** The crop boxes of two different cells do not overlap. */
  lemma CropBoxesDisjoint(tileSize: nat, c1: Cell, c2: Cell)
    requires tileSize >= 1 && c1 != c2
    ensures var b1, b2 := CropBox(tileSize, c1), CropBox(tileSize, c2);
      b1.right <= b2.left || b2.right <= b1.left || b1.bottom <= b2.top || b2.bottom <= b1.top
  {
    CropBoxCorners(tileSize, c1);
    CropBoxCorners(tileSize, c2);
    if c1.col < c2.col {
      TileEndsBefore(c1.col, c2.col, tileSize);
    } else if c2.col < c1.col {
      TileEndsBefore(c2.col, c1.col, tileSize);
    } else if c1.row < c2.row {
      TileEndsBefore(c1.row, c2.row, tileSize);
    } else {
      TileEndsBefore(c2.row, c1.row, tileSize);
    }
  }

  /**
   * The grid covers the top-left `columns*tileSize` by `rows*tileSize` region:
   * each pixel there lies in the crop box of a cell of the grid.
   */
  lemma PixelInCropBox(width: nat, height: nat, tileSize: int, x: nat, y: nat)
    requires tileSize >= 1
    requires var g := GridFor(width, height, tileSize);
      x < g.columns * tileSize && y < g.rows * tileSize
    ensures var c := Cell(y / tileSize, x / tileSize);
      var b := CropBox(tileSize, c);
      && InGrid(GridFor(width, height, tileSize), c)
      && b.left <= x < b.right && b.top <= y < b.bottom
  {
    var g := GridFor(width, height, tileSize);
    GridForBounds(width, height, tileSize);
    CropBoxCorners(tileSize, Cell(y / tileSize, x / tileSize));
    FloorDivBounds(x, tileSize);
    FloorDivBounds(y, tileSize);
    if x / tileSize >= g.columns {
      MulMonotone(g.columns, x / tileSize, tileSize);
    }
    if y / tileSize >= g.rows {
      MulMonotone(g.rows, y / tileSize, tileSize);
    }
  }

  /** `img.crop(box)`, restricted to the alpha channel: a pixel-exact copy of the box. */
  function Crop(img: Image, b: Box): (tile: seq<seq<int>>)
    requires WellFormed(img) && Inside(img, b)
    ensures |tile| == b.bottom - b.top
    ensures forall i :: 0 <= i < |tile| ==> |tile[i]| == b.right - b.left
    ensures forall i, j :: 0 <= i < |tile| && 0 <= j < |tile[i]| ==>
      tile[i][j] == img.alpha[b.top + i][b.left + j]
  {
    seq(b.bottom - b.top, i requires 0 <= i < b.bottom - b.top => img.alpha[b.top + i][b.left..b.right])
  }

  /** The band's values in raster order: row after row. */
  function Flatten(rows: seq<seq<int>>): seq<int>
  {
    if rows == [] then [] else Flatten(rows[..|rows| - 1]) + rows[|rows| - 1]
  }

  lemma {:induction false} FlattenMembers(rows: seq<seq<int>>, v: int)
    ensures v in Flatten(rows) <==> exists i :: 0 <= i < |rows| && v in rows[i]
  {
    if rows != [] {
      var init := rows[..|rows| - 1];
      FlattenMembers(init, v);
      assert forall i :: 0 <= i < |init| ==> init[i] == rows[i];
    }
  }

  /**
   * Pillow's `getextrema()` on one band: its least and greatest value, or
   * None for a band without pixels.
   */
  function Extrema(s: seq<int>): (r: Option<(int, int)>)
    ensures r.None? <==> s == []
    ensures r.Some? ==> r.value.0 in s && r.value.1 in s
    ensures r.Some? ==> forall v :: v in s ==> r.value.0 <= v <= r.value.1
  {
    if s == [] then None
    else
      var init, x := s[..|s| - 1], s[|s| - 1];
      assert s == init + [x];
      match Extrema(init)
      case None => Some((x, x))
      case Some((lo, hi)) => Some((if x < lo then x else lo, if x > hi then x else hi))
  }

  /** The emptiness test of the split pass: `alpha.getextrema() == (0, 0)`. */
  predicate IsEmptyTile(tile: seq<seq<int>>)
  {
    Extrema(Flatten(tile)) == Some((0, 0))
  }

  /** Every pixel in the box has alpha 0. */
  predicate Transparent(img: Image, b: Box)
    requires WellFormed(img) && Inside(img, b)
  {
    forall y, x :: b.top <= y < b.bottom && b.left <= x < b.right ==> img.alpha[y][x] == 0
  }

  lemma EmptyTileIsTransparent(img: Image, b: Box)
    requires WellFormed(img) && Inside(img, b)
    requires b.left < b.right && b.top < b.bottom
    requires IsEmptyTile(Crop(img, b))
    ensures Transparent(img, b)
  {
    var tile := Crop(img, b);
    forall y, x | b.top <= y < b.bottom && b.left <= x < b.right
      ensures img.alpha[y][x] == 0
    {
      var v := tile[y - b.top][x - b.left];
      assert v in tile[y - b.top];
      FlattenMembers(tile, v);
    }
  }

  /** A non-empty band of zeros has extrema (0, 0). */
  lemma ExtremaOfZeros(s: seq<int>)
    requires s != [] && forall v :: v in s ==> v == 0
    ensures Extrema(s) == Some((0, 0))
  {
  }

  lemma TransparentTileIsEmpty(img: Image, b: Box)
    requires WellFormed(img) && Inside(img, b)
    requires b.left < b.right && b.top < b.bottom
    requires Transparent(img, b)
    ensures IsEmptyTile(Crop(img, b))
  {
    var tile := Crop(img, b);
    var flat := Flatten(tile);
    forall v | v in flat ensures v == 0 {
      FlattenMembers(tile, v);
      var i :| 0 <= i < |tile| && v in tile[i];
      var j :| 0 <= j < |tile[i]| && tile[i][j] == v;
      assert img.alpha[b.top + i][b.left + j] == v;
    }
    FlattenMembers(tile, tile[0][0]);
    ExtremaOfZeros(flat);
  }

  /** The extrema test is exactly "every pixel of the tile is fully transparent". */
  lemma EmptyTileIffTransparent(img: Image, b: Box)
    requires WellFormed(img) && Inside(img, b)
    requires b.left < b.right && b.top < b.bottom
    ensures IsEmptyTile(Crop(img, b)) <==> Transparent(img, b)
  {
    if IsEmptyTile(Crop(img, b)) {
      EmptyTileIsTransparent(img, b);
    }
    if Transparent(img, b) {
      TransparentTileIsEmpty(img, b);
    }
  }
}
