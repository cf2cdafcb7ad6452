# Atropos tile splitter — a Dafny model

Atropos cuts an image into a grid of square tiles and saves each tile as a PNG
file named after its row and column. The command line validates its options,
works out where the input is and where the tiles go, and then runs a short
Python pass. That pass does the following:

- Floor-divides the image size by the tile size to get the grid, and stops
  with a "too small" error when the grid has no column or no row.
- Walks the grid row by row and crops each cell.
- Skips the cells whose alpha channel has extrema (0, 0), when skipping is on.
- Saves every other tile as `{prefix}_r{row:02d}_c{col:02d}.png`, appending
  its name to the `files` list and counting saved and skipped tiles.

The model covers that pass and the pure decisions the command line takes
before it:

- `wrappers.dfy` (`Wrappers`): `Option` and `Result`.
- `naming.dfy` (`TileNaming`): two-digit padding, the tile file name, and a
  parser that reads a name back. The parser is used to prove that distinct
  cells get distinct names.
- `tiles.dfy` (`Tiles`): the image as a width, a height and an alpha plane
  of values 0..255. Also the grid, the crop box of a cell, the crop itself,
  the alpha extrema and the emptiness test.
- `split.dfy` (`Splitter`): the split pass as imperative methods (`Split`,
  the row loop `VisitRows`, the column loop `VisitRow`, and the loop body
  `VisitCell`). They are proved against recursive specification functions:
  `Kept` gives the cells saved and `Names` and `Saves` give what is listed
  and written. Lemmas then prove what the pass promises about those
  functions. Saving a tile is modelled as appending its file name and crop
  box to a sequence of written tiles.
- `cli.dfy` (`Cli`): the tile-size range check and the precedence of
  `--keep-empty` over `--skip-empty`. Also the default output-folder name:
  the last extension is stripped, then every run of JavaScript `\s`
  whitespace becomes `_`. Also the absolute-path test (a leading `/` or a
  drive letter and a colon), and the order in which the command checks its
  inputs.

## Model

| member | source | states |
|---|---|---|
| Tiles.GridFor | src/atropos.ts:124-125 | `columns = width // tile_size`, `rows = height // tile_size`; its meaning is stated by `GridForBounds` |
| Tiles.TooSmall | src/atropos.ts:127 | the grid has no column or no row; `TooSmallIff` says when that happens |
| Tiles.TooSmallIff | src/atropos.ts:124-127 | the image is too small if and only if it is narrower or lower than one tile |
| Tiles.GridForBounds | src/atropos.ts:124-125 | the grid holds as many whole tiles across and down as fit and no more: `columns*t <= width < (columns+1)*t`, likewise for rows |
| Tiles.GridExamples | src/atropos.ts:124-129 | 64x64 at 32 gives a 2x2 grid, 50x50 gives 1x1 (the trailing strip is dropped), 16x16 and 100x16 have no grid |
| Tiles.OffsetIsProduct | src/atropos.ts:137-138 | tile number `i` starts `i * tileSize` pixels in |
| Tiles.CropBox | src/atropos.ts:137-140 | the crop box of a cell; `CropBoxCorners`, `CropBoxInside` and `CropBoxesDisjoint` state its corners, that it is a whole tile inside the image, and that boxes do not overlap |
| Tiles.CropBoxCorners | src/atropos.ts:137-140 | the crop box of cell (row, col) is `(col*t, row*t, col*t + t, row*t + t)` |
| Tiles.CropBoxInside | src/atropos.ts:137-142 | for every cell of the grid the crop box is exactly `t` by `t` and lies inside the image |
| Tiles.CropBoxesDisjoint | src/atropos.ts:137-140 | the crop boxes of two different cells do not overlap |
| Tiles.PixelInCropBox | src/atropos.ts:124-140 | every pixel of the top-left `columns*t` by `rows*t` region lies in the crop box of the cell `(y / t, x / t)`, which is in the grid |
| Tiles.Crop | src/atropos.ts:142 | the crop has the box's size and each pixel equals the image pixel at the same offset from the box's corner |
| Tiles.FlattenMembers | src/atropos.ts:145 | a value occurs in the band exactly when it occurs in some row of the tile |
| Tiles.Extrema | src/atropos.ts:146 | `None` exactly for an empty band; otherwise both values occur in the band and bound every value in it |
| Tiles.IsEmptyTile | src/atropos.ts:145-146 | the test `alpha.getextrema() == (0, 0)`; `EmptyTileIffTransparent` states that it holds exactly for fully transparent tiles |
| Tiles.EmptyTileIsTransparent | src/atropos.ts:146 | extrema (0, 0) means every pixel of the box has alpha 0 |
| Tiles.TransparentTileIsEmpty | src/atropos.ts:146 | a non-empty box whose pixels all have alpha 0 has extrema (0, 0) |
| Tiles.EmptyTileIffTransparent | src/atropos.ts:146 | for a non-empty box, the extrema test holds if and only if every pixel is fully transparent |
| TileNaming.Decimal | src/atropos.ts:150 | a non-empty numeral of decimal digits, which starts with '0' only for zero |
| TileNaming.DecimalUnique | src/atropos.ts:150 | a numeral without a leading zero is the numeral of its own value |
| TileNaming.Pad2 | src/atropos.ts:150 | at least two decimal digits, exactly two if and only if the number is below 100, and a leading '0' if and only if the number is below 10 |
| TileNaming.Pad2Unique | src/atropos.ts:150 | any numeral of `n` with at least two digits and no zero before them beyond the padding is `Pad2(n)`, so the contract fixes the `02d` text for every number |
| TileNaming.ParseDecimalOfPad2 | src/atropos.ts:150 | the padded digits read back as the number |
| TileNaming.Pad2Injective | src/atropos.ts:150 | different numbers are padded differently |
| TileNaming.Pad2Examples | src/atropos.ts:150 | 0 is written "00", 7 "07", 42 "42" and 105 "105" |
| TileNaming.TileName | src/atropos.ts:150 | the file name of a cell; `TileNameSpelledOut`, `TileNameRoundTrip` and `TileNameInjective` state its text, that it reads back as its cell, and that cells have distinct names |
| TileNaming.TileNameSpelledOut | src/atropos.ts:150 | the name is the prefix, "_r", the padded row, "_c", the padded column and ".png", in that order |
| TileNaming.TileNameRoundTrip | src/atropos.ts:150 | parsing a tile name under its prefix gives back (row, col) |
| TileNaming.TileNameInjective | src/atropos.ts:150 | two names under one prefix are equal if and only if their cells are equal |
| TileNaming.FirstTileNameExample | src/atropos.ts:150 | cell (0, 0) with prefix "tile" is named "tile_r00_c00.png" |
| TileNaming.SecondRowTileNameExample | src/atropos.ts:150 | cell (1, 0) with prefix "tile" is named "tile_r01_c00.png" |
| Splitter.RowCells | src/atropos.ts:136 | the inner loop visits `(row, 0) .. (row, n-1)` in that order |
| Splitter.Cells | src/atropos.ts:135-136 | every cell the nested loops visit is in the grid |
| Splitter.CellsCount | src/atropos.ts:135-136 | the nested loops visit `rows * columns` cells |
| Splitter.CellsRowMajor | src/atropos.ts:135-136 | the visit order is strictly row-major, and every cell of the grid is visited |
| Splitter.Skips | src/atropos.ts:144-146 | the skip decision: a cell of the grid is skipped when `skip_empty` is set and its cropped tile passes the emptiness test `IsEmptyTile`; `Kept` filters the visited cells on it |
| Splitter.SkipsIsExtremaTest | src/atropos.ts:144-146 | unfolding lemma for `Skips`: for a cell of the grid the crop box is a whole tile inside the image, so the skip decision is exactly `skip_empty and getextrema() == (0, 0)` on its crop |
| Splitter.Kept | src/atropos.ts:144-154 | the cells whose tiles are saved, in visit order; `KeptMembers`, `KeptRowMajor` and `SavedUnlessTransparent` state which cells they are and in what order |
| Splitter.Names | src/atropos.ts:150-153 | the names appended to `files` for the saved cells; `NamesAt` states them entry by entry |
| Splitter.Saves | src/atropos.ts:150-152 | the tiles written for the saved cells, each with its name and crop box; `SavesAt` states them entry by entry |
| Splitter.KeptAppend | src/atropos.ts:144-154 | visiting one more cell adds it to the saved cells unless it is skipped |
| Splitter.NamesAppend | src/atropos.ts:150-153 | saving one more cell appends its name to the files list and its name and box to the written tiles |
| Splitter.NamesAt | src/atropos.ts:150-153 | the files list has one entry per saved cell, the k-th being the name of the k-th saved cell |
| Splitter.SavesAt | src/atropos.ts:150-153 | one tile is written per saved cell, the k-th with the k-th saved cell's name and crop box |
| Splitter.VisitCell | src/atropos.ts:137-154 | after one cell, the files list, the written tiles and both counters describe the cells visited so far plus that cell |
| Splitter.VisitRow | src/atropos.ts:136-154 | after the inner loop, the state describes all rows up to and including this one |
| Splitter.VisitRows | src/atropos.ts:131-154 | starting from empty lists and zero counters, the nested loops end with the state for the whole grid |
| Splitter.Split | src/atropos.ts:124-165 | fails, writing nothing, exactly when the grid has no column or no row. Otherwise it reports the input, sizes and grid, lists the names of the saved cells in visit order, writes exactly those tiles, has `tilesSaved == len(files)` and `saved + skipped == columns * rows`, and skips nothing when skipping is off |
| Splitter.KeptMembers | src/atropos.ts:144-148 | a cell of the grid is saved if and only if it is visited and not skipped |
| Splitter.KeptSubset | src/atropos.ts:135-153 | only visited cells are saved |
| Splitter.KeptRowMajor | src/atropos.ts:135-153 | the saved cells keep the row-major visit order |
| Splitter.KeptEverything | src/atropos.ts:144 | with skipping off, every visited cell is saved |
| Splitter.SavedUnlessTransparent | src/atropos.ts:144-148 | a cell of the grid is saved if and only if skipping is off or some pixel of its tile has non-zero alpha |
| Splitter.KeepEmptySavesEveryCell | src/atropos.ts:144-154 | with skipping off, the saved cells are all `columns * rows` cells of the grid, in visit order |
| Splitter.FilesInTraversalOrder | src/atropos.ts:135-153 | the files list is in row-major order and has no duplicate name |
| Splitter.WrittenTilesInside | src/atropos.ts:137-152 | every written tile is a whole `t` by `t` box inside the image and carries its cell's name |
| Cli.CheckTileSize | src/atropos.ts:82 | a parsed size is accepted if and only if it is a number in 1..4096; NaN is rejected |
| Cli.EffectiveSkipEmpty | src/atropos.ts:66 | keep-empty forces skipping off; otherwise the skip-empty flag decides |
| Cli.IsExtension | src/atropos.ts:88 | a suffix that `\.[^.]+$` matches: a dot followed by at least one character, none of them a dot |
| Cli.HasExtension | src/atropos.ts:88 | the name has a suffix that `\.[^.]+$` matches, i.e. the regex finds a match |
| Cli.LastDot | src/atropos.ts:88 | finds the position of the last '.' of the name, and none exactly when the name has no dot |
| Cli.StripExtension | src/atropos.ts:88 | the result is a prefix of the name; when something is removed it is one extension: a dot and a non-empty dot-free tail |
| Cli.StripExtensionIff | src/atropos.ts:88 | the name changes if and only if it ends in an extension |
| Cli.StripExtensionExamples | src/atropos.ts:88 | "a.png" becomes "a", "a.tar.gz" becomes "a.tar", "a" and "a." stay as they are |
| Cli.IsJsWhitespace | src/atropos.ts:88 | the characters `\s` matches in a JavaScript regular expression: the ECMAScript WhiteSpace set (tab, vertical tab, form feed, space, no-break space, zero-width no-break space and the Unicode space separators) and the LineTerminator set (line feed, carriage return, line and paragraph separators) |
| Cli.SkipWhitespaceSplits | src/atropos.ts:88 | skipping leading whitespace drops a whitespace run and keeps the rest unchanged |
| Cli.CollapseWhitespace | src/atropos.ts:88 | the result contains no whitespace |
| Cli.CollapseKeepsPlainText | src/atropos.ts:88 | a name without whitespace is left unchanged |
| Cli.CollapseRun | src/atropos.ts:88 | a whole run of whitespace becomes one underscore |
| Cli.CollapseAppend | src/atropos.ts:88 | two strings that do not meet inside a whitespace run collapse to the two collapsed strings side by side |
| Cli.CollapseExample | src/atropos.ts:88 | "a \t b" becomes "a_b" |
| Cli.DefaultBasename | src/atropos.ts:88 | the default basename contains no whitespace and is no longer than the file name |
| Cli.DefaultBasenameOfPlainName | src/atropos.ts:88 | for a file name without whitespace, only the extension is removed |
| Cli.DefaultBasenameExample | src/atropos.ts:88 | "a \t b.png" becomes "a_b" |
| Cli.IsAbsolute | src/atropos.ts:72 | a leading '/' or an ASCII letter followed by a colon; `Resolve` states that exactly such paths are used as given |
| Cli.Resolve | src/atropos.ts:72-74 | a path is used as given if and only if it starts with '/' or with an ASCII letter and a colon; otherwise it is taken relative to the working directory |
| Cli.ResolveExamples | src/atropos.ts:72-74 | "/home/...", "C:\\..." and "d:..." are absolute; "sprite.png", "./sprite.png", "1:..." and "" are not |
| Cli.OutputLocation | src/atropos.ts:89-93 | a non-empty `--output` is resolved by the same rule as the input; a missing or empty one gives `<basename>_tiles` beside the input |
| Cli.EmptyOutputMeansDefault | src/atropos.ts:89 | `--output ""` behaves like no `--output` |
| Cli.Configure | src/atropos.ts:64-93 | succeeds if and only if the input exists and the size is in 1..4096. A missing input is reported first, even when the size is also invalid. A valid size with an existing input gives the resolved input, the size, the effective skip flag, the prefix and the output location |
| Cli.Defaults | src/atropos.ts:19-24 | the parsed options when only the input is named: `--size` "32", no `--output`, skip-empty on, keep-empty off, prefix "tile" |
| Cli.DefaultsConfigure | src/atropos.ts:19-24 | with only the input given: 32-pixel tiles, skipping on, prefix "tile", output `<basename>_tiles` beside the input |
| Cli.ConfigureReadyToSplit | src/atropos.ts:82 | an accepted configuration meets the split pass's precondition for any well-formed image |
| Cli.KeepEmptySavesEveryTile | src/atropos.ts:66 | with `--keep-empty`, every cell of the grid is saved whatever `--skip-empty` says |

## Left out

- Image decoding (`Image.open(...).convert("RGBA")`), the copy of the colour
  channels done by `crop`, and PNG encoding by `tile.save`: these are calls
  into Pillow. The image is an alpha plane, and saving a tile appends its
  name and crop box to a sequence.
- Failures of the Python pass other than an image too small for one tile:
  a file Pillow cannot decode, an error from `tile.save` (a full disk, a
  directory that cannot be written), and any text the pass writes to its
  error stream. An exception stops the pass part-way: the tiles saved before
  it stay on disk and no report is printed. A warning, such as Pillow's
  `DecompressionBombWarning`, does not stop the pass. It writes every tile
  and prints its report, but the command discards the report because the
  error stream is not empty. What the command then prints is decided by
  src/atropos.ts:182-195:
  - Error text that mentions "No module named" or "PIL" gives the hint to
    install Pillow. Every Pillow exception or warning names the `PIL`
    package.
  - Otherwise, error text that mentions "python3" gives the hint to install
    Python.
  - Any other error text, or a non-zero exit with no error text, is printed
    as `error || output`.
  - In every case the command exits with status 1.
  The model's `Split` assumes decoding and every write succeed and nothing
  is written to the error stream. So once the grid check passes it always
  returns `Ok` with every kept tile written.
- The other channels of the image: only alpha decides anything.
- Spawning `python3`, reading its output and sniffing its error text for a
  missing Python or Pillow. This is process I/O.
- JSON serialisation and parsing of the result, and the console summary.
  These are output formatting. `SplitResult` carries the same fields.
- `parseArgs`, the help and version texts, `process.exit`, `--json` and
  `--quiet`. This is command-line plumbing. `Options` holds the parsed
  values.
- `parseInt`'s lenient parsing of `--size` ("12px" reads as 12). The model
  takes the integer it produced, with `None` for `NaN`. So the
  `InvalidTileSize` error carries that parsed value, not the text given to
  `--size` that the source's message shows: "abc" and "" both give
  `InvalidTileSize(None)`.
- `existsSync`, `mkdir`, `process.cwd()`, and `path.join`, `dirname` and
  `basename`. These are file-system calls and host path semantics. Whether
  the input exists and its base name are parameters of `Configure`. Joining
  is kept symbolic in `Location`.
- Python's `int(sys.argv[3])` and `== "true"` round trip of the tile size and
  the skip flag through the command line of the child process. It is the
  identity for the values the command passes.
