/**
 * The pure decisions the command line takes before it starts the split:
 * which tile sizes it accepts, whether transparent tiles are skipped,
 * where the input and output folders are, and how the default output
 * folder is named after the input file.
 */
module Cli {
  import opened Wrappers
  import Tiles
  import Splitter

  /** The smallest and largest tile sizes the command accepts. */
  const MinTileSize: int := 1
  const MaxTileSize: int := 4096

  /** The default tile size and file-name prefix. */
  const DefaultTileSize: int := 32
  const DefaultPrefix: string := "tile"

  predicate ValidTileSize(n: int) {
    MinTileSize <= n <= MaxTileSize
  }

  /**
   * The tile-size check applied to the integer parsed from `--size`;
   * `None` stands for a string that does not parse (`NaN`).
   */
  function CheckTileSize(parsed: Option<int>): (r: Option<int>)
    ensures r.Some? <==> parsed.Some? && ValidTileSize(parsed.value)
    ensures r.Some? ==> r.value == parsed.value
  {
    if parsed.None? || parsed.value < MinTileSize || parsed.value > MaxTileSize then None
    else Some(parsed.value)
  }

  /** `--keep-empty` overrides `--skip-empty`. */
  function EffectiveSkipEmpty(keepEmpty: bool, skipEmpty: bool): (r: bool)
    ensures keepEmpty ==> !r
    ensures !keepEmpty ==> r == skipEmpty
  {
    if keepEmpty then false else skipEmpty
  }

  // ---------------------------------------------------------------------
  // Default output-folder name: strip the last extension, then turn every
  // run of whitespace into one underscore.
  // ---------------------------------------------------------------------

  /**
   * The characters a JavaScript regular expression matches with `\s`:
   * the ECMAScript white-space and line-terminator characters.
   */
  predicate IsJsWhitespace(c: char) {
    c == '\t' || c == '\n' || c == '\U{B}' || c == '\U{C}' || c == '\r' || c == ' '
    || c == '\U{A0}' || c == '\U{1680}' || ('\U{2000}' <= c <= '\U{200A}')
    || c == '\U{2028}' || c == '\U{2029}' || c == '\U{202F}' || c == '\U{205F}'
    || c == '\U{3000}' || c == '\U{FEFF}'
  }

  predicate NoWhitespace(s: string) {
    forall i :: 0 <= i < |s| ==> !IsJsWhitespace(s[i])
  }

  predicate AllWhitespace(s: string) {
    forall i :: 0 <= i < |s| ==> IsJsWhitespace(s[i])
  }

  /** The position of the last `.` in `s`, if there is one. */
  function LastDot(s: string): (r: Option<nat>)
    ensures r.None? <==> '.' !in s
    ensures r.Some? ==> r.value < |s| && s[r.value] == '.' && '.' !in s[r.value + 1..]
  {
    if s == [] then None
    else if s[|s| - 1] == '.' then Some(|s| - 1)
    else
      var init := s[..|s| - 1];
      assert s == init + [s[|s| - 1]];
      var r := LastDot(init);
      if r.Some? then
        assert s[r.value + 1..] == init[r.value + 1..] + [s[|s| - 1]];
        r
      else r
  }

  /** A suffix the pattern `\.[^.]+$` matches: a dot and at least one more character, none of them a dot. */
  predicate IsExtension(e: string) {
    |e| >= 2 && e[0] == '.' && '.' !in e[1..]
  }

  predicate HasExtension(s: string) {
    exists i :: 0 <= i < |s| && IsExtension(s[i..])
  }

  /** `name.replace(/\.[^.]+$/, "")`: removes the extension, if there is one, and nothing else. */
  function StripExtension(s: string): (r: string)
    ensures r <= s
    ensures r != s ==> IsExtension(s[|r|..])
  {
    match LastDot(s)
    case None => s
    case Some(i) =>
      if i + 1 < |s| then
        assert s[i..][1..] == s[i + 1..];
        s[..i]
      else s
  }

  /** The extension is removed exactly when the name has one. */
  lemma StripExtensionIff(s: string)
    ensures StripExtension(s) != s <==> HasExtension(s)
  {
    if HasExtension(s) {
      var i :| 0 <= i < |s| && IsExtension(s[i..]);
      assert s[i] == '.' by { assert s[i..][0] == s[i]; }
      var j := LastDot(s).value;
      assert |s[..j]| < |s|;
    }
  }

  /** Only the last extension goes: of `a.b.c` the `.c`. */
  lemma StripExtensionExamples()
    ensures StripExtension("a.png") == "a"
    ensures StripExtension("a.tar.gz") == "a.tar"
    ensures StripExtension("a") == "a"
    ensures StripExtension("a.") == "a."
  {
    assert LastDot("a.png") == Some(1);
    assert LastDot("a.tar.gz") == Some(5);
    assert LastDot("a.") == Some(1);
  }

  /** Drops the whitespace at the front of `s`. */
  function SkipWhitespace(s: string): (r: string)
    ensures |r| <= |s|
    ensures r != [] ==> !IsJsWhitespace(r[0])
  {
    if s != [] && IsJsWhitespace(s[0]) then SkipWhitespace(s[1..]) else s
  }

  /** What is skipped is a run of whitespace at the front, and the rest is left as it was. */
  lemma {:induction false} SkipWhitespaceSplits(s: string)
    ensures var r := SkipWhitespace(s);
      && r == s[|s| - |r|..]
      && AllWhitespace(s[..|s| - |r|])
  {
    if s != [] && IsJsWhitespace(s[0]) {
      SkipWhitespaceSplits(s[1..]);
      var r := SkipWhitespace(s);
      assert s[..|s| - |r|] == [s[0]] + s[1..][..|s| - 1 - |r|];
    }
  }

  /** Unless `s` is all whitespace, something is left, and it ends as `s` does. */
  lemma {:induction false} SkipWhitespaceKeepsEnd(s: string)
    requires !AllWhitespace(s)
    ensures SkipWhitespace(s) != [] && SkipWhitespace(s)[|SkipWhitespace(s)| - 1] == s[|s| - 1]
  {
    AllWhitespaceCons(s);
    if IsJsWhitespace(s[0]) {
      SkipWhitespaceKeepsEnd(s[1..]);
    }
  }

  /** `s.replace(/\s+/g, "_")`: every maximal run of whitespace becomes one `_`. */
  function CollapseWhitespace(s: string): (r: string)
    ensures NoWhitespace(r)
    decreases |s|
  {
    if s == [] then []
    else if IsJsWhitespace(s[0]) then "_" + CollapseWhitespace(SkipWhitespace(s[1..]))
    else [s[0]] + CollapseWhitespace(s[1..])
  }

  /** A name without whitespace is left as it is. */
  lemma {:induction false} CollapseKeepsPlainText(s: string)
    requires NoWhitespace(s)
    ensures CollapseWhitespace(s) == s
  {
    if s != [] {
      CollapseKeepsPlainText(s[1..]);
    }
  }

  /** A whole run of whitespace becomes a single underscore. */
  lemma CollapseRun(s: string)
    requires s != [] && AllWhitespace(s)
    ensures CollapseWhitespace(s) == "_"
  {
    AllWhitespaceCons(s);
    SkipAllWhitespace(s[1..]);
  }

  lemma AllWhitespaceCons(s: string)
    requires s != []
    ensures AllWhitespace(s) <==> IsJsWhitespace(s[0]) && AllWhitespace(s[1..])
  {
    if IsJsWhitespace(s[0]) && AllWhitespace(s[1..]) {
      forall i | 0 < i < |s| ensures IsJsWhitespace(s[i]) {
        assert s[i] == s[1..][i - 1];
      }
    }
  }

  /** Whitespace only is skipped entirely. */
  lemma {:induction false} SkipAllWhitespace(s: string)
    requires AllWhitespace(s)
    ensures SkipWhitespace(s) == []
  {
    if s != [] {
      AllWhitespaceCons(s);
      SkipAllWhitespace(s[1..]);
    }
  }

  lemma {:induction false} SkipWhitespaceAppend(a: string, b: string)
    ensures !AllWhitespace(a) ==> SkipWhitespace(a + b) == SkipWhitespace(a) + b
    ensures AllWhitespace(a) ==> SkipWhitespace(a + b) == SkipWhitespace(b)
  {
    if a == [] {
      assert a + b == b;
    } else {
      assert (a + b)[0] == a[0] && (a + b)[1..] == a[1..] + b;
      AllWhitespaceCons(a);
      if IsJsWhitespace(a[0]) {
        SkipWhitespaceAppend(a[1..], b);
      }
    }
  }

  /**
   * Replacing runs works piece by piece: two strings that do not meet in the
   * middle of a run collapse to the two collapsed strings side by side.
   */
  lemma {:induction false} CollapseAppend(a: string, b: string)
    requires a == [] || b == [] || !IsJsWhitespace(a[|a| - 1]) || !IsJsWhitespace(b[0])
    ensures CollapseWhitespace(a + b) == CollapseWhitespace(a) + CollapseWhitespace(b)
    decreases |a|, 1
  {
    if a == [] {
      assert a + b == b;
    } else if IsJsWhitespace(a[0]) {
      CollapseAppendRun(a, b);
    } else {
      CollapseAppendPlain(a, b);
    }
  }

  /** `CollapseAppend` when `a` starts with a character kept as it is. */
  lemma {:induction false} CollapseAppendPlain(a: string, b: string)
    requires a != [] && !IsJsWhitespace(a[0])
    requires b == [] || !IsJsWhitespace(a[|a| - 1]) || !IsJsWhitespace(b[0])
    ensures CollapseWhitespace(a + b) == CollapseWhitespace(a) + CollapseWhitespace(b)
    decreases |a|, 0
  {
    var x, t := a[0], a[1..];
    assert a == [x] + t && a + b == [x] + (t + b);
    assert t == [] || t[|t| - 1] == a[|a| - 1];
    CollapseAppend(t, b);
    CollapsePlainCons(x, t);
    CollapsePlainCons(x, t + b);
  }

  lemma CollapsePlainCons(x: char, s: string)
    requires !IsJsWhitespace(x)
    ensures CollapseWhitespace([x] + s) == [x] + CollapseWhitespace(s)
  {
    assert ([x] + s)[1..] == s;
  }

  /** `CollapseAppend` when `a` starts with a run of whitespace. */
  lemma {:induction false} CollapseAppendRun(a: string, b: string)
    requires a != [] && IsJsWhitespace(a[0])
    requires b == [] || !IsJsWhitespace(a[|a| - 1]) || !IsJsWhitespace(b[0])
    ensures CollapseWhitespace(a + b) == CollapseWhitespace(a) + CollapseWhitespace(b)
    decreases |a|, 0
  {
    var t := a[1..];
    assert (a + b)[0] == a[0] && (a + b)[1..] == t + b;
    AllWhitespaceCons(a);
    SkipWhitespaceAppend(t, b);
    var u := SkipWhitespace(t);
    if AllWhitespace(t) {
      SkipAllWhitespace(t);
      assert SkipWhitespace(b) == b;
      calc {
        CollapseWhitespace(a + b);
        "_" + CollapseWhitespace(SkipWhitespace(t + b));
        "_" + CollapseWhitespace(b);
      }
    } else {
      SkipWhitespaceKeepsEnd(t);
      CollapseAppend(u, b);
      calc {
        CollapseWhitespace(a + b);
        "_" + CollapseWhitespace(SkipWhitespace(t + b));
        "_" + CollapseWhitespace(u + b);
        "_" + (CollapseWhitespace(u) + CollapseWhitespace(b));
        ("_" + CollapseWhitespace(u)) + CollapseWhitespace(b);
      }
    }
  }

  /** The default name of the output folder is the input file's name without its extension and without whitespace. */
  function DefaultBasename(fileName: string): (r: string)
    ensures NoWhitespace(r)
    ensures |r| <= |fileName|
  {
    CollapseShrinks(StripExtension(fileName));
    CollapseWhitespace(StripExtension(fileName))
  }

  lemma {:induction false} CollapseShrinks(s: string)
    ensures |CollapseWhitespace(s)| <= |s|
    decreases |s|
  {
    if s != [] {
      if IsJsWhitespace(s[0]) {
        CollapseShrinks(SkipWhitespace(s[1..]));
      } else {
        CollapseShrinks(s[1..]);
      }
    }
  }

  /** A name without whitespace only loses its extension. */
  lemma DefaultBasenameOfPlainName(fileName: string)
    requires NoWhitespace(fileName)
    ensures DefaultBasename(fileName) == StripExtension(fileName)
  {
    var stripped := StripExtension(fileName);
    assert NoWhitespace(stripped) by {
      forall i | 0 <= i < |stripped| ensures !IsJsWhitespace(stripped[i]) {
        assert stripped[i] == fileName[i];
      }
    }
    CollapseKeepsPlainText(stripped);
  }

  /** A run of mixed whitespace between two words becomes one underscore. */
  lemma CollapseExample()
    ensures CollapseWhitespace("a \t b") == "a_b"
  {
    CollapseAppend("a", " \t b");
    CollapseAppend(" \t ", "b");
    CollapseRun(" \t ");
    assert "a \t b" == "a" + " \t b";
    assert " \t b" == " \t " + "b";
  }

  /** The extension goes first, then the run of whitespace becomes an underscore. */
  lemma DefaultBasenameExample()
    ensures DefaultBasename("a \t b.png") == "a_b"
  {
    assert StripExtension("a \t b.png") == "a \t b" by {
      assert LastDot("a \t b.png") == Some(5);
    }
    CollapseExample();
  }

  // ---------------------------------------------------------------------
  // Paths
  // ---------------------------------------------------------------------

  predicate IsAsciiLetter(c: char) {
    'A' <= c <= 'Z' || 'a' <= c <= 'z'
  }

  /** A path is used as given when it starts with `/` or with a drive letter and a colon. */
  predicate IsAbsolute(p: string) {
    (|p| >= 1 && p[0] == '/') || (|p| >= 2 && IsAsciiLetter(p[0]) && p[1] == ':')
  }

  /**
   * Where a path points. Joining with the working directory and with the
   * input's directory is done by the host; the model keeps the pieces.
   */
  datatype Location =
    | AsGiven(path: string)
    | UnderCwd(path: string)
    | BesideInput(input: Location, name: string)

  /** An absolute path is used as given; any other is taken relative to the working directory. */
  function Resolve(p: string): (r: Location)
    ensures r.AsGiven? || r.UnderCwd?
    ensures r.path == p
    ensures r.AsGiven? <==> IsAbsolute(p)
  {
    if IsAbsolute(p) then AsGiven(p) else UnderCwd(p)
  }

  lemma ResolveExamples()
    ensures Resolve("/home/me/sprite.png") == AsGiven("/home/me/sprite.png")
    ensures Resolve("C:\\art\\sprite.png") == AsGiven("C:\\art\\sprite.png")
    ensures Resolve("d:sprite.png") == AsGiven("d:sprite.png")
    ensures Resolve("sprite.png") == UnderCwd("sprite.png")
    ensures Resolve("./sprite.png") == UnderCwd("./sprite.png")
    ensures Resolve("1:sprite.png") == UnderCwd("1:sprite.png")
    ensures Resolve("") == UnderCwd("")
  {
  }

  /**
   * `--output` when it is given and not empty, else the folder
   * `<basename>_tiles` next to the input.
   */
  function OutputLocation(output: Option<string>, input: Location, basename: string): (r: Location)
    ensures output.Some? && output.value != "" ==> r == Resolve(output.value)
    ensures output.None? || output.value == "" ==> r == BesideInput(input, basename + "_tiles")
  {
    if output.Some? && output.value != "" then Resolve(output.value)
    else BesideInput(input, basename + "_tiles")
  }

  /** An empty `--output` is no output at all. */
  lemma EmptyOutputMeansDefault(input: Location, basename: string)
    ensures OutputLocation(Some(""), input, basename) == OutputLocation(None, input, basename)
  {
  }

  // ---------------------------------------------------------------------
  // From options to a configuration
  // ---------------------------------------------------------------------

  /**
   * The parsed options: `size` is what `parseInt` made of `--size`
   * (`None` for `NaN`), `output` is `--output` when given.
   */
  datatype Options = Options(
    input: string,
    size: Option<int>,
    output: Option<string>,
    skipEmpty: bool,
    keepEmpty: bool,
    prefix: string)

  /** The options when only the input is named. */
  function Defaults(input: string): Options {
    Options(input, Some(DefaultTileSize), None, true, false, DefaultPrefix)
  }

  datatype CliError =
    | FileNotFound(location: Location)
    | InvalidTileSize(size: Option<int>)

  /** What the split runs with. */
  datatype Config = Config(
    input: Location,
    tileSize: int,
    skipEmpty: bool,
    prefix: string,
    output: Location)

  /**
   * The checks in the order the command makes them: the input must exist
   * (`inputExists`, asked of the file system for `Resolve(opts.input)`),
   * then the tile size must be in range. `inputName` is the last component
   * of the resolved input path.
   */
  function Configure(opts: Options, inputExists: bool, inputName: string): (r: Result<Config, CliError>)
    ensures r.Ok? <==> inputExists && opts.size.Some? && ValidTileSize(opts.size.value)
    ensures !inputExists ==> r == Err(FileNotFound(Resolve(opts.input)))
    ensures inputExists && r.Err? ==> r == Err(InvalidTileSize(opts.size))
    ensures r.Ok? ==>
      && r.value.input == Resolve(opts.input)
      && r.value.tileSize == opts.size.value
      && r.value.skipEmpty == (!opts.keepEmpty && opts.skipEmpty)
      && r.value.prefix == opts.prefix
      && r.value.output == OutputLocation(opts.output, Resolve(opts.input), DefaultBasename(inputName))
  {
    var input := Resolve(opts.input);
    if !inputExists then Err(FileNotFound(input))
    else match CheckTileSize(opts.size)
      case None => Err(InvalidTileSize(opts.size))
      case Some(size) =>
        Ok(Config(input, size, EffectiveSkipEmpty(opts.keepEmpty, opts.skipEmpty), opts.prefix,
                  OutputLocation(opts.output, input, DefaultBasename(inputName))))
  }

  /** With only the input named, tiles are 32 pixels, empty ones are skipped, and they go next to the input. */
  lemma DefaultsConfigure(input: string, inputName: string)
    ensures Configure(Defaults(input), true, inputName) ==
      Ok(Config(Resolve(input), 32, true, "tile", BesideInput(Resolve(input), DefaultBasename(inputName) + "_tiles")))
  {
  }

  /** An accepted configuration meets what the split pass needs of any decoded image. */
  lemma ConfigureReadyToSplit(opts: Options, inputExists: bool, inputName: string, img: Tiles.Image)
    requires Tiles.WellFormed(img)
    requires Configure(opts, inputExists, inputName).Ok?
    ensures Splitter.Setup(img, Configure(opts, inputExists, inputName).value.tileSize)
  {
  }

  /** With `--keep-empty`, every cell of the grid is saved, whatever `--skip-empty` says. */
  lemma KeepEmptySavesEveryTile(opts: Options, inputName: string, img: Tiles.Image)
    requires Tiles.WellFormed(img)
    requires opts.keepEmpty
    requires Configure(opts, true, inputName).Ok?
    ensures var c := Configure(opts, true, inputName).value;
      var g := Tiles.GridFor(img.width, img.height, c.tileSize);
      Splitter.SavedCells(img, c.tileSize, c.skipEmpty) == Splitter.Cells(g.rows, g.columns)
  {
    var c := Configure(opts, true, inputName).value;
    Splitter.KeepEmptySavesEveryCell(img, c.tileSize);
  }
}
