/**
 * Output file names of the split pass: `{prefix}_r{row:02d}_c{col:02d}.png`.
 * Python's `02d` format writes a non-negative integer in decimal, padded on the
 * left with zeros to at least two digits.
 */
module TileNaming {
  import opened Wrappers

  predicate IsDigit(c: char) { '0' <= c <= '9' }

  predicate AllDigits(s: string) { forall i :: 0 <= i < |s| ==> IsDigit(s[i]) }

  function DigitValue(c: char): (d: nat)
    requires IsDigit(c)
    ensures d < 10
  {
    (c as int) - ('0' as int)
  }

  function DigitChar(d: nat): (c: char)
    requires d < 10
    ensures IsDigit(c) && DigitValue(c) == d
  {
    (('0' as int) + d) as char
  }

  /** The decimal numeral of `n`, without leading zeros ("0" for zero). */
  function Decimal(n: nat): (s: string)
    ensures 1 <= |s| && AllDigits(s)
    ensures s[0] == '0' <==> n == 0
  {
    if n < 10 then [DigitChar(n)] else Decimal(n / 10) + [DigitChar(n % 10)]
  }

  /** The numeral has one digit below 10, at most two below 100. */
  lemma {:induction false} DecimalLength(n: nat)
    ensures |Decimal(n)| == 1 <==> n < 10
    ensures |Decimal(n)| <= 2 <==> n < 100
  {
    if n >= 10 {
      DecimalLength(n / 10);
    }
  }

  /** Python's `f"{n:02d}"` for a non-negative `n`. */
  function Pad2(n: nat): (s: string)
    ensures 2 <= |s| && AllDigits(s)
    ensures |s| == 2 <==> n < 100
    ensures s[0] == '0' <==> n < 10
  {
    DecimalLength(n);
    if n < 10 then ['0'] + Decimal(n) else Decimal(n)
  }

  /** The value of a string of decimal digits (leading zeros allowed). */
  function ParseDecimal(s: string): (n: nat)
    requires AllDigits(s)
  {
    if s == [] then 0 else 10 * ParseDecimal(s[..|s| - 1]) + DigitValue(s[|s| - 1])
  }

  lemma {:induction false} ParseDecimalOfDecimal(n: nat)
    ensures ParseDecimal(Decimal(n)) == n
  {
    if n >= 10 {
      var s := Decimal(n);
      assert s[..|s| - 1] == Decimal(n / 10);
      ParseDecimalOfDecimal(n / 10);
    }
  }

  /** Padding with zeros never loses the value: the padded numeral reads back as `n`. */
  lemma ParseDecimalOfPad2(n: nat)
    ensures ParseDecimal(Pad2(n)) == n
  {
    if n < 10 {
      var s := Pad2(n);
      assert s == ['0', DigitChar(n)];
      assert s[..1] == ['0'];
      assert ParseDecimal(s[..1]) == 0 by {
        assert s[..1][..0] == [];
      }
    } else {
      ParseDecimalOfDecimal(n);
    }
  }

  /** A numeral without a leading zero (other than "0" itself) is the numeral of its value. */
  lemma {:induction false} DecimalUnique(s: string)
    requires 1 <= |s| && AllDigits(s)
    requires |s| > 1 ==> s[0] != '0'
    ensures s == Decimal(ParseDecimal(s))
  {
    var init, last := s[..|s| - 1], s[|s| - 1];
    assert DigitChar(DigitValue(last)) == last;
    if |s| > 1 {
      assert init[0] == s[0];
      DecimalUnique(init);
      var m, d := ParseDecimal(init), DigitValue(last);
      var n := 10 * m + d;
      assert ParseDecimal(s) == n;
      assert m != 0;
      assert n / 10 == m && n % 10 == d;
      assert Decimal(n) == Decimal(m) + [DigitChar(d)];
      assert s == init + [last];
    }
  }

  /**
   * `02d` written out as a property: the only numeral of `n` with at least two
   * digits and no leading zero beyond the padding is `Pad2(n)`.
   */
  lemma Pad2Unique(s: string, n: nat)
    requires 2 <= |s| && AllDigits(s) && ParseDecimal(s) == n
    requires s[0] == '0' ==> |s| == 2
    ensures s == Pad2(n)
  {
    if s[0] == '0' {
      assert ParseDecimal(s[..1]) == 0 by {
        assert s[..1][..0] == [];
      }
      assert n == DigitValue(s[1]);
      assert DigitChar(DigitValue(s[1])) == s[1];
      assert s == ['0', DigitChar(n)];
    } else {
      DecimalUnique(s);
      DecimalLength(n);
    }
  }

  lemma Pad2Injective(m: nat, n: nat)
    ensures Pad2(m) == Pad2(n) <==> m == n
  {
    ParseDecimalOfPad2(m);
    ParseDecimalOfPad2(n);
  }

  /** Length of the longest prefix of `s` made of digits. */
  function DigitRun(s: string): (k: nat)
    ensures k <= |s| && AllDigits(s[..k])
    ensures k < |s| ==> !IsDigit(s[k])
  {
    if s == [] || !IsDigit(s[0]) then 0
    else
      var k := 1 + DigitRun(s[1..]);
      assert s[..k] == [s[0]] + s[1..][..k - 1];
      k
  }

  lemma {:induction false} DigitRunOfDigitsThen(d: string, t: string)
    requires AllDigits(d)
    requires t == [] || !IsDigit(t[0])
    ensures DigitRun(d + t) == |d|
  {
    if d != [] {
      assert (d + t)[1..] == d[1..] + t;
      DigitRunOfDigitsThen(d[1..], t);
    }
  }

  /**
   * The concatenation of the pieces of a formatted string, in order. The name
   * is built from this list of pieces rather than one long `+` chain so that
   * the verifier does not unfold the whole name wherever it is mentioned;
   * `TileNameSpelledOut` gives the chain.
   */
  function Concat(parts: seq<string>): string
  {
    if parts == [] then [] else parts[0] + Concat(parts[1..])
  }

  /** The name under which the tile of cell (`row`, `col`) is saved: `f"{prefix}_r{row:02d}_c{col:02d}.png"`. */
  function TileName(prefix: string, row: nat, col: nat): string
  {
    Concat([prefix, "_r", Pad2(row), "_c", Pad2(col), ".png"])
  }

  lemma TileNameSpelledOut(prefix: string, row: nat, col: nat)
    ensures TileName(prefix, row, col) == prefix + "_r" + Pad2(row) + "_c" + Pad2(col) + ".png"
  {
    var parts := [prefix, "_r", Pad2(row), "_c", Pad2(col), ".png"];
    assert Concat(parts[5..]) == ".png" by {
      assert parts[5..][1..] == [];
    }
    assert Concat(parts[4..]) == Pad2(col) + ".png" by {
      assert parts[4..][1..] == parts[5..];
    }
    assert Concat(parts[3..]) == "_c" + Pad2(col) + ".png" by {
      assert parts[3..][1..] == parts[4..];
    }
    assert Concat(parts[2..]) == Pad2(row) + "_c" + Pad2(col) + ".png" by {
      assert parts[2..][1..] == parts[3..];
    }
    assert Concat(parts[1..]) == "_r" + Pad2(row) + "_c" + Pad2(col) + ".png" by {
      assert parts[1..][1..] == parts[2..];
    }
  }

  /** Reads the part after the row digits back: "_c", a run of digits, ".png". */
  function ParseColumnPart(tail: string): (col: Option<nat>)
  {
    if |tail| < 7 || tail[..2] != "_c" || tail[|tail| - 4..] != ".png" then None
    else
      var digits := tail[2..|tail| - 4];
      if AllDigits(digits) then Some(ParseDecimal(digits)) else None
  }

  /** Reads the part after "_r" back: a run of digits, then the column part. */
  function ParseRowAndColumn(rest: string): (cell: Option<(nat, nat)>)
  {
    var k := DigitRun(rest);
    if k == 0 then None
    else
      match ParseColumnPart(rest[k..])
      case None => None
      case Some(col) => Some((ParseDecimal(rest[..k]), col))
  }

  /**
   * Reads a tile name back: the prefix and "_r", a run of digits, "_c", a
   * run of digits and ".png"; None for anything else.
   */
  function ParseTileName(prefix: string, name: string): (cell: Option<(nat, nat)>)
  {
    var head := prefix + "_r";
    if |name| < |head| || name[..|head|] != head then None
    else ParseRowAndColumn(name[|head|..])
  }

  lemma ParseColumnPartRoundTrip(col: nat)
    ensures ParseColumnPart("_c" + Pad2(col) + ".png") == Some(col)
  {
    var tail := "_c" + Pad2(col) + ".png";
    assert tail[..2] == "_c";
    assert tail[|tail| - 4..] == ".png";
    assert tail[2..|tail| - 4] == Pad2(col);
    ParseDecimalOfPad2(col);
  }

  lemma ParseRowAndColumnRoundTrip(row: nat, col: nat)
    ensures ParseRowAndColumn(Pad2(row) + ("_c" + Pad2(col) + ".png")) == Some((row, col))
  {
    var after := "_c" + Pad2(col) + ".png";
    var rest := Pad2(row) + after;
    DigitRunOfDigitsThen(Pad2(row), after);
    var k := |Pad2(row)|;
    assert rest[..k] == Pad2(row);
    assert rest[k..] == after;
    ParseColumnPartRoundTrip(col);
    ParseDecimalOfPad2(row);
  }

  /** Every tile name reads back as the cell it was made from. */
  lemma TileNameRoundTrip(prefix: string, row: nat, col: nat)
    ensures ParseTileName(prefix, TileName(prefix, row, col)) == Some((row, col))
  {
    TileNameSpelledOut(prefix, row, col);
    var name := TileName(prefix, row, col);
    var head := prefix + "_r";
    var rest := Pad2(row) + ("_c" + Pad2(col) + ".png");
    assert name == head + rest;
    assert name[..|head|] == head && name[|head|..] == rest;
    ParseRowAndColumnRoundTrip(row, col);
  }

  /** Distinct cells get distinct file names under one prefix. */
  lemma TileNameInjective(prefix: string, r1: nat, c1: nat, r2: nat, c2: nat)
    ensures TileName(prefix, r1, c1) == TileName(prefix, r2, c2) <==> r1 == r2 && c1 == c2
  {
    TileNameRoundTrip(prefix, r1, c1);
    TileNameRoundTrip(prefix, r2, c2);
  }

  /** The name of the top-left tile with the default prefix. */
  lemma FirstTileNameExample()
    ensures TileName("tile", 0, 0) == "tile_r00_c00.png"
  {
    assert Pad2(0) == "00";
    TileNameSpelledOut("tile", 0, 0);
  }

  /** Row and column are told apart by their markers. */
  lemma SecondRowTileNameExample()
    ensures TileName("tile", 1, 0) == "tile_r01_c00.png"
  {
    assert Pad2(0) == "00" && Pad2(1) == "01";
    TileNameSpelledOut("tile", 1, 0);
  }

  /** Numbers below 10 get a leading zero; numbers of three or more digits are written out in full. */
  lemma Pad2Examples()
    ensures Pad2(0) == "00" && Pad2(7) == "07"
    ensures Pad2(42) == "42" && Pad2(105) == "105"
  {
  }
}
