/** Reading a puzzle from its 81-character string form. */
module Grid {
  import opened Topology
  import opened Candidates
  import opened BoardState
  import opened Lists

  /** The parser's outcome: a board, or the failed length assertion.  The
      bare `assert` reports no count; `kept` is added here to say how many
      entries were collected. */
  datatype GridResult = Parsed(values: Board) | BadLength(kept: nat)

  /** What one input character contributes: a clue digit stands for itself,
      '.' for all nine digits, anything else for nothing. */
  function Expand(c: char): (r: seq<string>)
    ensures ValidChar(c) ==> |r| == 1
    ensures r == [] <==> !ValidChar(c)
    ensures c in Digits ==> r == [[c]]
    ensures c == '.' ==> r == [Digits]
  {
    if c in Digits then [[c]] else if c == '.' then [Digits] else []
  }

  /** The list of entries the parser collects from `grid`, in order: one per
      digit or '.' of the input. */
  function Kept(grid: string): (chars: seq<string>)
    ensures |chars| <= |grid|
    ensures |chars| == |Select(grid, ValidChar)|
    ensures forall k :: 0 <= k < |chars| ==> chars[k] == Digits || (|chars[k]| == 1 && chars[k][0] in Digits)
  {
    if grid == [] then [] else Expand(grid[0]) + Kept(grid[1..])
  }

  /** `dict(zip(boxes, chars))` for a list of exactly 81 entries. */
  function ZipBoxes(chars: seq<string>): (b: Board)
    requires |chars| == 81
    ensures Total(b)
    ensures forall i :: 0 <= i < 81 ==> b[Boxes()[i]] == chars[i]
  {
    BoxesComplete();
    var b := map c | c in Boxes() :: chars[9 * c.row + c.col];
    ZipBoxesAt(chars, b);
    b
  }

  /** A board keyed by cell position agrees with the list entry by entry. */
  lemma ZipBoxesAt(chars: seq<string>, b: Board)
    requires |chars| == 81
    requires forall c: Cell :: c in b && b[c] == chars[9 * c.row + c.col]
    ensures forall i :: 0 <= i < 81 ==> b[Boxes()[i]] == chars[i]
  {
    forall i | 0 <= i < 81 ensures b[Boxes()[i]] == chars[i] {
      BoxAt(i);
    }
  }

  /** The parser as a function of the input string. */
  function ParseGrid(grid: string): (r: GridResult)
    ensures r.Parsed? <==> |Kept(grid)| == 81
    ensures r.BadLength? ==> r.kept == |Kept(grid)|
    ensures r.Parsed? ==> Total(r.values) && forall i :: 0 <= i < 81 ==> r.values[Boxes()[i]] == Kept(grid)[i]
  {
    var chars := Kept(grid);
    if |chars| == 81 then Parsed(ZipBoxes(chars)) else BadLength(|chars|)
  }

  lemma {:induction false} KeptAppend(a: string, b: string)
    ensures Kept(a + b) == Kept(a) + Kept(b)
  {
    if a == [] {
      assert a + b == b;
    } else {
      assert (a + b)[0] == a[0] && (a + b)[1..] == a[1..] + b;
      KeptAppend(a[1..], b);
    }
  }

  lemma KeptStep(grid: string, i: int)
    requires 0 <= i < |grid|
    ensures Kept(grid[..i + 1]) == Kept(grid[..i]) + Expand(grid[i])
  {
    var c := grid[i];
    assert grid[..i + 1] == grid[..i] + [c];
    KeptAppend(grid[..i], [c]);
    assert Kept([c]) == Expand(c) by { assert [c][1..] == []; }
  }

  /** grid_values: collects one entry per clue or '.', then zips them with the boxes. */
  method GridValues(grid: string) returns (r: GridResult)
    ensures r == ParseGrid(grid)
  {
    var chars: seq<string> := [];
    for i := 0 to |grid|
      invariant chars == Kept(grid[..i])
    {
      var c := grid[i];
      KeptStep(grid, i);
      if c in Digits {
        chars := chars + [[c]];
      }
      if c == '.' {
        chars := chars + [Digits];
      }
    }
    assert grid[..|grid|] == grid;
    if |chars| != 81 {
      return BadLength(|chars|);
    }
    r := Parsed(ZipBoxes(chars));
  }

  // ---------------------------------------------------------------------
  // Round trip with the string form of a board

  /** The character a box contributes to the string form: its digit when
      solved, '.' otherwise. */
  function CellChar(v: string): char {
    if |v| == 1 then v[0] else '.'
  }

  /** The 81-character string form of a board, row by row. */
  function Render(b: Board): (g: string)
    requires Total(b)
    ensures |g| == 81
  {
    BoxesRowMajor();
    seq(81, i requires 0 <= i < 81 => CellChar(b[Boxes()[i]]))
  }

  /** A board the parser can produce: every box holds one digit or all nine. */
  ghost predicate Initial(b: Board)
    requires Total(b)
  {
    forall c: Cell :: b[c] == Digits || (|b[c]| == 1 && b[c][0] in Digits)
  }

  predicate ValidChar(c: char) { c in Digits || c == '.' }

  /** When every character is a clue or '.', each one gives exactly one entry. */
  lemma {:induction false} KeptValid(grid: string)
    requires forall i :: 0 <= i < |grid| ==> ValidChar(grid[i])
    ensures |Kept(grid)| == |grid|
    ensures forall i :: 0 <= i < |grid| ==> Kept(grid)[i] == Expand(grid[i])[0]
  {
    if grid != [] {
      KeptValid(grid[1..]);
      assert |Expand(grid[0])| == 1;
    }
  }

  lemma ExpandCellChar(v: string)
    requires v == Digits || (|v| == 1 && v[0] in Digits)
    ensures ValidChar(CellChar(v)) && Expand(CellChar(v)) == [v]
  {
    if |v| == 1 {
      assert v == [v[0]];
    }
  }

  lemma KeptOfRender(b: Board)
    requires Total(b) && Initial(b)
    ensures |Kept(Render(b))| == 81
    ensures forall i :: 0 <= i < 81 ==> Kept(Render(b))[i] == b[Boxes()[i]]
  {
    var g := Render(b);
    BoxesRowMajor();
    forall i | 0 <= i < 81 ensures ValidChar(g[i]) && Expand(g[i])[0] == b[Boxes()[i]] {
      ExpandCellChar(b[Boxes()[i]]);
    }
    KeptValid(g);
  }

  /** Parsing the string form of a parsable board gives the board back. */
  lemma ParseRender(b: Board)
    requires Total(b) && Initial(b)
    ensures ParseGrid(Render(b)) == Parsed(b)
  {
    KeptOfRender(b);
    var r := ParseGrid(Render(b));
    SameEntriesSameBoard(r.values, b);
  }

  /** Two total boards that agree on every box are equal. */
  lemma SameEntriesSameBoard(b1: Board, b2: Board)
    requires Total(b1) && Total(b2)
    requires forall i :: 0 <= i < 81 ==> b1[Boxes()[i]] == b2[Boxes()[i]]
    ensures b1 == b2
  {
    BoxesRowMajor();
    forall c: Cell ensures b1[c] == b2[c] {
      assert Boxes()[9 * c.row + c.col] == c;
    }
    assert b1.Keys == b2.Keys;
  }

  /** Rendering a parsed well-formed string gives the string back. */
  lemma RenderParse(grid: string)
    requires |grid| == 81 && forall i :: 0 <= i < 81 ==> ValidChar(grid[i])
    ensures ParseGrid(grid).Parsed? && Render(ParseGrid(grid).values) == grid
  {
    KeptValid(grid);
    var g := Render(ParseGrid(grid).values);
    forall i | 0 <= i < 81 ensures g[i] == grid[i] {
    }
  }

  /** A string with fewer than 81 characters is rejected, whatever it holds. */
  lemma ShortGridRejected(grid: string)
    requires |grid| < 81
    ensures ParseGrid(grid) == BadLength(|Kept(grid)|)
  {
  }
}
