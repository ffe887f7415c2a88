/** The text frame that Draw writes for the terminal game (snake_game.cpp:69-106),
    as a sequence of lines without their line ends. */
module SnakeFrame {
  import opened Grid
  import opened SnakeRules
  import Decimal

  /** One 'o' for every tail entry on `cell`: the tail loop in Draw writes a
      mark per matching entry, so a cell held by two entries gets two. */
  function TailMarks(cell: Pos, tail: seq<Pos>): (s: string)
    ensures forall k :: 0 <= k < |s| ==> s[k] == 'o'
    ensures s == [] <==> cell !in tail
  {
    if tail == [] then []
    else (if tail[0] == cell then "o" else "") + TailMarks(cell, tail[1..])
  }

  /** The marks of a cell number the tail entries on it. */
  lemma {:induction false} TailMarksCount(cell: Pos, tail: seq<Pos>)
    ensures |TailMarks(cell, tail)| == multiset(tail)[cell]
  {
    if tail != [] {
      TailMarksCount(cell, tail[1..]);
      assert tail == [tail[0]] + tail[1..];
    }
  }

  /** What Draw writes for one board cell: the head wins over the fruit, the
      fruit over the tail, and an empty cell is a space. */
  function Glyph(cell: Pos, head: Pos, fruit: Pos, tail: seq<Pos>): (g: string)
    ensures cell == head ==> g == "O"
    ensures cell != head && cell == fruit ==> g == "F"
    ensures cell != head && cell != fruit && cell !in tail ==> g == " "
    ensures cell != head && cell != fruit && cell in tail ==>
              |g| >= 1 && forall k :: 0 <= k < |g| ==> g[k] == 'o'
    ensures cell != head && cell != fruit ==> |g| == (if cell in tail then multiset(tail)[cell] else 1)
    ensures Distinct(tail) ==> |g| == 1
  {
    if cell == head then "O"
    else if cell == fruit then "F"
    else
      assert |TailMarks(cell, tail)| == multiset(tail)[cell] by {
        TailMarksCount(cell, tail);
      }
      assert Distinct(tail) ==> multiset(tail)[cell] <= 1 by {
        if Distinct(tail) {
          DistinctOnce(tail, cell);
        }
      }
      var marks := TailMarks(cell, tail);
      if marks == [] then " " else marks
  }

  /** The pieces written one after another, first piece first. */
  function Concat(parts: seq<string>): (s: string)
  {
    if parts == [] then [] else parts[0] + Concat(parts[1..])
  }

  /** Pieces of one character each concatenate to one character per piece. */
  lemma {:induction false} ConcatSingles(parts: seq<string>)
    requires forall i :: 0 <= i < |parts| ==> |parts[i]| == 1
    ensures |Concat(parts)| == |parts|
    ensures forall k :: 0 <= k < |parts| ==> Concat(parts)[k] == parts[k][0]
  {
    if parts != [] {
      ConcatSingles(parts[1..]);
    }
  }

  /** The glyphs of row `row`, column 0 first. */
  function RowGlyphs(row: int, head: Pos, fruit: Pos, tail: seq<Pos>): (gs: seq<string>)
    ensures |gs| == Width
    ensures forall c :: 0 <= c < Width ==> gs[c] == Glyph(Pos(c, row), head, fruit, tail)
  {
    seq(Width, c requires 0 <= c < Width => Glyph(Pos(c, row), head, fruit, tail))
  }

  /** Top and bottom wall: width + 2 hashes. */
  function Wall(): (w: string)
    ensures |w| == Width + 2 && forall k :: 0 <= k < |w| ==> w[k] == '#'
  {
    seq(Width + 2, _ => '#')
  }

  /** One board row between its left and right wall. */
  function Row(row: int, head: Pos, fruit: Pos, tail: seq<Pos>): (line: string)
    ensures |line| >= 2 && line[0] == '#' && line[|line| - 1] == '#'
  {
    "#" + Concat(RowGlyphs(row, head, fruit, tail)) + "#"
  }

  /** The whole frame: wall, the rows top to bottom, wall, then the score line. */
  function Frame(head: Pos, fruit: Pos, tail: seq<Pos>, score: nat): (f: seq<string>)
    ensures |f| == Height + 3
    ensures f[0] == Wall() && f[Height + 1] == Wall()
    ensures f[Height + 2] == "Score:" + Decimal.FromNat(score)
  {
    var rows := seq(Height, i requires 0 <= i < Height => Row(i, head, fruit, tail));
    [Wall()] + rows + [Wall()] + ["Score:" + Decimal.FromNat(score)]
  }

  /** In a frame of a repeat-free tail, every row is width + 2 characters and
      the character in column col + 1 of line row + 1 is the glyph of cell (col, row). */
  lemma FrameCellAt(head: Pos, fruit: Pos, tail: seq<Pos>, score: nat, row: nat, col: nat)
    requires Distinct(tail)
    requires row < Height && col < Width
    ensures |Frame(head, fruit, tail, score)[row + 1]| == Width + 2
    ensures Frame(head, fruit, tail, score)[row + 1][col + 1] == Glyph(Pos(col, row), head, fruit, tail)[0]
  {
    var f := Frame(head, fruit, tail, score);
    var gs := RowGlyphs(row, head, fruit, tail);
    assert f[row + 1] == "#" + Concat(gs) + "#";
    ConcatSingles(gs);
  }
}
