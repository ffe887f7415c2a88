/** Cells of a rectangular board and snake bodies as sequences of cells.
    Shared by the terminal game (snake_game.cpp) and the browser game (game.js). */
module Grid {

  /** A cell (or, in the browser game, a pixel corner) on the board. */
  datatype Pos = Pos(x: int, y: int)

  /** No cell occurs twice in `s`. */
  predicate Distinct(s: seq<Pos>)
  {
    forall i, j :: 0 <= i < j < |s| ==> s[i] != s[j]
  }

  /** Dropping the first entry of a repeat-free sequence leaves one without
      repeats that does not contain that entry. */
  lemma DistinctRest(s: seq<Pos>)
    requires Distinct(s) && s != []
    ensures Distinct(s[1..]) && s[0] !in s[1..]
  {
    forall i, j | 0 <= i < j < |s| - 1 ensures s[1..][i] != s[1..][j] {
      assert s[1..][i] == s[i + 1] && s[1..][j] == s[j + 1];
    }
  }

  function Abs(n: int): nat
  {
    if n < 0 then -n else n
  }

  /** How many rows plus columns separate two cells. */
  function Distance(p: Pos, q: Pos): nat
  {
    Abs(q.x - p.x) + Abs(q.y - p.y)
  }

  /** In a sequence without repeats every cell occurs at most once. */
  lemma {:induction false} DistinctOnce(s: seq<Pos>, p: Pos)
    requires Distinct(s)
    ensures multiset(s)[p] <= 1
  {
    if s != [] {
      DistinctRest(s);
      DistinctOnce(s[1..], p);
      assert s == [s[0]] + s[1..];
    }
  }

  predicate InBox(p: Pos, w: int, h: int)
  {
    0 <= p.x < w && 0 <= p.y < h
  }

  predicate AllInBox(s: seq<Pos>, w: int, h: int)
  {
    forall i :: 0 <= i < |s| ==> InBox(s[i], w, h)
  }

  /** One step of a snake body whose segment 0 is the head: the new head `h`
      becomes segment 0 and every other segment takes the place its
      predecessor held; the last segment is dropped unless the snake `grow`s.
      An empty body that does not grow stays empty. */
  function Advance(body: seq<Pos>, h: Pos, grow: bool): (r: seq<Pos>)
    ensures |r| == if grow then |body| + 1 else |body|
    ensures |r| > 0 ==> r[0] == h
    ensures forall i :: 1 <= i < |r| ==> r[i] == body[i - 1]
  {
    if grow then [h] + body
    else if body == [] then []
    else [h] + body[..|body| - 1]
  }

  /** The segments that survive a step: all of them on growth, all but the last otherwise. */
  function Kept(body: seq<Pos>, grow: bool): (r: seq<Pos>)
    ensures |r| == if grow || body == [] then |body| else |body| - 1
    ensures forall i :: 0 <= i < |r| ==> r[i] == body[i]
  {
    if grow || body == [] then body else body[..|body| - 1]
  }

  /** A step keeps the body free of repeated cells exactly when the new head
      lands on none of the segments that stay. */
  lemma AdvanceKeepsDistinct(body: seq<Pos>, h: Pos, grow: bool)
    requires Distinct(body)
    requires h !in Kept(body, grow)
    ensures Distinct(Advance(body, h, grow))
  {
    var r := Advance(body, h, grow);
    forall i, j | 0 <= i < j < |r| ensures r[i] != r[j] {
      if i == 0 {
        assert r[j] == Kept(body, grow)[j - 1];
      } else {
        assert r[i] == body[i - 1] && r[j] == body[j - 1];
      }
    }
  }

  /** A step keeps every segment inside the box when the new head is inside it. */
  lemma AdvanceKeepsInBox(body: seq<Pos>, h: Pos, grow: bool, w: int, ht: int)
    requires AllInBox(body, w, ht)
    requires InBox(h, w, ht)
    ensures AllInBox(Advance(body, h, grow), w, ht)
  {
    var r := Advance(body, h, grow);
    forall i | 0 <= i < |r| ensures InBox(r[i], w, ht) {
      if i > 0 {
        assert r[i] == body[i - 1];
      }
    }
  }

  /** Pairs up two parallel coordinate sequences, as the tail arrays are stored. */
  function Zip(xs: seq<int>, ys: seq<int>): (r: seq<Pos>)
    requires |xs| == |ys|
    ensures |r| == |xs|
    ensures forall i :: 0 <= i < |r| ==> r[i] == Pos(xs[i], ys[i])
  {
    seq(|xs|, i requires 0 <= i < |xs| => Pos(xs[i], ys[i]))
  }

  /** The cells of row `y`, columns 0 to w-1. */
  ghost function RowCells(w: int, y: int): set<Pos>
  {
    set x | 0 <= x < w :: Pos(x, y)
  }

  /** All cells of a w-by-h board. */
  ghost function Cells(w: int, h: int): (c: set<Pos>)
    ensures forall p :: p in c <==> InBox(p, w, h)
  {
    var c := set x, y | 0 <= x < w && 0 <= y < h :: Pos(x, y);
    assert forall p :: InBox(p, w, h) ==> p in c by {
      forall p | InBox(p, w, h) ensures p in c {
        assert p == Pos(p.x, p.y);
      }
    }
    c
  }

  lemma {:induction false} RowCount(w: nat, y: int)
    ensures |RowCells(w, y)| == w
  {
    if w > 0 {
      RowCount(w - 1, y);
      assert RowCells(w, y) == RowCells(w - 1, y) + {Pos(w - 1, y)};
    }
  }

  /** The board one row taller is the old board plus its new bottom row. */
  lemma AddRow(w: nat, h: nat)
    ensures Cells(w, h + 1) == Cells(w, h) + RowCells(w, h)
    ensures Cells(w, h) !! RowCells(w, h)
  {
    forall p | p in RowCells(w, h) ensures InBox(p, w, h + 1) { }
  }

  /** A w-by-h board has exactly w*h cells. */
  lemma {:induction false} CellsCount(w: nat, h: nat)
    ensures |Cells(w, h)| == w * h
  {
    if h > 0 {
      CellsCount(w, h - 1);
      RowCount(w, h - 1);
      AddRow(w, h - 1);
      assert w * h == w * (h - 1) + w;
    }
  }

  /** The set of cells a sequence visits has at most as many elements as the sequence. */
  lemma {:induction false} CellsOfSeqCount(s: seq<Pos>)
    ensures |set p | p in s| <= |s|
  {
    if s != [] {
      var init := s[..|s| - 1];
      CellsOfSeqCount(init);
      assert (set p | p in s) == (set p | p in init) + {s[|s| - 1]} by {
        assert s == init + [s[|s| - 1]];
      }
    }
  }

  /** A sequence without repeats visits exactly as many cells as it has entries. */
  lemma {:induction false} DistinctCellsCount(s: seq<Pos>)
    requires Distinct(s)
    ensures |set p | p in s| == |s|
  {
    if s != [] {
      var init, last := s[..|s| - 1], s[|s| - 1];
      DistinctCellsCount(init);
      assert (set p | p in s) == (set p | p in init) + {last} by {
        assert s == init + [last];
      }
      assert last !in init;
    }
  }

  lemma SubsetCount(a: set<Pos>, b: set<Pos>)
    requires a <= b
    ensures |a| <= |b|
  {
    assert b == a + (b - a);
  }

  /** Pigeonhole: fewer occupied entries than board cells leaves a free cell. */
  lemma FreeCellExists(occupied: seq<Pos>, w: nat, h: nat)
    requires |occupied| < w * h
    ensures exists p :: InBox(p, w, h) && p !in occupied
  {
    var all, used := Cells(w, h), set p | p in occupied;
    CellsCount(w, h);
    CellsOfSeqCount(occupied);
    if all <= used {
      SubsetCount(all, used);
      assert false;
    }
    var p :| p in all && p !in used;
    assert InBox(p, w, h) && p !in occupied;
  }
}
