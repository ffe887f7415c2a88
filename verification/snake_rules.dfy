/** Board constants, directions and the invariant of a running terminal game
    (snake_game.cpp). */
module SnakeRules {
  import opened Grid

  const Width := 5
  const Height := 2
  /** Capacity of the tail coordinate arrays. */
  const Capacity := 100
  /** Points gained per fruit. */
  const ScoreIncrement := 10

  datatype Direction = Stop | Left | Right | Up | Down

  /** The reversal that Input refuses; Stop has none. */
  function Opposite(d: Direction): (o: Direction)
    ensures d == Stop <==> o == Stop
    ensures o != d || d == Stop
    ensures (d == Left <==> o == Right) && (d == Up <==> o == Down)
  {
    match d
    case Stop => Stop
    case Left => Right
    case Right => Left
    case Up => Down
    case Down => Up
  }

  predicate OnBoard(p: Pos)
  {
    InBox(p, Width, Height)
  }

  /** Where the head goes in one tick: one cell in the direction, or nowhere for Stop.
      Up decreases the row, Down increases it. */
  function Move(p: Pos, d: Direction): (q: Pos)
    ensures d == Stop ==> q == p
    ensures d == Left ==> q.y == p.y && q.x == p.x - 1
    ensures d == Right ==> q.y == p.y && q.x == p.x + 1
    ensures d == Up ==> q.x == p.x && q.y == p.y - 1
    ensures d == Down ==> q.x == p.x && q.y == p.y + 1
  {
    match d
    case Stop => p
    case Left => Pos(p.x - 1, p.y)
    case Right => Pos(p.x + 1, p.y)
    case Up => Pos(p.x, p.y - 1)
    case Down => Pos(p.x, p.y + 1)
  }

  /** A move other than STOP covers exactly one cell, along one axis. */
  lemma MoveDistance(p: Pos, d: Direction)
    ensures d != Stop ==> Distance(p, Move(p, d)) == 1
    ensures Move(p, d).x == p.x || Move(p, d).y == p.y
  {
  }

  /** The state of a game that has not ended: head and fruit on the board and
      apart, the tail entries (whose entry 0 is the head once the snake has
      eaten) on the board, pairwise apart and clear of the fruit, and fewer
      entries than cells. */
  ghost predicate Playable(head: Pos, fruit: Pos, tail: seq<Pos>)
  {
    OnBoard(head) && OnBoard(fruit) && fruit != head && fruit !in tail
    && |tail| < Width * Height
    && (|tail| > 0 ==> tail[0] == head)
    && AllInBox(tail, Width, Height) && Distinct(tail)
  }

  /** A tick that ends without a wall hit, a self hit or a full board keeps the
      game playable: the tail advances (growing when the fruit is eaten) and a
      fresh fruit off the old tail and off the new head replaces an eaten one. */
  lemma TickKeepsPlayable(head: Pos, fruit: Pos, tail: seq<Pos>, newHead: Pos, newFruit: Pos)
    requires Playable(head, fruit, tail)
    requires OnBoard(newHead) && newHead !in tail
    requires newHead == fruit ==> |tail| != Width * Height - 1
    requires newHead == fruit ==> OnBoard(newFruit) && newFruit != newHead && newFruit !in tail
    requires newHead != fruit ==> newFruit == fruit
    ensures Playable(newHead, newFruit, Advance(tail, newHead, newHead == fruit))
  {
    var ate := newHead == fruit;
    var next := Advance(tail, newHead, ate);
    AdvanceKeepsDistinct(tail, newHead, ate);
    AdvanceKeepsInBox(tail, newHead, ate, Width, Height);
    forall i | 0 <= i < |next| ensures next[i] != newFruit {
      if i > 0 {
        assert next[i] == tail[i - 1];
      }
    }
  }

  /** With as many tail entries as cells but one, the fruit's cell is the only
      one the tail leaves free: there is nowhere to put another fruit. */
  lemma FullBoardLeavesNoCell(head: Pos, fruit: Pos, tail: seq<Pos>)
    requires Playable(head, fruit, tail)
    requires |tail| == Width * Height - 1
    ensures forall p :: OnBoard(p) && p != fruit ==> p in tail
  {
    var used := set p | p in tail;
    DistinctCellsCount(tail);
    CellsCount(Width, Height);
    forall p | OnBoard(p) && p != fruit ensures p in tail {
      if p !in tail {
        assert used + {fruit, p} <= Cells(Width, Height);
        SubsetCount(used + {fruit, p}, Cells(Width, Height));
        assert false;
      }
    }
  }

  /** Short of a full board, a cell off the tail and off the head is left for the fruit. */
  lemma RoomForFruit(head: Pos, tail: seq<Pos>)
    requires |tail| < Width * Height - 1
    ensures exists p :: OnBoard(p) && p != head && p !in tail
  {
    FreeCellExists(tail + [head], Width, Height);
    var p :| InBox(p, Width, Height) && p !in tail + [head];
    assert OnBoard(p) && p != head && p !in tail;
  }
}
