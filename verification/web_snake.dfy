/** The browser game (game.js): a snake of pixel corners on a 400-pixel
    square canvas, moving one 20-pixel box per tick. */
module WebSnake {
  import opened Grid

  /** Side of one grid square, in pixels. */
  const Box := 20
  /** Side of the canvas, in pixels. */
  const CanvasSize := 400
  /** Grid squares along one side of the canvas. */
  const Span := CanvasSize / Box

  datatype Heading = Up | Down | Left | Right

  /** The reversal that changeDirection refuses. */
  function Opposite(d: Heading): (o: Heading)
    ensures o != d
    ensures (d == Left <==> o == Right) && (d == Up <==> o == Down)
  {
    match d
    case Up => Down
    case Down => Up
    case Left => Right
    case Right => Left
  }

  /** The key codes changeDirection reacts to: arrows 37-40 and A, W, D, S. */
  predicate TurnKey(key: int)
  {
    key == 37 || key == 65 || key == 38 || key == 87 || key == 39 || key == 68 || key == 40 || key == 83
  }

  /** The heading after key `key` when the snake is heading `d`: the key's
      heading unless that is the reverse of `d`. */
  function Turn(d: Heading, key: int): (r: Heading)
    ensures r != Opposite(d)
    ensures !TurnKey(key) ==> r == d
    ensures (key == 37 || key == 65) ==> r == (if d == Right then d else Left)
    ensures (key == 38 || key == 87) ==> r == (if d == Down then d else Up)
    ensures (key == 39 || key == 68) ==> r == (if d == Left then d else Right)
    ensures (key == 40 || key == 83) ==> r == (if d == Up then d else Down)
  {
    var wanted :=
      if key == 37 || key == 65 then Left
      else if key == 38 || key == 87 then Up
      else if key == 39 || key == 68 then Right
      else if key == 40 || key == 83 then Down
      else d;
    if wanted == Opposite(d) then d else wanted
  }

  /** The top-left corner of the head after one box in heading `d`; the
      canvas's y axis points down. */
  function Step(p: Pos, d: Heading): (q: Pos)
    ensures d == Left ==> q == Pos(p.x - Box, p.y)
    ensures d == Right ==> q == Pos(p.x + Box, p.y)
    ensures d == Up ==> q == Pos(p.x, p.y - Box)
    ensures d == Down ==> q == Pos(p.x, p.y + Box)
  {
    match d
    case Left => Pos(p.x - Box, p.y)
    case Right => Pos(p.x + Box, p.y)
    case Up => Pos(p.x, p.y - Box)
    case Down => Pos(p.x, p.y + Box)
  }

  /** A step covers exactly one box, along one axis. */
  lemma StepDistance(p: Pos, d: Heading)
    ensures Distance(p, Step(p, d)) == Box
    ensures Step(p, d).x == p.x || Step(p, d).y == p.y
  {
  }

  /** A corner on the grid lines (both coordinates multiples of the box), on
      the canvas or not. */
  predicate Aligned(p: Pos)
  {
    p.x % Box == 0 && p.y % Box == 0
  }

  predicate OnCanvas(p: Pos)
  {
    InBox(p, CanvasSize, CanvasSize)
  }

  /** The corner of grid square (col, row): what
      `Math.floor(Math.random() * canvasSize / box) * box` yields for a draw of
      that square. */
  function Square(col: int, row: int): (p: Pos)
    requires 0 <= col < Span && 0 <= row < Span
    ensures Aligned(p) && OnCanvas(p)
    ensures 0 <= p.x <= CanvasSize - Box && 0 <= p.y <= CanvasSize - Box
    ensures p.x / Box == col && p.y / Box == row
  {
    Pos(col * Box, row * Box)
  }

  /** Every aligned corner on the canvas is the corner of exactly one square. */
  lemma SquareOfAligned(p: Pos)
    requires Aligned(p) && OnCanvas(p)
    ensures 0 <= p.x / Box < Span && 0 <= p.y / Box < Span
    ensures Square(p.x / Box, p.y / Box) == p
  {
  }

  /** A step moves an aligned corner to an aligned corner. */
  lemma StepKeepsAligned(p: Pos, d: Heading)
    requires Aligned(p)
    ensures Aligned(Step(p, d))
  {
  }

  /** collision: whether `head` equals an entry of `body` after entry 0. */
  method Collision(head: Pos, body: seq<Pos>) returns (hit: bool)
    ensures hit <==> exists i :: 1 <= i < |body| && body[i] == head
    ensures |body| > 0 ==> (hit <==> head in body[1..])
  {
    var i := 1;
    while i < |body|
      invariant 1 <= i
      invariant forall k :: 1 <= k < i && k < |body| ==> body[k] != head
    {
      if head == body[i] {
        assert body[1..][i - 1] == head;
        return true;
      }
      i := i + 1;
    }
    return false;
  }

  /** Lines 55-61 of draw: the head's corner moved one box by the four
      heading tests. */
  method MoveCorner(head: Pos, direction: Heading) returns (snakeX: int, snakeY: int)
    ensures Pos(snakeX, snakeY) == Step(head, direction)
  {
    snakeX := head.x;
    snakeY := head.y;

    if direction == Left { snakeX := snakeX - Box; }
    if direction == Up { snakeY := snakeY - Box; }
    if direction == Right { snakeX := snakeX + Box; }
    if direction == Down { snakeY := snakeY + Box; }
  }

  /** A snake that keeps playing: no two segments in one square, all on the canvas. */
  ghost predicate Healthy(snake: seq<Pos>)
  {
    Distinct(snake) && AllInBox(snake, CanvasSize, CanvasSize)
  }

  /** A tick whose new head lands on the canvas and off the segments that stay
      (the ones the stop test scans) keeps the snake healthy. */
  lemma TickKeepsHealthy(snake: seq<Pos>, h: Pos, grow: bool)
    requires Healthy(snake)
    requires OnCanvas(h) && h !in Kept(snake, grow)
    ensures Healthy(Advance(snake, h, grow))
  {
    AdvanceKeepsDistinct(snake, h, grow);
    AdvanceKeepsInBox(snake, h, grow, CanvasSize, CanvasSize);
  }

  /** The global state of game.js: the snake (entry 0 the head), the heading,
      the food, and whether the timer has been cleared. */
  class Game {
    var snake: seq<Pos>
    var direction: Heading
    var food: Pos
    var stopped: bool

    ghost predicate Valid()
      reads this
    {
      |snake| >= 1 && (forall i :: 0 <= i < |snake| ==> Aligned(snake[i]))
      && Aligned(food) && OnCanvas(food)
    }

    /** The program's start: one segment at (200, 200) heading right, food in
        square (foodCol, foodRow). */
    constructor (foodCol: int, foodRow: int)
      requires 0 <= foodCol < Span && 0 <= foodRow < Span
      ensures Valid()
      ensures snake == [Pos(200, 200)] && direction == Right && !stopped
      ensures food == Square(foodCol, foodRow)
    {
      snake := [Pos(200, 200)];
      direction := Right;
      food := Pos(foodCol * Box, foodRow * Box);
      stopped := false;
    }

    /** changeDirection: the four tests read the heading as it was before the key. */
    method ChangeDirection(key: int)
      modifies this`direction
      ensures direction == Turn(old(direction), key)
    {
      var goingUp := direction == Up;
      var goingDown := direction == Down;
      var goingRight := direction == Right;
      var goingLeft := direction == Left;
      if (key == 37 || key == 65) && !goingRight {
        direction := Left;
      }
      if (key == 38 || key == 87) && !goingDown {
        direction := Up;
      }
      if (key == 39 || key == 68) && !goingLeft {
        direction := Right;
      }
      if (key == 40 || key == 83) && !goingUp {
        direction := Down;
      }
    }

    /** The state update of draw: move the head one box, eat the food (the
        next food is square (foodCol, foodRow)) or pop the last segment,
        put the new head in front, then stop the timer when the head is off
        the canvas or on a segment after it. */
    method Draw(foodCol: int, foodRow: int)
      requires Valid() && !stopped
      requires 0 <= foodCol < Span && 0 <= foodRow < Span
      modifies this
      ensures Valid() && direction == old(direction)
      ensures snake[0] == Step(old(snake[0]), direction)
      ensures snake == Advance(old(snake), snake[0], snake[0] == old(food))
      ensures snake[1..] == Kept(old(snake), snake[0] == old(food))
      ensures food == if snake[0] == old(food) then Square(foodCol, foodRow) else old(food)
      ensures stopped <==> !OnCanvas(snake[0]) || snake[0] in snake[1..]
      ensures old(Healthy(snake)) && !stopped ==> Healthy(snake)
    {
      ghost var before := snake;
      var snakeX, snakeY := MoveCorner(snake[0], direction);
      StepKeepsAligned(before[0], direction);

      var ate := snakeX == food.x && snakeY == food.y;
      if ate {
        food := Pos(foodCol * Box, foodRow * Box);
      } else {
        snake := snake[..|snake| - 1];
      }

      var newHead := Pos(snakeX, snakeY);
      snake := [newHead] + snake;

      var stop := snakeX < 0 || snakeX >= CanvasSize || snakeY < 0 || snakeY >= CanvasSize;
      if !stop {
        stop := Collision(newHead, snake);
      }
      if stop {
        stopped := true;
      }

      assert snake[1..] == Kept(before, ate);

      if Healthy(before) && !stopped {
        TickKeepsHealthy(before, newHead, ate);
      }
    }
  }
}
