/** The terminal game of snake_game.cpp: its global state as one object, with
    Setup, Input, the per-tick Algorithm, the read-only helpers overlapsTail and
    is_gameBoard_full, and Draw's frame. */
module SnakeGame {
  import opened Grid
  import opened SnakeRules
  import SnakeFrame

  /** The tail array after the in-place shift of one tick, for a tail of `n`
      entries: entry 0 takes `v`, entries 1 to n-1 take their predecessor's old
      value, and the rest of the array is untouched. */
  function ShiftIn(a: seq<int>, v: int, n: nat): (r: seq<int>)
    requires 1 <= |a| && n <= |a|
    ensures |r| == |a| && r[0] == v
    ensures forall i :: 1 <= i < n ==> r[i] == a[i - 1]
    ensures forall i :: 1 <= i < |a| && n <= i ==> r[i] == a[i]
  {
    if n <= 1 then a[0 := v] else [v] + a[..n - 1] + a[n..]
  }

  /** Read as entries, the in-place shift of both coordinate arrays is one
      step of the tail: the head enters at 0 and each entry moves back by one,
      the last one dropping out unless the tail grew by one. */
  lemma ShiftInAdvance(ax: seq<int>, ay: seq<int>, vx: int, vy: int, n: nat, grow: bool)
    requires |ax| == |ay| >= 1
    requires (if grow then n + 1 else n) <= |ax|
    ensures var m := if grow then n + 1 else n;
            Zip(ShiftIn(ax, vx, m)[..m], ShiftIn(ay, vy, m)[..m]) == Advance(Zip(ax[..n], ay[..n]), Pos(vx, vy), grow)
  {
    var m := if grow then n + 1 else n;
    var lhs := Zip(ShiftIn(ax, vx, m)[..m], ShiftIn(ay, vy, m)[..m]);
    var rhs := Advance(Zip(ax[..n], ay[..n]), Pos(vx, vy), grow);
    assert |lhs| == |rhs|;
    forall i | 0 <= i < |lhs| ensures lhs[i] == rhs[i] {
      if i > 0 {
        assert rhs[i] == Zip(ax[..n], ay[..n])[i - 1];
      }
    }
  }

  /** The values of the program's globals at one moment, the tail arrays read
      as sequences. */
  datatype Snapshot = Snapshot(
    x: int, y: int, fruitX: int, fruitY: int, score: int,
    tailX: seq<int>, tailY: seq<int>, nTail: int, dir: Direction, gameover: bool)
  {
    ghost predicate Valid()
    {
      |tailX| == Capacity && |tailY| == Capacity && 0 <= nTail <= Width * Height && 0 <= score
    }

    function Head(): Pos
    {
      Pos(x, y)
    }

    function Fruit(): Pos
    {
      Pos(fruitX, fruitY)
    }

    /** The entries tail[0..nTail) as cells. */
    function Tail(): (t: seq<Pos>)
      requires Valid()
      ensures |t| == nTail
    {
      Zip(tailX[..nTail], tailY[..nTail])
    }

    /** The game is in a state a running game keeps. */
    ghost predicate Running()
      requires Valid()
    {
      Playable(Head(), Fruit(), Tail())
    }
  }

  /** One tick of Algorithm takes `s` to `t`. The head moves one cell in the
      direction (none for Stop). `gameover` is set, and stays set, when the new
      head is off the board or on any tail entry of `s` (the one about to be
      vacated included), or when it eats the fruit with the board full. Eating
      adds the score increment and one tail entry; a new fruit lies on the
      board, off the new head and off every tail entry of `s`, except on a full
      board, where the fruit stays and the frame of the moment is drawn. Not
      eating changes none of score, tail length and fruit. The tail arrays shift
      in place with the new head in entry 0. */
  ghost predicate Ticked(s: Snapshot, t: Snapshot, drew: bool, frame: seq<string>)
    requires s.Valid() && t.Valid()
  {
    var h := Move(s.Head(), s.dir);
    var ate := h == s.Fruit();
    var full := s.nTail == Width * Height - 1;
    && t.Head() == h && t.dir == s.dir
    && t.gameover == (s.gameover || !OnBoard(h) || h in s.Tail() || (ate && full))
    && t.score == (if ate then s.score + ScoreIncrement else s.score)
    && t.nTail == (if ate then s.nTail + 1 else s.nTail)
    && (ate && !full ==> OnBoard(t.Fruit()) && t.Fruit() != h && t.Fruit() !in s.Tail())
    && (!ate || full ==> t.Fruit() == s.Fruit())
    && t.tailX == ShiftIn(s.tailX, h.x, t.nTail) && t.tailY == ShiftIn(s.tailY, h.y, t.nTail)
    && (drew <==> ate && full)
    && (drew ==> frame == SnakeFrame.Frame(h, s.Fruit(), s.Tail(), t.score))
  }

  /** Lines 180-193 of Algorithm, from `s` (head already moved) to `t`: on
      the fruit, score and grow by one, and place a new fruit off the tail and
      off the head, or, with the board full, draw the frame and end the game. */
  ghost predicate FruitStep(s: Snapshot, t: Snapshot, drew: bool, frame: seq<string>)
    requires s.Valid() && t.Valid()
  {
    var h := s.Head();
    var ate, full := h == s.Fruit(), s.nTail == Width * Height - 1;
    && t == s.(score := t.score, nTail := t.nTail, fruitX := t.fruitX, fruitY := t.fruitY,
               gameover := t.gameover)
    && t.gameover == (s.gameover || (ate && full))
    && t.score == (if ate then s.score + ScoreIncrement else s.score)
    && t.nTail == (if ate then s.nTail + 1 else s.nTail)
    && (ate && !full ==> OnBoard(t.Fruit()) && t.Fruit() != h && t.Fruit() !in s.Tail())
    && (!ate || full ==> t.Fruit() == s.Fruit())
    && (drew <==> ate && full)
    && (drew ==> frame == SnakeFrame.Frame(h, s.Fruit(), s.Tail(), t.score))
  }

  /** The four parts of Algorithm in sequence (move the head, detect a
      collision, eat, shift the tail) make one tick. */
  lemma StepsMakeTick(s0: Snapshot, s1: Snapshot, s2: Snapshot, s3: Snapshot, s4: Snapshot,
                      drew: bool, frame: seq<string>)
    requires s0.Valid() && s1.Valid() && s2.Valid() && s3.Valid() && s4.Valid()
    requires s1 == s0.(x := Move(s0.Head(), s0.dir).x, y := Move(s0.Head(), s0.dir).y)
    requires s2 == s1.(gameover := s1.gameover || !OnBoard(s1.Head()) || s1.Head() in s1.Tail())
    requires FruitStep(s2, s3, drew, frame)
    requires s4 == s3.(tailX := ShiftIn(s3.tailX, s3.x, s3.nTail), tailY := ShiftIn(s3.tailY, s3.y, s3.nTail))
    ensures Ticked(s0, s4, drew, frame)
  {
    assert s2.Tail() == s0.Tail();
  }

  /** After a tick, tail entry 0 is the new head and entry i the old entry
      i-1: the tail advances one step, growing by one when the fruit was eaten. */
  lemma TickAdvancesTail(s: Snapshot, t: Snapshot, drew: bool, frame: seq<string>)
    requires s.Valid() && t.Valid() && Ticked(s, t, drew, frame)
    ensures t.Tail() == Advance(s.Tail(), t.Head(), t.Head() == s.Fruit())
  {
    var ate := t.Head() == s.Fruit();
    ShiftInAdvance(s.tailX, s.tailY, t.x, t.y, s.nTail, ate);
  }

  /** A tick that does not end the game keeps it running: head and fruit on
      the board and apart, the tail on the board, repeat-free and off the fruit. */
  lemma TickKeepsRunning(s: Snapshot, t: Snapshot, drew: bool, frame: seq<string>)
    requires s.Valid() && t.Valid() && Ticked(s, t, drew, frame)
    requires s.Running() && !t.gameover
    ensures t.Running()
  {
    TickAdvancesTail(s, t, drew, frame);
    TickKeepsPlayable(s.Head(), s.Fruit(), s.Tail(), t.Head(), t.Fruit());
  }

  /** The global state of snake_game.cpp. */
  class Game {
    var gameover: bool
    var x: int
    var y: int
    var fruitX: int
    var fruitY: int
    var score: int
    var tailX: array<int>
    var tailY: array<int>
    var nTail: int
    var dir: Direction

    ghost predicate Valid()
      reads this
    {
      Width * Height <= Capacity
      && tailX.Length == Capacity && tailY.Length == Capacity && tailX != tailY
      && 0 <= nTail <= Width * Height
      && 0 <= score
    }

    ghost function Snap(): (s: Snapshot)
      reads this, tailX, tailY
      requires Valid()
      ensures s.Valid()
    {
      Snapshot(x, y, fruitX, fruitY, score, tailX[..], tailY[..], nTail, dir, gameover)
    }

    /** The entries tail[0..nTail) as cells. */
    function Segments(): (s: seq<Pos>)
      reads this, tailX, tailY
      requires Valid()
      ensures s == Snap().Tail()
    {
      assert tailX[..nTail] == tailX[..][..nTail] && tailY[..nTail] == tailY[..][..nTail];
      Zip(tailX[..nTail], tailY[..nTail])
    }

    /** Some tail entry holds (fX, fY): the exit test of the fruit loops. */
    predicate OnTail(fX: int, fY: int)
      reads this, tailX, tailY
      requires Valid()
    {
      exists i :: 0 <= i < nTail && tailX[i] == fX && tailY[i] == fY
    }

    ghost predicate Inv()
      reads this, tailX, tailY
      requires Valid()
    {
      Snap().Running()
    }

    /** The program's globals before Setup: all zero, so the direction is STOP. */
    constructor ()
      ensures Valid() && fresh(tailX) && fresh(tailY)
      ensures !gameover && dir == Stop
      ensures x == 0 && y == 0 && fruitX == 0 && fruitY == 0 && score == 0 && nTail == 0
      ensures forall i :: 0 <= i < Capacity ==> tailX[i] == 0 && tailY[i] == 0
    {
      gameover, dir := false, Stop;
      x, y, fruitX, fruitY, score, nTail := 0, 0, 0, 0, 0, 0;
      tailX := new int[Capacity](_ => 0);
      tailY := new int[Capacity](_ => 0);
    }

    /** Setup: head to the middle of the board, direction STOP, score 0, and a
        fruit sharing neither the head's column nor its row. The tail is left
        as it was. */
    method Setup()
      requires Valid()
      modifies this
      ensures Valid() && tailX == old(tailX) && tailY == old(tailY) && nTail == old(nTail)
      ensures tailX[..] == old(tailX[..]) && tailY[..] == old(tailY[..])
      ensures !gameover && dir == Stop && score == 0
      ensures x == Width / 2 && y == Height / 2
      ensures OnBoard(Pos(fruitX, fruitY)) && fruitX != x && fruitY != y
      ensures nTail == 0 ==> Inv()
    {
      gameover := false;
      dir := Stop;
      x := Width / 2;
      y := Height / 2;
      assert 0 != x && 0 != y;
      var fx, fy :| 0 <= fx < Width && 0 <= fy < Height && !(x == fx || y == fy);
      fruitX, fruitY := fx, fy;
      score := 0;
    }

    /** Input for one key: 'a', 'd', 'w', 's' turn unless that would reverse
        the current direction, 'x' ends the game, any other key does nothing. */
    method Input(key: char)
      modifies this`dir, this`gameover
      ensures key == 'a' ==> dir == if old(dir) != Right then Left else old(dir)
      ensures key == 'd' ==> dir == if old(dir) != Left then Right else old(dir)
      ensures key == 'w' ==> dir == if old(dir) != Down then Up else old(dir)
      ensures key == 's' ==> dir == if old(dir) != Up then Down else old(dir)
      ensures key !in "adws" ==> dir == old(dir)
      ensures old(dir) != Stop ==> dir != Opposite(old(dir))
      ensures gameover == (old(gameover) || key == 'x')
    {
      match key {
        case 'a' => if dir != Right { dir := Left; }
        case 'd' => if dir != Left { dir := Right; }
        case 'w' => if dir != Down { dir := Up; }
        case 's' => if dir != Up { dir := Down; }
        case 'x' => gameover := true;
        case _ =>
      }
    }

    /** overlapsTail: whether (fX, fY) is one of the tail entries. */
    method OverlapsTail(fX: int, fY: int) returns (overlaps: bool)
      requires Valid()
      ensures overlaps <==> Pos(fX, fY) in Snap().Tail()
      ensures overlaps <==> OnTail(fX, fY)
    {
      var i := 0;
      while i < nTail
        invariant 0 <= i <= nTail
        invariant forall k :: 0 <= k < i ==> !(tailX[k] == fX && tailY[k] == fY)
      {
        if tailX[i] == fX && tailY[i] == fY {
          assert Snap().Tail()[i] == Pos(fX, fY);
          return true;
        }
        i := i + 1;
      }
      return false;
    }

    /** is_gameBoard_full: the tail has one entry fewer than the board has cells.
        In a running game the fruit's cell is then the only one the tail leaves,
        so eating it leaves no cell for another fruit; short of that a cell off
        the tail and off the head is always left. */
    function IsBoardFull(): (full: bool)
      reads this, tailX, tailY
      requires Valid()
      ensures full <==> nTail + 1 == |Cells(Width, Height)|
      ensures full && Inv() ==> forall p :: OnBoard(p) && p != Pos(fruitX, fruitY) ==> p in Snap().Tail()
      ensures !full && nTail < Width * Height ==> exists p :: OnBoard(p) && p != Pos(x, y) && !OnTail(p.x, p.y)
    {
      CellsCount(Width, Height);
      assert nTail == Width * Height - 1 && Inv() ==>
               forall p :: OnBoard(p) && p != Pos(fruitX, fruitY) ==> p in Snap().Tail() by {
        if nTail == Width * Height - 1 && Inv() {
          FullBoardLeavesNoCell(Pos(x, y), Pos(fruitX, fruitY), Snap().Tail());
        }
      }
      assert nTail < Width * Height - 1 ==> exists p :: OnBoard(p) && p != Pos(x, y) && !OnTail(p.x, p.y) by {
        if nTail < Width * Height - 1 {
          var tail := Snap().Tail();
          RoomForFruit(Pos(x, y), tail);
          var p :| OnBoard(p) && p != Pos(x, y) && p !in tail;
          assert forall i :: 0 <= i < nTail ==> tail[i] == Pos(tailX[i], tailY[i]);
          assert !OnTail(p.x, p.y);
        }
      }
      nTail == Width * Height - 1
    }

    /** Draw's frame for the current state: the frame of the head, the fruit,
        tail entries 0 to nTail-1 and the score. */
    function Draw(): (f: seq<string>)
      reads this, tailX, tailY
      requires Valid()
      ensures f == SnakeFrame.Frame(Snap().Head(), Snap().Fruit(), Snap().Tail(), score)
    {
      SnakeFrame.Frame(Pos(x, y), Pos(fruitX, fruitY), Segments(), score)
    }

    /** In a playable game every board cell of Draw's frame is one character,
        at its column and row inside the walls. */
    lemma DrawCellAt(r: nat, c: nat)
      requires Valid() && Inv()
      requires r < Height && c < Width
      ensures |Draw()[r + 1]| == Width + 2
      ensures Draw()[r + 1][c + 1] == SnakeFrame.Glyph(Pos(c, r), Pos(x, y), Pos(fruitX, fruitY), Snap().Tail())[0]
    {
      SnakeFrame.FrameCellAt(Pos(x, y), Pos(fruitX, fruitY), Snap().Tail(), score, r, c);
    }

    ghost function NextHead(): Pos
      reads this
    {
      Move(Pos(x, y), dir)
    }

    /** Lines 154-169 of Algorithm: the head moves one cell in `dir`. */
    method MoveHead()
      requires Valid()
      modifies this`x, this`y
      ensures Valid()
      ensures Snap() == old(Snap().(x := NextHead().x, y := NextHead().y))
    {
      match dir {
        case Left => x := x - 1;
        case Right => x := x + 1;
        case Up => y := y - 1;
        case Down => y := y + 1;
        case Stop =>
      }
    }

    /** Lines 172-177 of Algorithm: a head off the board or on any tail entry
        sets `gameover`; an earlier `gameover` stays. */
    method DetectCollision()
      requires Valid()
      modifies this`gameover
      ensures Valid()
      ensures Snap() == old(Snap().(gameover := gameover || !OnBoard(Pos(x, y)) || Pos(x, y) in Snap().Tail()))
    {
      if x < 0 || x >= Width || y < 0 || y >= Height {
        gameover := true;
      }
      ghost var tail := Snap().Tail();
      var i := 0;
      while i < nTail
        modifies this`gameover
        invariant 0 <= i <= nTail
        invariant gameover == (old(gameover) || !OnBoard(Pos(x, y)) || Pos(x, y) in tail[..i])
      {
        if tailX[i] == x && tailY[i] == y {
          gameover := true;
        }
        assert tail[i] == Pos(tailX[i], tailY[i]);
        assert tail[..i + 1] == tail[..i] + [tail[i]];
        i := i + 1;
      }
      assert tail[..nTail] == tail;
    }

    /** Lines 180-193 of Algorithm: on the fruit, score and grow by one; place
        a new fruit off the tail and off the head, or, with the board full,
        draw the frame and end the game instead. */
    method EatFruit() returns (drew: bool, frame: seq<string>)
      requires Valid()
      requires nTail < Width * Height
      modifies this`score, this`fruitX, this`fruitY, this`gameover, this`nTail
      ensures Valid()
      ensures FruitStep(old(Snap()), Snap(), drew, frame)
    {
      drew, frame := false, [];
      if x == fruitX && y == fruitY {
        score := score + ScoreIncrement;
        if IsBoardFull() {
          frame := Draw();
          drew := true;
          gameover := true;
        } else {
          var fx, fy :| 0 <= fx < Width && 0 <= fy < Height && !OnTail(fx, fy) && !(x == fx && y == fy);
          fruitX, fruitY := fx, fy;
          assert forall i :: 0 <= i < nTail ==> old(Snap().Tail())[i] == Pos(tailX[i], tailY[i]);
        }
        nTail := nTail + 1;
      }
    }

    /** Lines 196-207 of Algorithm: entry 0 takes the head, and the loop carries
        each old entry one slot back, `prev` holding the value to put down. */
    method ShiftTail(prevX: int, prevY: int)
      requires Valid() && nTail < Capacity
      requires prevX == tailX[0] && prevY == tailY[0]
      modifies tailX, tailY
      ensures Valid()
      ensures tailX[..] == ShiftIn(old(tailX[..]), x, nTail)
      ensures tailY[..] == ShiftIn(old(tailY[..]), y, nTail)
    {
      var prevX, prevY := prevX, prevY;
      tailX[0] := x;
      tailY[0] := y;
      var i := 1;
      while i < nTail
        modifies tailX, tailY
        invariant 1 <= i < Capacity && (i <= nTail || i == 1)
        invariant tailX.Length == Capacity && tailY.Length == Capacity
        invariant prevX == old(tailX[i - 1]) && prevY == old(tailY[i - 1])
        invariant tailX[0] == x && tailY[0] == y
        invariant forall k :: 1 <= k < i ==> tailX[k] == old(tailX[k - 1]) && tailY[k] == old(tailY[k - 1])
        invariant forall k :: i <= k < Capacity ==> tailX[k] == old(tailX[k]) && tailY[k] == old(tailY[k])
      {
        var prev2X := tailX[i];
        var prev2Y := tailY[i];
        tailX[i] := prevX;
        tailY[i] := prevY;
        prevX := prev2X;
        prevY := prev2Y;
        i := i + 1;
      }
      forall k | 0 <= k < Capacity
        ensures tailX[k] == ShiftIn(old(tailX[..]), x, nTail)[k]
        ensures tailY[k] == ShiftIn(old(tailY[..]), y, nTail)[k]
      {
      }
      assert tailX[..] == ShiftIn(old(tailX[..]), x, nTail);
      assert tailY[..] == ShiftIn(old(tailY[..]), y, nTail);
    }

    /** Algorithm: one tick, as Ticked describes it; the game goes on being
        updated after `gameover` is set. `drew` tells whether the frame was
        drawn mid-tick, and `frame` is that frame. */
    method Algorithm() returns (drew: bool, frame: seq<string>)
      requires Valid()
      requires nTail < Width * Height
      modifies this, tailX, tailY
      ensures Valid() && tailX == old(tailX) && tailY == old(tailY)
      ensures Ticked(old(Snap()), Snap(), drew, frame)
      ensures Snap().Tail() == Advance(old(Snap().Tail()), Pos(x, y), Pos(x, y) == old(Pos(fruitX, fruitY)))
      ensures old(Inv()) && !gameover ==> Inv()
    {
      ghost var s0 := Snap();
      var prevX := tailX[0];
      var prevY := tailY[0];
      MoveHead();
      ghost var s1 := Snap();
      DetectCollision();
      ghost var s2 := Snap();
      drew, frame := EatFruit();
      ghost var s3 := Snap();
      ShiftTail(prevX, prevY);
      ghost var s4 := Snap();
      assert s4 == s3.(tailX := ShiftIn(s3.tailX, s3.x, s3.nTail), tailY := ShiftIn(s3.tailY, s3.y, s3.nTail));
      StepsMakeTick(s0, s1, s2, s3, s4, drew, frame);
      TickAdvancesTail(s0, s4, drew, frame);
      if s0.Running() && !gameover {
        TickKeepsRunning(s0, s4, drew, frame);
      }
    }
  }
}
