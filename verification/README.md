# Snake game, modelled in Dafny

A model of the two snake games in the repository and proofs about them.

- **The terminal game (`snake_game.cpp`).** It plays on a 5 by 2 board. Its global state becomes the class `SnakeGame.Game`:
  - the head `x, y` and the fruit `fruitX, fruitY`;
  - `score`, the direction `dir` and the flag `gameover`;
  - the tail coordinate arrays `tailX, tailY` (capacity 100) and the tail length `nTail`.

  The functions `Setup`, `Input`, `overlapsTail`, `is_gameBoard_full` and `Algorithm` become methods and functions on that class. `Draw` becomes a function that returns the lines of text it writes.
- **The browser game (`game.js`).** It plays on a 400-pixel canvas of 20-pixel squares. Its globals (`snake`, `direction`, `food`) become the class `WebSnake.Game`, with `changeDirection` and the state update of `draw`. `collision` becomes a method with the source's loop.

The modules are:

- `Grid`: cells, snake bodies, and one step of a body (`Advance`). It also counts board cells, for the pigeonhole argument behind fruit placement.
- `SnakeRules`: the terminal game's constants and directions, and the invariant `Playable` of a game still running.
- `SnakeFrame`: the text frame of `Draw`.
- `Decimal`: the decimal text of the score.
- `SnakeGame`: the terminal game's state and operations.
- `WebSnake`: the browser game.

## How one tick is specified

`SnakeGame.Ticked(s, t, drew, frame)` says what one call of `Algorithm` does to a `Snapshot`. A snapshot holds the values of all globals, with the arrays read as sequences. `Algorithm` promises `Ticked(old(Snap()), Snap(), drew, frame)`. The source does the tick in four parts, and each part is a method with its own contract: `MoveHead`, `DetectCollision`, `EatFruit` and `ShiftTail`. `StepsMakeTick` proves that the four parts together make one tick.

The quirks of the source are kept:

- The self-collision test scans every pre-tick tail entry, including the one about to be vacated.
- A tick that sets `gameover` still eats, grows and shifts (`snake_game.cpp:171-207`).
- The head lives in `x, y`, and tail entry 0 repeats it after every tick (`snake_game.cpp:196-197`). `Playable` states the invariant of a running game in those terms.
- On a full board, `nTail` still grows by one. The frame drawn mid-tick is returned as `(drew, frame)`.
- `Setup` picks a fruit that shares neither the head's column nor its row.

## Model

| member | source | states |
|---|---|---|
| Grid.Advance | snake_game.cpp:192-207 | one step of a body: entry 0 is the new head, entry i is the old entry i-1, one entry longer when growing and the same length otherwise |
| Grid.FreeCellExists | snake_game.cpp:182-191 | fewer occupied entries than board cells leave a cell off all of them (pigeonhole), so a rejection loop for a free cell has a cell to find |
| Decimal.FromNat | snake_game.cpp:105 | the score's text is non-empty, all digits, without a leading zero, and one digit long exactly for numbers below 10 |
| Decimal.FromNatRoundTrip | snake_game.cpp:105 | reading the score's text back as a decimal number gives the score |
| SnakeRules.Opposite | snake_game.cpp:108-131 | LEFT and RIGHT reverse each other, UP and DOWN reverse each other; the reverse of a moving direction differs from it; STOP has no reverse |
| SnakeRules.Move | snake_game.cpp:154-169 | the head moves one cell: LEFT and RIGHT change x by -1 and +1, UP and DOWN change y by -1 and +1, STOP does not move it |
| SnakeRules.MoveDistance | snake_game.cpp:154-169 | a move other than STOP changes the head by exactly one cell, along one axis |
| SnakeRules.TickKeepsPlayable | snake_game.cpp:171-207 | a tick whose new head is on the board, off every tail entry, and not eating on a full board keeps the game playable: head and fruit on the board and apart, tail entries on the board, pairwise apart, off the fruit, entry 0 the head |
| SnakeRules.FullBoardLeavesNoCell | snake_game.cpp:144-146 | in a playable game with nTail == width*height-1, every cell except the fruit's is a tail entry, so no new fruit can be placed |
| SnakeRules.RoomForFruit | snake_game.cpp:182-191 | with nTail < width*height-1, some cell on the board is off the head and off every tail entry |
| SnakeFrame.TailMarks | snake_game.cpp:84-94 | a cell's tail marks are all 'o', and there are none exactly when no tail entry is on the cell |
| SnakeFrame.TailMarksCount | snake_game.cpp:86-91 | a cell gets one 'o' per tail entry on it: the number of marks is the number of times the cell occurs in the tail |
| SnakeFrame.Glyph | snake_game.cpp:80-94 | a cell shows 'O' for the head, else 'F' for the fruit, else one 'o' per tail entry on it, else a space; one character for a repeat-free tail |
| SnakeFrame.Wall | snake_game.cpp:72-73 | the top and bottom wall are width+2 '#' characters |
| SnakeFrame.Row | snake_game.cpp:76-99 | every board row begins and ends with '#' |
| SnakeFrame.Frame | snake_game.cpp:69-106 | the frame is height+3 lines: the wall, the height rows, the wall, and "Score:" followed by the score's decimal text |
| SnakeFrame.FrameCellAt | snake_game.cpp:76-99 | with a repeat-free tail, each row line is width+2 characters, and the character after the wall in column c of row r is the glyph of cell (c, r) |
| SnakeGame.ShiftIn | snake_game.cpp:196-207 | the shifted array: entry 0 is the head, entries 1 to n-1 hold their predecessors' old values, the rest are untouched |
| SnakeGame.ShiftInAdvance | snake_game.cpp:196-207 | read as cells, the in-place shift of both arrays is one step of the tail, growing by one entry when nTail was incremented |
| SnakeGame.StepsMakeTick | snake_game.cpp:148-208 | moving the head, detecting a collision, handling the fruit and shifting the tail, in that order, make one tick as Ticked states it |
| SnakeGame.TickAdvancesTail | snake_game.cpp:192-207 | after a tick, tail entry 0 is the new head, each entry i ≥ 1 is the pre-tick entry i-1, and the tail is one entry longer exactly when the fruit was eaten |
| SnakeGame.TickKeepsRunning | snake_game.cpp:148-208 | a tick that does not set gameover takes a playable game to a playable game |
| SnakeGame.Game.constructor | snake_game.cpp:9-17 | the globals before Setup are all zero: direction STOP, no tail, zeroed arrays |
| SnakeGame.Game.Setup | snake_game.cpp:56-67 | gameover false, direction STOP, score 0, head at (width/2, height/2), fruit on the board in another column and another row from the head; tail untouched; with no tail the game is playable |
| SnakeGame.Game.Input | snake_game.cpp:108-131 | 'a', 'd', 'w', 's' turn left, right, up, down unless the current direction is the reverse; 'x' sets gameover; other keys change nothing; the direction never becomes the reverse of a moving direction |
| SnakeGame.Game.OverlapsTail | snake_game.cpp:134-142 | true exactly when (fX, fY) is one of tail entries 0 to nTail-1 |
| SnakeGame.Game.IsBoardFull | snake_game.cpp:144-146 | true exactly when nTail+1 equals the number of board cells; then, in a playable game, every cell except the fruit's is a tail entry; otherwise a cell off the head and off the tail is left |
| SnakeGame.Game.Draw | snake_game.cpp:69-106 | the frame of the current head, fruit, tail entries 0 to nTail-1 and score |
| SnakeGame.Game.DrawCellAt | snake_game.cpp:76-99 | in a playable game, each row line of Draw's frame is width+2 characters, and column c+1 of line r+1 holds the glyph of cell (c, r) |
| SnakeGame.Game.MoveHead | snake_game.cpp:153-169 | the head moves one cell in dir; nothing else changes |
| SnakeGame.Game.DetectCollision | snake_game.cpp:171-177 | gameover becomes true when the head is off the board or equals any tail entry 0 to nTail-1; an earlier gameover stays; nothing else changes |
| SnakeGame.Game.EatFruit | snake_game.cpp:179-193 | on the fruit: score +10 and nTail +1; a new fruit on the board, off the head and off the pre-tick tail; on a full board, no new fruit, gameover set, and the frame drawn; off the fruit nothing changes |
| SnakeGame.Game.ShiftTail | snake_game.cpp:195-207 | both arrays become ShiftIn of their old contents with the head's coordinate and nTail |
| SnakeGame.Game.Algorithm | snake_game.cpp:148-208 | one tick as Ticked states it (head moved one cell in dir; gameover on a wall, on any pre-tick tail entry, or on eating with a full board; score +10, nTail +1 and a fresh fruit off head and tail when eating; arrays shifted); the tail advances behind the head; a playable game that is not over stays playable |
| WebSnake.Opposite | game.js:17-36 | LEFT and RIGHT reverse each other, UP and DOWN reverse each other; no heading is its own reverse |
| WebSnake.Turn | game.js:17-36 | keys 37/65, 38/87, 39/68, 40/83 turn left, up, right, down unless that reverses the heading; other keys keep it; the result is never the reverse of the old heading |
| WebSnake.Step | game.js:55-61 | the new head is the old one moved by exactly one box (20 pixels) in the heading, y growing downwards |
| WebSnake.StepDistance | game.js:55-61 | a step changes the head by exactly one box (20 pixels), along one axis |
| WebSnake.MoveCorner | game.js:55-61 | the four heading tests move the head's corner to Step of it |
| WebSnake.Square | game.js:9-12 | a food square's corner has coordinates that are multiples of 20 in [0, 380], and the corner gives back the square's column and row |
| WebSnake.SquareOfAligned | game.js:65-68 | every grid-aligned corner on the canvas is the corner of the square its coordinates divide to |
| WebSnake.StepKeepsAligned | game.js:55-61 | a step keeps a segment on the grid lines |
| WebSnake.Collision | game.js:84-91 | true exactly when the head equals some entry at index 1 or later; index 0 is ignored |
| WebSnake.TickKeepsHealthy | game.js:64-81 | a tick whose new head is on the canvas and off the segments that remain keeps the snake repeat-free and on the canvas |
| WebSnake.Game.constructor | game.js:7-12 | one segment at (200, 200), heading right, food on a square's corner |
| WebSnake.Game.ChangeDirection | game.js:17-36 | the four tests, made against the heading before the key, give the heading Turn states |
| WebSnake.Game.Draw | game.js:55-81 | the new head is the old head moved one box and becomes entry 0; on the food the snake grows by one and gets a new food square, otherwise the last segment is popped; entries after the head are the old snake, minus its last entry when nothing was eaten; the game stops exactly when the new head is off the canvas or on a later segment, tested after the update; a healthy snake that does not stop stays healthy |

## Left out

- Terminal plumbing is not modelled: raw mode, key reads, screen clearing, output to the terminal, and the `main` loop (`snake_game.cpp:19-54`, `70`, `211-227`). `Input` takes the key as a parameter, and `Draw` returns its lines.
- `rand()` is not modelled. Each rejection loop (`snake_game.cpp:61-65`, `182-191`) becomes an arbitrary choice of a cell that satisfies the loop's exit test. The model proves such a cell always exists. It does not model the probability distribution or the loop's repeated draws.
- `Math.random()` and its floating-point arithmetic are not modelled. Each draw of the food square becomes a column and a row index in [0, 20), passed as a parameter.
- Canvas drawing, the key listener and the timer are not modelled (`game.js:1-2`, `15`, `40-52`, `80`, `94`). `clearInterval` becomes the flag `stopped`.
- WebSnake.Game.Draw requires `!stopped`: once the timer is cleared, `draw` is never called again.
- SnakeGame.Game.Algorithm requires `nTail < width*height`. Every state the main loop reaches meets this: the tail only grows by eating, and eating with `nTail == width*height-1` sets `gameover`, which ends the loop. Beyond that point the source's fruit loop could not end.
- The score is an unbounded integer. The source's `int` cannot overflow on this board (at most 100 points).
- `Draw` writes a newline after each line; the model's lines leave it out.
