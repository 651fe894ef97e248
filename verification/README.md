# Snake game engine: a Dafny model

This project models the game-state engine of a browser snake game
(`src/grid/snake_game.rs`). The engine keeps the following state:

- a square board of `sz × sz` cells, each Empty, Snake or Apple;
- the snake body `pos`, with the head first and the tail last;
- the heading `dir`, one of the four unit steps;
- a `dead` flag.

The engine offers four operations:

- `with_size` builds the initial state;
- `tick` advances the game by one step on a torus;
- `change_dir` sets the heading;
- `get_cell` reads one cell.

Apple placement (`place_apple`) draws random cells until it hits an Empty one.

The model is functional. The Rust `Grid` becomes an immutable datatype
`SnakeGame.Grid`: the board is a `seq<seq<Cell>>` and the `VecDeque` body is a
`seq<Pos>`. Each `&mut self` method becomes a function that returns the next
state. `tick` returns a pair: the next state and the "something changed" flag.

Randomness is modelled in two ways:

- `PlaceApple`, `WithSize` and `Tick` take the placement outcome as an argument
  `at`. When the head eats the apple, `at` must be an Empty cell of the current
  board (`SnakeGame.AppleChoice`). Every Empty cell is a possible outcome.
- `SampleApple` is the rejection-sampling loop itself. It is driven by a finite
  stream of random draws that contains an Empty cell, and it returns the first
  draw that hits one.

The engine invariant is `SnakeGame.Inv`. It says that:

- the Snake cells are exactly the positions in `pos`;
- `pos` has no repeated position, and all its positions are on the board;
- exactly one cell is Apple;
- the heading is a unit step.

Module layout:

- `snake_game.dfy` (`SnakeGame`) holds the data model, the operations and the
  invariant.
- `snake_invariant.dfy` (`SnakeInvariant`) holds the torus arithmetic and
  proves that `tick` preserves the invariant. It also characterises each
  outcome of a tick (eat, move, die) in terms of the body.
- `snake_runs.dfy` (`SnakeRuns`) covers sequences of ticks and heading changes,
  plus two concrete scenarios.
- `board_count.dfy` (`BoardCount`) counts cells. There are
  `sz*sz - |pos| - 1` Empty cells, so apple placement can finish exactly while
  the body and the apple leave a cell free.

Three behaviours of the code are modelled as written:

- **Heading changes.** The code overwrites the heading unconditionally and never
  rejects a 180° reversal. `SnakeInvariant.ReversalIntoNeck` shows what follows:
  turning back onto the neck kills a snake of three or more cells on the next
  tick. A two-cell snake does not die; it swaps its head and tail, because the
  tail is cleared before the collision test.
- **The "changed" flag.** The fatal tick returns `false` although it has
  already cleared the tail cell and set `dead`; the comment at
  `snake_game.rs:56` equates "changed" with "non-dead".
- **Full board.** The code does not guard the full-board case; apple placement
  simply never finishes. The model makes an Empty target a precondition.

## Model

| member | source | states |
|---|---|---|
| SnakeGame.WithSize | src/grid/snake_game.rs:28-42 | for `sz ≥ 2` and an apple cell other than the start: the body is `[(sz/2, 0)]`, heading `(0, 1)`, alive; the start cell is Snake, the chosen cell is Apple, every other cell is Empty; and the invariant holds |
| SnakeGame.PlaceApple | src/grid/snake_game.rs:44-54 | the chosen cell, which must be Empty, becomes Apple; every other cell keeps its state, so no Snake or Apple cell is ever overwritten |
| SnakeGame.SampleApple | src/grid/snake_game.rs:46-53 | the rejection loop stops at the first draw that hits an Empty cell; every earlier draw hit a non-Empty cell; the board is updated by placing the apple there |
| SnakeGame.Candidate | src/grid/snake_game.rs:61-66 | the next head cell is always on the board |
| SnakeGame.Wrap | src/grid/snake_game.rs:63-66 | one coordinate of the torus step always lands in `[0, sz)` |
| SnakeInvariant.WrapMatchesModulo | src/grid/snake_game.rs:62-66 | the torus step (one past the last index goes to 0, one before 0 goes to `sz - 1`, otherwise plain addition) equals the Rust `(x + d + sz) % sz`, whose operand is never negative |
| SnakeInvariant.WrapRoundTrip | src/grid/snake_game.rs:61-66 | a step followed by the opposite step returns to the starting coordinate |
| SnakeRuns.WrapAtRightEdge | src/grid/snake_game.rs:61-66 | on a size-5 board, a head at (2, 4) heading right moves to (2, 0) |
| SnakeGame.Tick | src/grid/snake_game.rs:57-81 | a dead engine's tick changes nothing and returns false; in every case the flag is true exactly when the snake is alive afterwards; size and heading never change |
| SnakeInvariant.DropTail | src/grid/snake_game.rs:69-72 | after the tail is popped and its cell cleared, the Snake cells are exactly the remaining body, the tail is not in it, and the Apple cells are unchanged |
| SnakeInvariant.TickPreservesInv | src/grid/snake_game.rs:57-81 | every tick keeps the invariant (Snake cells = body, no duplicates, on the board, exactly one Apple), given an Empty target when the apple is eaten |
| SnakeInvariant.TickEats | src/grid/snake_game.rs:67-80 | eating: the new apple goes on the chosen Empty cell, which is never the eaten cell; the body becomes the target followed by the old body, so it grows by one; the target is Snake; nothing else changes; the flag is true |
| SnakeInvariant.TickMoves | src/grid/snake_game.rs:69-80 | moving: the body becomes the target followed by the old body without its tail, so its length stays the same; the target becomes Snake; the tail cell becomes Empty unless it is the target; the apple stays; no other cell changes; the flag is true |
| SnakeInvariant.TickDiesIff | src/grid/snake_game.rs:67-76 | a live tick kills the snake if and only if the target is not the apple and is a body cell other than the tail |
| SnakeInvariant.TickDeath | src/grid/snake_game.rs:69-76 | a fatal tick has already popped the tail and cleared its cell, does not push the head, changes no other cell, and returns false; the body had at least two cells |
| SnakeInvariant.TickIntoVacatedTail | src/grid/snake_game.rs:69-80 | moving into the cell the tail occupies is not a collision: the snake survives and the tail cell becomes the new head |
| SnakeInvariant.ReversalIntoNeck | src/grid/snake_game.rs:83-98 | with no reversal check, turning onto the cell behind the head kills a snake of three or more cells on the next tick, and swaps head and tail of a two-cell snake |
| SnakeGame.DirVector | src/grid/snake_game.rs:84-97 | each direction maps to a unit step; Left and Right keep the row; Down and Right step towards larger indices |
| SnakeGame.ChangeDir | src/grid/snake_game.rs:83-98 | the heading becomes the direction's unit step, whatever it was before; board, body and dead flag are unchanged; the invariant is kept |
| SnakeGame.GetCell | src/grid/snake_game.rs:100-102 | on an invariant state, a cell reads Snake exactly when it is in the body, and Apple exactly when it is the one apple |
| SnakeRuns.Run | src/grid/snake_game.rs:57-98 | across any sequence of ticks and heading changes the invariant holds; a dead snake keeps its board and body and stays dead; a snake alive at the end was alive at the start and is no shorter |
| SnakeRuns.TickLength | src/grid/snake_game.rs:67-80 | a tick after which the snake is alive never shortens it |
| SnakeRuns.FirstTickOnSizeFive | src/grid/snake_game.rs:28-81 | in a fresh size-5 game, unless the apple is at (2, 1), the first tick moves the one-cell snake from (2, 0) to (2, 1), clears (2, 0) and leaves the apple in place |
| BoardCount.EmptyCount | src/grid/snake_game.rs:44-54 | on an invariant state there are exactly `sz*sz` minus the body length minus one Empty cells, the only cells apple placement can pick |
| BoardCount.EmptyCellExistsIff | src/grid/snake_game.rs:44-54 | an Empty cell exists, so apple placement can finish, if and only if the body length plus one is below `sz*sz`; the body never holds more than `sz*sz - 1` cells |

## Left out

- The Yew component in `src/grid.rs` is not modelled: the 200 ms interval timer, the keyboard listener with its key-to-direction mapping, message dispatch and HTML rendering are framework plumbing with no game logic. `src/main.rs`, the app shell, is not modelled either.
- The random number generator is not modelled. Its outcome is an argument, and the uniform distribution over cells is not modelled either.
- Apple placement on a full board never finishes in `place_apple`. The model makes an Empty target, or a draw stream that reaches one, a precondition; `BoardCount.EmptyCellExistsIff` says exactly when that precondition can be met.
- SnakeGame.Wrap: coordinates are unbounded integers. `tick` computes the step in `i32` and casts back to `usize`. For the four unit headings the sum is never negative, so the cast is exact and Dafny's Euclidean `%` agrees with Rust's. The sum `x + d + sz` reaches `2·sz`, so the `i32` overflow for board sizes of 2^30 and above is not modelled.
- SnakeGame.SampleApple: the stream of draws is finite and must contain an Empty cell. The infinite stream of `rand::thread_rng`, which reaches an Empty cell with probability 1 while one exists, is not modelled.
- Mutation in place (`&mut self`, `VecDeque` push and pop) is modelled as pure functions from one state to the next.
- `get_cell` panics on an out-of-range index. The model makes this a precondition.
