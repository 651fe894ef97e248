/** The snake game-state engine: a square board of cells on a torus, the
    snake body (head first), the heading, and the dead flag.  Every operation
    is a pure function from one engine state to the next. */
module SnakeGame {

  datatype Cell = Empty | Snake | Apple

  datatype Dir = Up | Down | Left | Right

  /** A board coordinate (row, column). */
  type Pos = (nat, nat)

  /** The board, row by row. */
  type Board = seq<seq<Cell>>

  /** The engine state. `pos` is the snake body with the head at index 0 and
      the tail at the end; `dir` is the heading as a (row, column) step. */
  datatype Grid = Grid(sz: nat, cells: Board, dead: bool, pos: seq<Pos>, dir: (int, int))

  predicate InBounds(p: Pos, sz: nat) {
    p.0 < sz && p.1 < sz
  }

  /** `b` has `sz` rows of `sz` cells each. */
  predicate IsSquare(b: Board, sz: nat) {
    |b| == sz && forall i :: 0 <= i < sz ==> |b[i]| == sz
  }

  function Get(b: Board, sz: nat, p: Pos): Cell
    requires IsSquare(b, sz) && InBounds(p, sz)
  {
    b[p.0][p.1]
  }

  /** The board with cell `p` replaced by `c`. */
  function Set(b: Board, sz: nat, p: Pos, c: Cell): (r: Board)
    requires IsSquare(b, sz) && InBounds(p, sz)
    ensures IsSquare(r, sz)
    ensures Get(r, sz, p) == c
    ensures forall q: Pos :: InBounds(q, sz) && q != p ==> Get(r, sz, q) == Get(b, sz, q)
  {
    b[p.0 := b[p.0][p.1 := c]]
  }

  /** The four headings a snake can have. */
  predicate IsUnit(v: (int, int)) {
    v == (-1, 0) || v == (1, 0) || v == (0, -1) || v == (0, 1)
  }

  /** The heading that a direction command installs: Left and Right move
      along a row, Up and Down along a column; Down and Right step towards
      larger indices. */
  function DirVector(d: Dir): (v: (int, int))
    ensures IsUnit(v)
    ensures v.0 == 0 <==> (d == Left || d == Right)
    ensures v.0 + v.1 > 0 <==> (d == Down || d == Right)
  {
    match d
    case Up => (-1, 0)
    case Down => (1, 0)
    case Left => (0, -1)
    case Right => (0, 1)
  }

  /** One coordinate of a step on the torus: one past the last index
      re-enters at 0, one before 0 re-enters at the last index, otherwise it
      is plain addition.  `tick` in snake_game.rs computes this as `(x + d + sz) % sz`;
      `SnakeInvariant.WrapMatchesModulo` proves the two agree. */
  function Wrap(x: nat, d: int, sz: nat): (r: nat)
    requires x < sz && -1 <= d <= 1
    ensures r < sz
  {
    if x + d == sz then 0 else if x + d < 0 then sz - 1 else x + d
  }

  /** What `tick` needs to run at all: a square board, a non-empty body whose
      cells are on the board, and one of the four headings. */
  predicate Ready(g: Grid) {
    && g.sz >= 1
    && IsSquare(g.cells, g.sz)
    && |g.pos| >= 1
    && (forall k :: 0 <= k < |g.pos| ==> InBounds(g.pos[k], g.sz))
    && IsUnit(g.dir)
  }

  /** The cell the head moves to on the next tick. */
  function Candidate(g: Grid): (p: Pos)
    requires Ready(g)
    ensures InBounds(p, g.sz)
  {
    var h := g.pos[0];
    (Wrap(h.0, g.dir.0, g.sz), Wrap(h.1, g.dir.1, g.sz))
  }

  /** The tail cell of a body. */
  function Last(s: seq<Pos>): Pos
    requires |s| >= 1
  {
    s[|s| - 1]
  }

  /** A body without its tail cell. */
  function Body(s: seq<Pos>): seq<Pos>
    requires |s| >= 1
  {
    s[..|s| - 1]
  }

  predicate NoDuplicates(s: seq<Pos>) {
    forall a, b :: 0 <= a < b < |s| ==> s[a] != s[b]
  }

  /** `a` is the one and only Apple cell of the board. */
  ghost predicate IsOnlyApple(b: Board, sz: nat, a: Pos)
    requires IsSquare(b, sz)
  {
    && InBounds(a, sz)
    && Get(b, sz, a) == Apple
    && forall p: Pos :: InBounds(p, sz) && Get(b, sz, p) == Apple ==> p == a
  }

  ghost predicate HasOneApple(b: Board, sz: nat)
    requires IsSquare(b, sz)
  {
    exists a: Pos :: IsOnlyApple(b, sz, a)
  }

  /** The Snake cells of `b` are exactly the positions listed in `pos`. */
  ghost predicate SnakeMatches(b: Board, sz: nat, pos: seq<Pos>)
    requires IsSquare(b, sz)
  {
    forall p: Pos :: InBounds(p, sz) ==> (Get(b, sz, p) == Snake <==> p in pos)
  }

  /** The engine invariant: the Snake cells are exactly the body's positions,
      the body has no repeated position, and exactly one cell is Apple. */
  ghost predicate Inv(g: Grid) {
    && Ready(g)
    && NoDuplicates(g.pos)
    && SnakeMatches(g.cells, g.sz, g.pos)
    && HasOneApple(g.cells, g.sz)
  }

  /** The cell chosen for the new apple.  The Rust code draws cells at random
      until it finds an Empty one; any Empty cell is a possible outcome. */
  function PlaceApple(b: Board, sz: nat, at: Pos): (r: Board)
    requires IsSquare(b, sz) && InBounds(at, sz) && Get(b, sz, at) == Empty
    ensures IsSquare(r, sz)
    ensures Get(r, sz, at) == Apple
    ensures forall q: Pos :: InBounds(q, sz) && q != at ==> Get(r, sz, q) == Get(b, sz, q)
  {
    Set(b, sz, at, Apple)
  }

  /** The rejection-sampling loop of apple placement, driven by the stream of
      random draws it consumes.  Every draw lies on the board, and the stream
      contains an Empty cell (otherwise the Rust loop never ends).  The result
      is the index of the first draw that hits an Empty cell, and the board
      with that cell turned into an Apple. */
  method SampleApple(b: Board, sz: nat, draws: seq<Pos>) returns (k: nat, r: Board)
    requires IsSquare(b, sz)
    requires forall i :: 0 <= i < |draws| ==> InBounds(draws[i], sz)
    requires exists i :: 0 <= i < |draws| && Get(b, sz, draws[i]) == Empty
    ensures k < |draws| && Get(b, sz, draws[k]) == Empty
    ensures forall i :: 0 <= i < k ==> Get(b, sz, draws[i]) != Empty
    ensures r == PlaceApple(b, sz, draws[k])
  {
    k := 0;
    while Get(b, sz, draws[k]) != Empty
      invariant k < |draws|
      invariant exists i :: k <= i < |draws| && Get(b, sz, draws[i]) == Empty
      invariant forall i :: 0 <= i < k ==> Get(b, sz, draws[i]) != Empty
      decreases |draws| - k
    {
      k := k + 1;
    }
    r := PlaceApple(b, sz, draws[k]);
  }

  /** `at` is a legal outcome of the apple placement that the next tick may
      perform: it only matters when the head is about to eat the apple, and
      then it must be an Empty cell of the current board. */
  predicate AppleChoice(g: Grid, at: Pos)
    requires Ready(g)
  {
    g.dead || Get(g.cells, g.sz, Candidate(g)) != Apple || (InBounds(at, g.sz) && Get(g.cells, g.sz, at) == Empty)
  }

  /** The initial state: a one-cell snake at (sz/2, 0) heading right, and one
      apple on any other cell. */
  function WithSize(sz: nat, at: Pos): (r: Grid)
    requires sz >= 2 && InBounds(at, sz) && at != (sz / 2, 0)
    ensures Inv(r)
    ensures r.sz == sz && r.pos == [(sz / 2, 0)] && r.dir == (0, 1) && !r.dead
    ensures forall p: Pos :: InBounds(p, sz) ==>
      Get(r.cells, sz, p) == (if p == (sz / 2, 0) then Snake else if p == at then Apple else Empty)
  {
    var empty: Board := seq(sz, i => seq(sz, j => Empty));
    var start: Pos := (sz / 2, 0);
    var withSnake := Set(empty, sz, start, Snake);
    var cells := PlaceApple(withSnake, sz, at);
    assert IsOnlyApple(cells, sz, at);
    Grid(sz, cells, false, [start], (0, 1))
  }

  /** One simulation step.  Returns the next state and whether anything
      changed.  Eating the apple places a new one first (while the eaten cell
      is still Apple), then grows the snake.  Otherwise the tail is removed
      before the collision test, so moving into the cell the tail just left is
      not a collision; on a collision the snake dies and the head is not
      pushed. */
  function Tick(g: Grid, at: Pos): (r: (Grid, bool))
    requires Ready(g) && AppleChoice(g, at)
    ensures g.dead ==> r == (g, false)
    ensures r.1 <==> !r.0.dead
    ensures r.0.sz == g.sz && r.0.dir == g.dir
  {
    if g.dead then (g, false)
    else
      var next := Candidate(g);
      if Get(g.cells, g.sz, next) == Apple then
        var withApple := PlaceApple(g.cells, g.sz, at);
        (g.(cells := Set(withApple, g.sz, next, Snake), pos := [next] + g.pos), true)
      else
        var cleared := Set(g.cells, g.sz, Last(g.pos), Empty);
        if Get(cleared, g.sz, next) == Snake then
          (g.(cells := cleared, pos := Body(g.pos), dead := true), false)
        else
          (g.(cells := Set(cleared, g.sz, next, Snake), pos := [next] + Body(g.pos)), true)
  }

  /** Sets the heading unconditionally; a reversal is not rejected. */
  function ChangeDir(g: Grid, d: Dir): (r: Grid)
    ensures r.dir == DirVector(d)
    ensures r.sz == g.sz && r.cells == g.cells && r.dead == g.dead && r.pos == g.pos
    ensures Inv(g) ==> Inv(r)
  {
    g.(dir := DirVector(d))
  }

  /** The state of one cell, for drawing. */
  function GetCell(g: Grid, i: nat, j: nat): (c: Cell)
    requires IsSquare(g.cells, g.sz) && i < g.sz && j < g.sz
    ensures Inv(g) ==> (c == Snake <==> (i, j) in g.pos)
    ensures Inv(g) ==> (c == Apple <==> IsOnlyApple(g.cells, g.sz, (i, j)))
  {
    g.cells[i][j]
  }
}
