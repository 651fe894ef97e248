/** Sequences of engine calls: a run interleaves ticks (each with the cell
    its apple placement would pick) and heading changes, starting from a
    state that satisfies the engine invariant. */
module SnakeRuns {
  import opened SnakeGame
  import opened SnakeInvariant

  /** One call into the engine: a tick, with the outcome of the apple
      placement it may perform, or a heading change. */
  datatype Event = TickEvent(apple: Pos) | TurnEvent(d: Dir)

  /** Every tick of the run is given a legal apple placement. */
  ghost predicate Admissible(g: Grid, evs: seq<Event>)
    requires Inv(g)
    decreases |evs|
  {
    if |evs| == 0 then true
    else match evs[0]
      case TurnEvent(d) => Admissible(ChangeDir(g, d), evs[1..])
      case TickEvent(a) =>
        AppleChoice(g, a) && (TickPreservesInv(g, a); Admissible(Tick(g, a).0, evs[1..]))
  }

  /** The state after the whole run.  The invariant holds at the end; a dead
      snake stays dead with its board and body untouched (only its heading
      may change); and a snake alive at the end was alive at the start and
      is at least as long as it was. */
  ghost function Run(g: Grid, evs: seq<Event>): (r: Grid)
    requires Inv(g) && Admissible(g, evs)
    ensures Inv(r)
    ensures r.sz == g.sz
    ensures g.dead ==> r.dead && r.cells == g.cells && r.pos == g.pos
    ensures !r.dead ==> !g.dead && |r.pos| >= |g.pos|
    decreases |evs|
  {
    if |evs| == 0 then g
    else match evs[0]
      case TurnEvent(d) => Run(ChangeDir(g, d), evs[1..])
      case TickEvent(a) =>
        TickPreservesInv(g, a);
        var next := Tick(g, a).0;
        TickLength(g, a);
        Run(next, evs[1..])
  }

  /** A tick that leaves the snake alive never shortens it. */
  lemma TickLength(g: Grid, at: Pos)
    requires Inv(g) && AppleChoice(g, at)
    ensures !Tick(g, at).0.dead ==> !g.dead && |Tick(g, at).0.pos| >= |g.pos|
  {
    if !g.dead {
      var next := Candidate(g);
      if Get(g.cells, g.sz, next) == Apple {
        TickEats(g, at);
      } else if next !in Body(g.pos) {
        TickMoves(g, at);
      }
    }
  }

  /** The first tick of a fresh size-5 game, when the apple is not on the
      cell to the right of the start: the one-cell snake moves from (2, 0) to
      (2, 1) and the start cell becomes Empty. */
  lemma FirstTickOnSizeFive(apple: Pos, at: Pos)
    requires InBounds(apple, 5) && apple != (2, 0) && apple != (2, 1)
    ensures AppleChoice(WithSize(5, apple), at)
    ensures var (r, changed) := Tick(WithSize(5, apple), at);
      && changed && !r.dead
      && r.pos == [(2, 1)]
      && Get(r.cells, 5, (2, 0)) == Empty
      && Get(r.cells, 5, (2, 1)) == Snake
      && Get(r.cells, 5, apple) == Apple
  {
    var g := WithSize(5, apple);
    assert Candidate(g) == (2, 1);
    assert Get(g.cells, 5, (2, 1)) == Empty;
    TickMoves(g, at);
  }

  /** Leaving the right edge re-enters at the left edge: on a size-5 board a
      head at (2, 4) heading right moves to (2, 0). */
  lemma WrapAtRightEdge(g: Grid)
    requires Ready(g) && g.sz == 5 && g.pos[0] == (2, 4) && g.dir == (0, 1)
    ensures Candidate(g) == (2, 0)
  {
  }
}
