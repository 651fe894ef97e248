/** What one tick does to a state that satisfies the engine invariant:
    the torus step, invariant preservation, and the three outcomes of a tick
    (eat, move, die) each characterised in terms of the snake body. */
module SnakeInvariant {
  import opened SnakeGame

  /** The torus step is the formula `tick` in snake_game.rs uses: add the offset and the board
      size, then reduce modulo the size.  The sum is never negative, so the
      Euclidean `%` used here agrees with Rust's `%` on unsigned
      integers. */
  lemma WrapMatchesModulo(x: nat, d: int, sz: nat)
    requires x < sz && -1 <= d <= 1
    ensures x + d + sz >= 0
    ensures Wrap(x, d, sz) == (x + d + sz) % sz
  {
    var s := x + d + sz;
    if x + d == sz {
      ModUnique(s, sz, 2, 0);
    } else if x + d == -1 {
      ModUnique(s, sz, 0, sz - 1);
    } else {
      ModUnique(s, sz, 1, x + d);
    }
  }

  lemma MulAtLeast(t: int, sz: int)
    requires t >= 1 && sz >= 1
    ensures t * sz >= sz
  {
  }

  /** Euclidean division has one quotient and one remainder. */
  lemma ModUnique(s: int, sz: int, q: int, r: int)
    requires sz >= 1 && s == q * sz + r && 0 <= r < sz
    ensures s % sz == r
  {
    var q', r' := s / sz, s % sz;
    assert (q - q') * sz == r' - r;
    if q - q' >= 1 {
      MulAtLeast(q - q', sz);
    } else if q' - q >= 1 {
      MulAtLeast(q' - q, sz);
    }
  }

  /** Stepping back along the opposite offset returns to the start. */
  lemma WrapRoundTrip(x: nat, d: int, sz: nat)
    requires x < sz && -1 <= d <= 1
    ensures Wrap(Wrap(x, d, sz), -d, sz) == x
  {
  }

  /** Dropping the tail: the remaining body still has no duplicates, and on
      the board with the tail cell cleared the Snake cells are exactly the
      remaining body while the Apple cells are unchanged. */
  lemma DropTail(g: Grid)
    requires Inv(g)
    ensures Last(g.pos) !in Body(g.pos)
    ensures NoDuplicates(Body(g.pos))
    ensures SnakeMatches(Set(g.cells, g.sz, Last(g.pos), Empty), g.sz, Body(g.pos))
    ensures forall p: Pos :: InBounds(p, g.sz) ==>
      (Get(Set(g.cells, g.sz, Last(g.pos), Empty), g.sz, p) == Apple <==> Get(g.cells, g.sz, p) == Apple)
  {
    var n := |g.pos|;
    var tail := Last(g.pos);
    var body := Body(g.pos);
    var cleared := Set(g.cells, g.sz, tail, Empty);
    assert InBounds(g.pos[n - 1], g.sz);
    forall p: Pos | InBounds(p, g.sz)
      ensures Get(cleared, g.sz, p) == Snake <==> p in body
    {
      if p != tail {
        assert p in g.pos <==> p in body by {
          if p in g.pos {
            var k :| 0 <= k < n && g.pos[k] == p;
            assert k < n - 1 && body[k] == p;
          }
        }
      }
    }
    assert Get(g.cells, g.sz, tail) == Snake;
  }

  /** Adding a fresh head in front of a duplicate-free body keeps it
      duplicate-free. */
  lemma PushFresh(p: Pos, s: seq<Pos>)
    requires NoDuplicates(s) && p !in s
    ensures NoDuplicates([p] + s)
  {
    var t := [p] + s;
    forall a, b | 0 <= a < b < |t|
      ensures t[a] != t[b]
    {
      assert t[b] == s[b - 1];
      if a > 0 {
        assert t[a] == s[a - 1];
      }
    }
  }

  /** Every tick, whatever its outcome, keeps the engine invariant. When the
      apple is eaten this needs the new apple's cell to be Empty. */
  lemma TickPreservesInv(g: Grid, at: Pos)
    requires Inv(g) && AppleChoice(g, at)
    ensures Inv(Tick(g, at).0)
  {
    if g.dead {
      return;
    }
    var next := Candidate(g);
    var r := Tick(g, at).0;
    var a :| IsOnlyApple(g.cells, g.sz, a);
    if Get(g.cells, g.sz, next) == Apple {
      assert next !in g.pos && at !in g.pos;
      PushFresh(next, g.pos);
      forall p: Pos | InBounds(p, g.sz)
        ensures Get(r.cells, g.sz, p) == Snake <==> p in r.pos
      {
      }
      assert IsOnlyApple(r.cells, g.sz, at);
    } else {
      DropTail(g);
      var cleared := Set(g.cells, g.sz, Last(g.pos), Empty);
      assert IsOnlyApple(cleared, g.sz, a);
      if Get(cleared, g.sz, next) != Snake {
        PushFresh(next, Body(g.pos));
        assert IsOnlyApple(r.cells, g.sz, a);
      } else {
        assert |Body(g.pos)| >= 1;
      }
    }
  }

  /** Eating: the new apple goes on the chosen Empty cell (never the eaten
      one), the head is pushed without dropping the tail, so the body grows
      by exactly one, and no other cell changes. */
  lemma TickEats(g: Grid, at: Pos)
    requires Inv(g) && !g.dead && Get(g.cells, g.sz, Candidate(g)) == Apple
    requires InBounds(at, g.sz) && Get(g.cells, g.sz, at) == Empty
    ensures var (r, changed) := Tick(g, at);
      && changed && !r.dead
      && r.pos == [Candidate(g)] + g.pos
      && |r.pos| == |g.pos| + 1
      && at != Candidate(g)
      && Get(r.cells, g.sz, Candidate(g)) == Snake
      && IsOnlyApple(r.cells, g.sz, at)
      && forall q: Pos :: InBounds(q, g.sz) && q != at && q != Candidate(g) ==>
           Get(r.cells, g.sz, q) == Get(g.cells, g.sz, q)
  {
    TickPreservesInv(g, at);
    var r := Tick(g, at).0;
    var a :| IsOnlyApple(r.cells, g.sz, a);
    assert Get(r.cells, g.sz, at) == Apple;
  }

  /** Moving: when the target is neither the apple nor a body cell other than
      the tail, the tail cell is vacated, the head is pushed, the length is
      unchanged, the apple stays where it was, and no other cell changes. */
  lemma TickMoves(g: Grid, at: Pos)
    requires Inv(g) && !g.dead
    requires Get(g.cells, g.sz, Candidate(g)) != Apple && Candidate(g) !in Body(g.pos)
    ensures var (r, changed) := Tick(g, at);
      && changed && !r.dead
      && r.pos == [Candidate(g)] + Body(g.pos)
      && |r.pos| == |g.pos|
      && Get(r.cells, g.sz, Last(g.pos)) == (if Candidate(g) == Last(g.pos) then Snake else Empty)
      && Get(r.cells, g.sz, Candidate(g)) == Snake
      && (forall a: Pos :: IsOnlyApple(g.cells, g.sz, a) ==> IsOnlyApple(r.cells, g.sz, a))
      && forall q: Pos :: InBounds(q, g.sz) && q != Last(g.pos) && q != Candidate(g) ==>
           Get(r.cells, g.sz, q) == Get(g.cells, g.sz, q)
  {
    DropTail(g);
    var next := Candidate(g);
    var r := Tick(g, at).0;
    forall a: Pos | IsOnlyApple(g.cells, g.sz, a)
      ensures IsOnlyApple(r.cells, g.sz, a)
    {
      assert Get(r.cells, g.sz, a) == Apple;
    }
  }

  /** Dying: a live tick kills the snake exactly when the target is not the
      apple and is a body cell other than the tail (the tail is vacated
      before the test). */
  lemma TickDiesIff(g: Grid, at: Pos)
    requires Inv(g) && !g.dead && AppleChoice(g, at)
    ensures Tick(g, at).0.dead <==>
      Get(g.cells, g.sz, Candidate(g)) != Apple && Candidate(g) in Body(g.pos)
  {
    var next := Candidate(g);
    if Get(g.cells, g.sz, next) != Apple {
      DropTail(g);
    }
  }

  /** What a fatal tick leaves behind: the tail is already gone and its cell
      Empty, the head is not pushed, nothing else changes, and the tick
      reports no change. */
  lemma TickDeath(g: Grid, at: Pos)
    requires Inv(g) && !g.dead && AppleChoice(g, at) && Tick(g, at).0.dead
    ensures var (r, changed) := Tick(g, at);
      && !changed
      && |g.pos| >= 2
      && r.pos == Body(g.pos)
      && Candidate(g) != Last(g.pos)
      && Get(r.cells, g.sz, Last(g.pos)) == Empty
      && forall q: Pos :: InBounds(q, g.sz) && q != Last(g.pos) ==>
           Get(r.cells, g.sz, q) == Get(g.cells, g.sz, q)
  {
    TickDiesIff(g, at);
    DropTail(g);
  }

  /** Following the tail is safe: moving into the cell the tail occupies
      never kills the snake. */
  lemma TickIntoVacatedTail(g: Grid, at: Pos)
    requires Inv(g) && !g.dead && Candidate(g) == Last(g.pos)
    ensures AppleChoice(g, at)
    ensures var (r, changed) := Tick(g, at);
      changed && !r.dead && r.pos == [Last(g.pos)] + Body(g.pos)
  {
    assert Get(g.cells, g.sz, Last(g.pos)) == Snake;
    DropTail(g);
    TickMoves(g, at);
  }

  /** A heading change is never rejected, so turning back onto the neck
      (the cell right behind the head) kills a snake of three or more cells
      on the next tick, while a two-cell snake just swaps head and tail. */
  lemma ReversalIntoNeck(g: Grid, d: Dir, at: Pos)
    requires Inv(g) && !g.dead && |g.pos| >= 2
    requires Candidate(ChangeDir(g, d)) == g.pos[1]
    ensures AppleChoice(ChangeDir(g, d), at)
    ensures var (r, changed) := Tick(ChangeDir(g, d), at);
      && (|g.pos| >= 3 ==> r.dead && !changed)
      && (|g.pos| == 2 ==> !r.dead && changed && r.pos == [g.pos[1], g.pos[0]])
  {
    var g' := ChangeDir(g, d);
    assert Get(g.cells, g.sz, g.pos[1]) == Snake;
    if |g.pos| >= 3 {
      assert Body(g.pos)[1] == g.pos[1];
      TickDiesIff(g', at);
    } else {
      TickIntoVacatedTail(g', at);
    }
  }
}
