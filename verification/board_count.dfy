/** Counting the cells of a board that satisfies the engine invariant: every
    cell is a body cell, the apple, or Empty, so the Empty cells number
    sz * sz - |pos| - 1.  In particular apple placement has somewhere to go
    exactly while the snake and the apple do not fill the board. */
module BoardCount {
  import opened SnakeGame

  /** The cells of the first `rows` rows of a board `cols` wide. */
  function Cells(rows: nat, cols: nat): (c: set<Pos>)
    ensures forall p: Pos :: p in c <==> p.0 < rows && p.1 < cols
  {
    set i: nat, j: nat | i < rows && j < cols :: (i, j)
  }

  function RowCells(i: nat, cols: nat): (c: set<Pos>)
    ensures forall p: Pos :: p in c <==> p.0 == i && p.1 < cols
  {
    set j: nat | j < cols :: (i, j)
  }

  lemma {:induction false} RowCellsCard(i: nat, cols: nat)
    ensures |RowCells(i, cols)| == cols
  {
    if cols > 0 {
      RowCellsCard(i, cols - 1);
      assert RowCells(i, cols) == RowCells(i, cols - 1) + {(i, cols - 1)};
    } else {
      assert RowCells(i, cols) == {};
    }
  }

  /** The first `rows` rows are the first `rows - 1` rows plus the last one. */
  lemma CellsSplit(rows: nat, cols: nat)
    requires rows > 0
    ensures Cells(rows, cols) == Cells(rows - 1, cols) + RowCells(rows - 1, cols)
    ensures Cells(rows - 1, cols) !! RowCells(rows - 1, cols)
  {
  }

  lemma {:induction false} CellsCard(rows: nat, cols: nat)
    ensures |Cells(rows, cols)| == rows * cols
  {
    if rows > 0 {
      CellsCard(rows - 1, cols);
      RowCellsCard(rows - 1, cols);
      CellsSplit(rows, cols);
      assert (rows - 1) * cols + cols == rows * cols by {
        assert (rows - 1) * cols == rows * cols - cols;
      }
    } else {
      assert Cells(rows, cols) == {};
    }
  }

  /** The cells a body occupies. */
  function Occupied(s: seq<Pos>): set<Pos> {
    set p | p in s
  }

  lemma OccupiedCons(s: seq<Pos>)
    requires |s| > 0
    ensures Occupied(s) == {s[0]} + Occupied(s[1..])
  {
    assert s == [s[0]] + s[1..];
  }

  lemma NoDuplicatesTail(s: seq<Pos>)
    requires |s| > 0 && NoDuplicates(s)
    ensures NoDuplicates(s[1..]) && s[0] !in s[1..]
  {
    var rest := s[1..];
    forall a, b | 0 <= a < b < |rest|
      ensures rest[a] != rest[b]
    {
      assert rest[a] == s[a + 1] && rest[b] == s[b + 1];
    }
  }

  /** A body without repeated positions occupies as many cells as it is
      long. */
  lemma {:induction false} OccupiedCard(s: seq<Pos>)
    requires NoDuplicates(s)
    ensures |Occupied(s)| == |s|
  {
    if |s| > 0 {
      NoDuplicatesTail(s);
      OccupiedCard(s[1..]);
      OccupiedCons(s);
    } else {
      assert Occupied(s) == {};
    }
  }

  ghost function EmptyCells(g: Grid): set<Pos>
    requires IsSquare(g.cells, g.sz)
  {
    set p | p in Cells(g.sz, g.sz) && Get(g.cells, g.sz, p) == Empty
  }

  /** The Empty cells are exactly the cells that are neither the body nor
      the apple, so there are sz * sz - |pos| - 1 of them. */
  lemma EmptyCount(g: Grid)
    requires Inv(g)
    ensures |EmptyCells(g)| == g.sz * g.sz - |g.pos| - 1
  {
    var all := Cells(g.sz, g.sz);
    var body := Occupied(g.pos);
    var a :| IsOnlyApple(g.cells, g.sz, a);
    var empty := EmptyCells(g);
    assert body <= all by {
      forall p | p in body
        ensures p in all
      {
        var k :| 0 <= k < |g.pos| && g.pos[k] == p;
        assert InBounds(g.pos[k], g.sz);
      }
    }
    assert a !in body;
    assert all == body + {a} + empty by {
      forall p | p in all
        ensures p in body || p == a || p in empty
      {
        assert InBounds(p, g.sz);
      }
    }
    assert body !! empty;
    CellsCard(g.sz, g.sz);
    OccupiedCard(g.pos);
    assert |body + {a}| == |body| + 1;
  }

  /** An Empty cell, and with it a legal outcome for apple placement, exists
      exactly while the body and the apple leave a cell free. */
  lemma EmptyCellExistsIff(g: Grid)
    requires Inv(g)
    ensures (exists p: Pos :: InBounds(p, g.sz) && Get(g.cells, g.sz, p) == Empty) <==> |g.pos| + 1 < g.sz * g.sz
    ensures |g.pos| + 1 <= g.sz * g.sz
  {
    EmptyCount(g);
    var empty := EmptyCells(g);
    if |empty| > 0 {
      var p :| p in empty;
      assert InBounds(p, g.sz) && Get(g.cells, g.sz, p) == Empty;
    }
    if exists p: Pos :: InBounds(p, g.sz) && Get(g.cells, g.sz, p) == Empty {
      var p: Pos :| InBounds(p, g.sz) && Get(g.cells, g.sz, p) == Empty;
      assert p in empty;
    }
  }
}
