/** The king graph the life-like automaton runs on: a width x height grid
    whose vertex neighbourhood is the 3x3 block around a cell minus the cell
    itself, clipped to the grid (no wrap-around). The graph library that
    builds it in the original program is not part of this model; this
    module states the neighbourhood directly. */
module KingGrid {

  /** A cell position: row, then column. */
  datatype Pos = Pos(row: int, col: int)

  predicate InBounds(width: int, height: int, p: Pos)
  {
    0 <= p.row < height && 0 <= p.col < width
  }

  /** `q` is one king move away from `p`. */
  predicate Adjacent(p: Pos, q: Pos)
  {
    p != q && -1 <= q.row - p.row <= 1 && -1 <= q.col - p.col <= 1
  }

  /** The displacement that takes `p` to `q`. */
  function Offset(p: Pos, q: Pos): Pos
  {
    Pos(q.row - p.row, q.col - p.col)
  }

  /** The eight king moves, in row-major order. */
  const Moves: seq<Pos> := [Pos(-1, -1), Pos(-1, 0), Pos(-1, 1), Pos(0, -1),
                            Pos(0, 1), Pos(1, -1), Pos(1, 0), Pos(1, 1)]

  /** The king moves are exactly the displacements of adjacency. */
  lemma MovesAreAdjacency(p: Pos, q: Pos)
    ensures Offset(p, q) in Moves <==> Adjacent(p, q)
  {
    var d := Offset(p, q);
    if Adjacent(p, q) {
      if d.row == -1 {
        assert d == Moves[0] || d == Moves[1] || d == Moves[2];
      } else if d.row == 0 {
        assert d == Moves[3] || d == Moves[4];
      } else {
        assert d == Moves[5] || d == Moves[6] || d == Moves[7];
      }
    }
  }

  /** No position occurs twice in `ps`. */
  predicate Distinct(ps: seq<Pos>)
  {
    forall i, j :: 0 <= i < j < |ps| ==> ps[i] != ps[j]
  }

  /** `a` comes strictly before `b` in row-major order. */
  predicate Before(a: Pos, b: Pos)
  {
    a.row < b.row || (a.row == b.row && a.col < b.col)
  }

  /** A list in strictly increasing row-major order has no repeats. */
  lemma {:induction false} IncreasingIsDistinct(ps: seq<Pos>)
    requires forall i :: 0 <= i < |ps| - 1 ==> Before(ps[i], ps[i + 1])
    ensures Distinct(ps)
  {
    if |ps| > 1 {
      IncreasingIsDistinct(ps[1..]);
      forall j | 1 <= j < |ps| ensures Before(ps[0], ps[j]) {
        var k := 1;
        while k < j
          invariant 1 <= k <= j && Before(ps[0], ps[k])
        {
          k := k + 1;
        }
      }
    }
  }

  /** No king move is listed twice. */
  lemma MovesDistinct()
    ensures Distinct(Moves)
  {
    IncreasingIsDistinct(Moves);
  }

  /** The targets of `moves` from `p` that lie on the grid, in order. */
  function Clip(width: int, height: int, p: Pos, moves: seq<Pos>): (ns: seq<Pos>)
    ensures |ns| <= |moves|
    ensures forall q :: q in ns <==> InBounds(width, height, q) && Offset(p, q) in moves
    ensures Distinct(moves) ==> Distinct(ns)
  {
    if |moves| == 0 then []
    else
      var q := Pos(p.row + moves[0].row, p.col + moves[0].col);
      assert Offset(p, q) == moves[0];
      var rest := Clip(width, height, p, moves[1..]);
      assert forall d :: d in moves <==> d == moves[0] || d in moves[1..];
      assert Distinct(moves) ==> Distinct(moves[1..]) && moves[0] !in moves[1..];
      if InBounds(width, height, q) then [q] + rest else rest
  }

  /** Every king move changes each coordinate by at most one. */
  predicate Short(m: Pos)
  {
    -1 <= m.row <= 1 && -1 <= m.col <= 1
  }

  /** From a cell away from every edge, no short move is clipped away. */
  lemma {:induction false} ClipKeepsAll(width: int, height: int, p: Pos, moves: seq<Pos>)
    requires 0 < p.row < height - 1 && 0 < p.col < width - 1
    requires forall i :: 0 <= i < |moves| ==> Short(moves[i])
    ensures |Clip(width, height, p, moves)| == |moves|
  {
    if |moves| > 0 {
      ClipKeepsAll(width, height, p, moves[1..]);
    }
  }

  /** The neighbourhood of `p`: every on-grid cell one king move away, and
      nothing else. */
  function Neighbours(width: int, height: int, p: Pos): (ns: seq<Pos>)
    ensures |ns| <= 8
    ensures forall q :: q in ns <==> InBounds(width, height, q) && Adjacent(p, q)
    ensures Distinct(ns)
  {
    var ns := Clip(width, height, p, Moves);
    MovesDistinct();
    forall q ensures q in ns <==> InBounds(width, height, q) && Adjacent(p, q) {
      MovesAreAdjacency(p, q);
    }
    ns
  }

  /** A cell away from every edge has all eight neighbours. */
  lemma InteriorHasEight(width: int, height: int, p: Pos)
    requires 0 < p.row < height - 1 && 0 < p.col < width - 1
    ensures |Neighbours(width, height, p)| == 8
  {
    assert Short(Moves[0]) && Short(Moves[1]) && Short(Moves[2]) && Short(Moves[3]);
    assert Short(Moves[4]) && Short(Moves[5]) && Short(Moves[6]) && Short(Moves[7]);
    ClipKeepsAll(width, height, p, Moves);
  }

  /** Clipping the first move either keeps its target or drops it. */
  lemma ClipStep(width: int, height: int, p: Pos, moves: seq<Pos>)
    requires |moves| > 0
    ensures |Clip(width, height, p, moves)| ==
            |Clip(width, height, p, moves[1..])| +
            (if InBounds(width, height, Pos(p.row + moves[0].row, p.col + moves[0].col)) then 1 else 0)
  {
  }

  /** A cell on the top edge, away from both corners, has five neighbours:
      the three moves upwards leave the grid. */
  lemma EdgeHasFive(width: int, height: int, p: Pos)
    requires p.row == 0 && 0 < p.col < width - 1 && height >= 2
    ensures |Neighbours(width, height, p)| == 5
  {
    ClipStep(width, height, p, Moves[7..]);
    ClipStep(width, height, p, Moves[6..]);
    ClipStep(width, height, p, Moves[5..]);
    ClipStep(width, height, p, Moves[4..]);
    ClipStep(width, height, p, Moves[3..]);
    ClipStep(width, height, p, Moves[2..]);
    ClipStep(width, height, p, Moves[1..]);
    ClipStep(width, height, p, Moves);
  }

  /** The top-left corner has three neighbours: right, below, and
      diagonally below right. */
  lemma CornerHasThree(width: int, height: int)
    requires width >= 2 && height >= 2
    ensures |Neighbours(width, height, Pos(0, 0))| == 3
  {
    var p := Pos(0, 0);
    ClipStep(width, height, p, Moves[7..]);
    ClipStep(width, height, p, Moves[6..]);
    ClipStep(width, height, p, Moves[5..]);
    ClipStep(width, height, p, Moves[4..]);
    ClipStep(width, height, p, Moves[3..]);
    ClipStep(width, height, p, Moves[2..]);
    ClipStep(width, height, p, Moves[1..]);
    ClipStep(width, height, p, Moves);
  }

  /** The grid does not wrap: a cell in the first column never has a
      neighbour in the last column of a grid wider than two. */
  lemma NoWrapAround(width: int, height: int, p: Pos, q: Pos)
    requires width > 2 && p.col == 0 && q.col == width - 1
    ensures q !in Neighbours(width, height, p)
  {
  }
}
