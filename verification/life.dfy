/** The life-like two-dimensional automaton: a width x height king grid of
    cell values, a survival set S and a birth set B. A live cell stays live
    when its live-neighbour count is in S; a dead cell becomes live when the
    count is in B; every other cell ends up dead. Vertex `r * width + c`
    holds row `r`, column `c`, which is how frames are read out. */
module Life {
  import opened Bits
  import opened KingGrid
  import opened Arith

  /** How the grid is filled before the first generation. */
  datatype Seed = Empty | RandomFill

  /** The automaton: grid size, one value per vertex, and the two rule sets.
      The sets are lists, as in the original; only membership matters. */
  datatype CA2D = CA2D(width: nat, height: nat, values: seq<int>, survival: seq<int>, birth: seq<int>)
  {
    /** There is one value per vertex of the grid. */
    predicate Valid()
    {
      |values| == width * height
    }
  }

  /** Every value of the grid is 0 or 1. */
  predicate Binary(values: seq<int>)
  {
    forall v :: 0 <= v < |values| ==> values[v] == 0 || values[v] == 1
  }

  /** A new automaton of the given size, using Conway's rules (S = {2,3},
      B = {3}). The graph library's initial vertex value is not part of
      this model, so it is the parameter `blank`. */
  function NewCA2D(width: nat, height: nat, blank: int): (ca: CA2D)
    ensures ca.Valid()
    ensures ca.width == width && ca.height == height
    ensures ca.survival == [2, 3] && ca.birth == [3]
    ensures forall v :: 0 <= v < |ca.values| ==> ca.values[v] == blank
  {
    CA2D(width, height, seq(width * height, _ => blank), [2, 3], [3])
  }

  /** Fills the grid: all dead for `Empty`; for `RandomFill`, vertex `v`
      gets the coin `coins(v)`, which stands for the random draw. */
  function InitSeed(ca: CA2D, seed: Seed, coins: nat -> Bit): (r: CA2D)
    ensures r.width == ca.width && r.height == ca.height
    ensures r.survival == ca.survival && r.birth == ca.birth
    ensures |r.values| == |ca.values|
    ensures Binary(r.values)
    ensures seed == Empty ==> forall v :: 0 <= v < |r.values| ==> r.values[v] == 0
    ensures seed == RandomFill ==> forall v :: 0 <= v < |r.values| ==> r.values[v] == coins(v)
  {
    var values := match seed
      case Empty => seq(|ca.values|, _ => 0)
      case RandomFill => seq(|ca.values|, v requires 0 <= v => coins(v) as int);
    ca.(values := values)
  }

  /** Replaces the survival set; nothing else changes. */
  function SetSurvival(ca: CA2D, n: seq<int>): (r: CA2D)
    ensures r.survival == n
    ensures r.width == ca.width && r.height == ca.height && r.values == ca.values && r.birth == ca.birth
  {
    ca.(survival := n)
  }

  /** Replaces the birth set; nothing else changes. */
  function SetBirth(ca: CA2D, n: seq<int>): (r: CA2D)
    ensures r.birth == n
    ensures r.width == ca.width && r.height == ca.height && r.values == ca.values && r.survival == ca.survival
  {
    ca.(birth := n)
  }

  /** The vertex that holds position `p`. */
  function VertexOf(width: nat, p: Pos): int
  {
    p.row * width + p.col
  }

  /** Every on-grid position names a vertex of the grid. */
  lemma VertexInRange(width: nat, height: nat, p: Pos)
    requires InBounds(width, height, p)
    ensures 0 <= VertexOf(width, p) < width * height
  {
    assert p.row * width + p.col < (p.row + 1) * width;
    assert (p.row + 1) * width <= height * width;
  }

  /** The position a vertex holds: quotient and remainder by the width. */
  function PosOf(width: nat, v: int): (p: Pos)
    requires width > 0
    ensures VertexOf(width, p) == v
  {
    Pos(v / width, v % width)
  }

  /** Positions and vertices correspond one to one. */
  lemma PosOfVertex(width: nat, height: nat, p: Pos)
    requires InBounds(width, height, p)
    ensures PosOf(width, VertexOf(width, p)) == p
  {
    DivUnique(VertexOf(width, p), width, p.row, p.col);
  }

  /** Every vertex of the grid holds an on-grid position. */
  lemma PosOfInBounds(width: nat, height: nat, v: int)
    requires 0 <= v < width * height
    ensures width > 0 && InBounds(width, height, PosOf(width, v))
  {
    DivBelow(v, height, width);
  }

  /** The value at an on-grid position. */
  function Value(ca: CA2D, p: Pos): int
    requires ca.Valid() && InBounds(ca.width, ca.height, p)
  {
    VertexInRange(ca.width, ca.height, p);
    ca.values[VertexOf(ca.width, p)]
  }

  /** The sum of the values at the positions `ns`, in order. */
  function NeighbourSum(ca: CA2D, ns: seq<Pos>): int
    requires ca.Valid()
    requires forall i :: 0 <= i < |ns| ==> InBounds(ca.width, ca.height, ns[i])
  {
    if |ns| == 0 then 0 else Value(ca, ns[0]) + NeighbourSum(ca, ns[1..])
  }

  /** The live-neighbour count of `p`: the values of its neighbours, added
      up. On a 0/1 grid it never exceeds the eight cells a king reaches. */
  function LiveNeighbours(ca: CA2D, p: Pos): (count: int)
    requires ca.Valid()
    ensures Binary(ca.values) ==> 0 <= count <= 8
  {
    var ns := Neighbours(ca.width, ca.height, p);
    if Binary(ca.values) then
      SumCountsLive(ca, ns);
      NeighbourSum(ca, ns)
    else
      NeighbourSum(ca, ns)
  }

  /** The transition rule: survival for a live cell, birth for a dead one.
      A value other than 0 and 1 never counts as live or dead. */
  predicate LiveNext(value: int, count: int, survival: seq<int>, birth: seq<int>): (live: bool)
    ensures live ==> value == 0 || value == 1
    ensures live ==> count in survival || count in birth
  {
    (value == 1 && count in survival) || (value == 0 && count in birth)
  }

  /** Under the rule sets a new automaton starts with, S = [2, 3] and
      B = [3], the rule is Conway's Life: a cell is live next exactly when it
      has three live neighbours, or is live and has two. */
  lemma ConwayRule(value: Bit, count: int)
    ensures LiveNext(value, count, [2, 3], [3]) <==> count == 3 || (value == 1 && count == 2)
  {
  }

  /** The value vertex `v` has after one generation. */
  function CellAfter(ca: CA2D, v: int): (b: Bit)
    requires ca.Valid() && 0 <= v < ca.width * ca.height
  {
    PosOfInBounds(ca.width, ca.height, v);
    var p := PosOf(ca.width, v);
    if LiveNext(Value(ca, p), LiveNeighbours(ca, p), ca.survival, ca.birth) then 1 else 0
  }

  /** One generation. The result is a new grid in which a cell is 1 exactly
      when the rule makes it live and 0 otherwise; every neighbour count
      reads the previous generation. */
  function Update(ca: CA2D): (r: CA2D)
    requires ca.Valid()
    ensures r.Valid()
    ensures r.width == ca.width && r.height == ca.height
    ensures r.survival == ca.survival && r.birth == ca.birth
    ensures Binary(r.values)
    ensures forall p :: InBounds(ca.width, ca.height, p) ==>
              (Value(r, p) == 1 <==> LiveNext(Value(ca, p), LiveNeighbours(ca, p), ca.survival, ca.birth))
  {
    var values := seq(ca.width * ca.height, v requires 0 <= v < ca.width * ca.height => CellAfter(ca, v) as int);
    var r := ca.(values := values);
    forall p | InBounds(ca.width, ca.height, p)
      ensures Value(r, p) == 1 <==> LiveNext(Value(ca, p), LiveNeighbours(ca, p), ca.survival, ca.birth)
    {
      VertexInRange(ca.width, ca.height, p);
      PosOfVertex(ca.width, ca.height, p);
    }
    r
  }

  /** The positions among `ns` whose cell is live, in order. */
  function LiveAmong(ca: CA2D, ns: seq<Pos>): (live: seq<Pos>)
    requires ca.Valid()
    requires forall i :: 0 <= i < |ns| ==> InBounds(ca.width, ca.height, ns[i])
    ensures forall q :: q in live <==> q in ns && InBounds(ca.width, ca.height, q) && Value(ca, q) == 1
    ensures Distinct(ns) ==> Distinct(live)
    ensures |live| <= |ns|
  {
    if |ns| == 0 then []
    else
      var rest := LiveAmong(ca, ns[1..]);
      assert forall q :: q in ns <==> q == ns[0] || q in ns[1..];
      assert Distinct(ns) ==> Distinct(ns[1..]) && ns[0] !in ns[1..];
      if Value(ca, ns[0]) == 1 then [ns[0]] + rest else rest
  }

  /** On a 0/1 grid the sum of the values at `ns` counts the live ones. */
  lemma {:induction false} SumCountsLive(ca: CA2D, ns: seq<Pos>)
    requires ca.Valid() && Binary(ca.values)
    requires forall i :: 0 <= i < |ns| ==> InBounds(ca.width, ca.height, ns[i])
    ensures NeighbourSum(ca, ns) == |LiveAmong(ca, ns)|
  {
    if |ns| > 0 {
      SumCountsLive(ca, ns[1..]);
      VertexInRange(ca.width, ca.height, ns[0]);
    }
  }

  /** On a 0/1 grid the live-neighbour count of `p` is the number of distinct
      live on-grid cells one king move from `p`, so it lies in 0..8. */
  lemma LiveNeighboursMeaning(ca: CA2D, p: Pos)
    requires ca.Valid() && Binary(ca.values)
    ensures var live := LiveAmong(ca, Neighbours(ca.width, ca.height, p));
            && LiveNeighbours(ca, p) == |live|
            && Distinct(live)
            && (forall q :: q in live <==> InBounds(ca.width, ca.height, q) && Adjacent(p, q) && Value(ca, q) == 1)
    ensures 0 <= LiveNeighbours(ca, p) <= 8
  {
    SumCountsLive(ca, Neighbours(ca.width, ca.height, p));
  }

  /** Two grids that agree at every position of `ns` give the same sum. */
  lemma {:induction false} SumAgrees(a: CA2D, b: CA2D, ns: seq<Pos>)
    requires a.Valid() && b.Valid() && a.width == b.width && a.height == b.height
    requires forall i :: 0 <= i < |ns| ==> InBounds(a.width, a.height, ns[i])
    requires forall i :: 0 <= i < |ns| ==> Value(a, ns[i]) == Value(b, ns[i])
    ensures NeighbourSum(a, ns) == NeighbourSum(b, ns)
  {
    if |ns| > 0 {
      SumAgrees(a, b, ns[1..]);
    }
  }

  /** A cell's next value depends only on its own value and its neighbours'
      values in the previous generation: two grids that agree there agree
      on the cell afterwards, whatever the rest of the grid holds. */
  lemma UpdateReadsOnlyNeighbourhood(a: CA2D, b: CA2D, p: Pos)
    requires a.Valid() && b.Valid() && a.width == b.width && a.height == b.height
    requires a.survival == b.survival && a.birth == b.birth
    requires InBounds(a.width, a.height, p) && Value(a, p) == Value(b, p)
    requires forall q :: InBounds(a.width, a.height, q) && Adjacent(p, q) ==> Value(a, q) == Value(b, q)
    ensures Value(Update(a), p) == Value(Update(b), p)
  {
    var ns := Neighbours(a.width, a.height, p);
    forall i | 0 <= i < |ns| ensures Value(a, ns[i]) == Value(b, ns[i]) {
      assert ns[i] in ns;
    }
    SumAgrees(a, b, ns);
    var ua, ub := Update(a), Update(b);
    VertexInRange(a.width, a.height, p);
    var v := VertexOf(a.width, p);
    assert Value(ua, p) == ua.values[v] && Value(ub, p) == ub.values[v];
    assert Value(ua, p) == 1 <==> Value(ub, p) == 1;
  }

  /** The sum over cells that are all 0 is 0. */
  lemma {:induction false} SumOfDead(ca: CA2D, ns: seq<Pos>)
    requires ca.Valid()
    requires forall v :: 0 <= v < |ca.values| ==> ca.values[v] == 0
    requires forall i :: 0 <= i < |ns| ==> InBounds(ca.width, ca.height, ns[i])
    ensures NeighbourSum(ca, ns) == 0
  {
    if |ns| > 0 {
      SumOfDead(ca, ns[1..]);
      VertexInRange(ca.width, ca.height, ns[0]);
    }
  }

  /** Without birth on zero neighbours, the all-dead grid stays all dead. */
  lemma EmptyIsFixedPoint(ca: CA2D)
    requires ca.Valid()
    requires forall v :: 0 <= v < |ca.values| ==> ca.values[v] == 0
    requires 0 !in ca.birth
    ensures Update(ca) == ca
  {
    var r := Update(ca);
    forall v | 0 <= v < |ca.values| ensures r.values[v] == 0 {
      PosOfInBounds(ca.width, ca.height, v);
      var p := PosOf(ca.width, v);
      SumOfDead(ca, Neighbours(ca.width, ca.height, p));
      assert Value(r, p) != 1;
    }
    assert r.values == ca.values;
  }

  /** The rows of a frame: `rows` runs of `width` consecutive values, read
      off with a counter that advances one value at a time. */
  function FrameRows(values: seq<int>, width: nat, rows: nat): (f: seq<seq<int>>)
    requires |values| == rows * width
    ensures |f| == rows
    ensures forall r :: 0 <= r < rows ==> |f[r]| == width
  {
    if rows == 0 then []
    else
      MulSucc(rows - 1, width);
      [values[..width]] + FrameRows(values[width..], width, rows - 1)
  }

  /** Entry (r, c) of the frame rows is value `r * width + c`. */
  lemma {:induction false} FrameRowsEntry(values: seq<int>, width: nat, rows: nat, r: nat, c: nat)
    requires |values| == rows * width && r < rows && c < width
    ensures r * width + c < |values|
    ensures FrameRows(values, width, rows)[r][c] == values[r * width + c]
  {
    MulSucc(r, width);
    MulMono(r + 1, rows, width);
    if r > 0 {
      MulSucc(rows - 1, width);
      MulSucc(r - 1, width);
      FrameRowsEntry(values[width..], width, rows - 1, r - 1, c);
    }
  }

  /** The grid as `height` rows of `width` values; entry (r, c) is the
      value at row r, column c. */
  function Frame(ca: CA2D): (f: seq<seq<int>>)
    requires ca.Valid()
    ensures |f| == ca.height
    ensures forall r :: 0 <= r < ca.height ==> |f[r]| == ca.width
    ensures forall p :: InBounds(ca.width, ca.height, p) ==> f[p.row][p.col] == Value(ca, p)
  {
    var f := FrameRows(ca.values, ca.width, ca.height);
    forall p | InBounds(ca.width, ca.height, p) ensures f[p.row][p.col] == Value(ca, p) {
      FrameRowsEntry(ca.values, ca.width, ca.height, p.row, p.col);
    }
    f
  }

  /** The rows of a frame laid end to end. */
  function Flatten(f: seq<seq<int>>): seq<int>
  {
    if |f| == 0 then [] else f[0] + Flatten(f[1..])
  }

  /** Reading the rows of a frame back in order gives the grid's values. */
  lemma {:induction false} FlattenFrameRows(values: seq<int>, width: nat, rows: nat)
    requires |values| == rows * width
    ensures Flatten(FrameRows(values, width, rows)) == values
  {
    if rows > 0 {
      MulSucc(rows - 1, width);
      FlattenFrameRows(values[width..], width, rows - 1);
      assert FrameRows(values, width, rows)[1..] == FrameRows(values[width..], width, rows - 1);
    }
  }

  /** A frame holds the whole grid and nothing else. */
  lemma FrameRoundTrip(ca: CA2D)
    requires ca.Valid()
    ensures Flatten(Frame(ca)) == ca.values
  {
    FlattenFrameRows(ca.values, ca.width, ca.height);
  }
}
