/** The animation pipeline of the life-like automaton: one frame per
    generation, each cell blown up to a square block of pixels, and every
    pixel coloured black (dead) or white (live). */
module Animation {
  import opened KingGrid
  import opened Life
  import opened Frames
  import opened Arith

  /** The side, in pixels, of the block that shows one cell. */
  const CellPixels: int := 20

  /** The automaton and its successors: `count` generations in order. */
  function Generations(ca: CA2D, count: nat): (gens: seq<CA2D>)
    requires ca.Valid()
    ensures |gens| == count
    ensures count > 0 ==> gens[0] == ca
    ensures forall k :: 0 <= k < count ==>
              gens[k].Valid() && gens[k].width == ca.width && gens[k].height == ca.height
    ensures forall k :: 0 <= k < count - 1 ==> gens[k + 1] == Update(gens[k])
    decreases count
  {
    if count == 0 then [] else [ca] + Generations(Update(ca), count - 1)
  }

  /** The frame of every generation, before the automaton steps on. */
  function Film(ca: CA2D, count: nat): (film: seq<seq<seq<int>>>)
    requires ca.Valid()
    ensures |film| == count
    ensures forall k :: 0 <= k < count ==> film[k] == Frame(Generations(ca, count)[k])
  {
    var gens := Generations(ca, count);
    seq(count, k requires 0 <= k < count => Frame(gens[k]))
  }

  /** The film scaled up by `CellPixels` and coloured. */
  function Render(ca: CA2D, count: nat): (video: seq<seq<seq<Rgb>>>)
    requires ca.Valid()
    ensures |video| == count
    ensures forall n :: 0 <= n < count ==> |video[n]| == ca.height * CellPixels
    ensures forall n, i, j :: 0 <= n < count && 0 <= i < |video[n]| && 0 <= j < |video[n][i]| ==>
              video[n][i][j] == Black || video[n][i][j] == White
  {
    Binary2Rgb(ScaleUp(Film(ca, count), CellPixels))
  }

  /** Pixel (i, j) of frame `n` shows the cell at row i / 20, column j / 20
      of generation `n`: black when that cell holds 0 and white otherwise.
      Each frame is `20 * height` rows of `20 * width` pixels. */
  lemma RenderPixel(ca: CA2D, count: nat, n: int, i: int, j: int)
    requires ca.Valid() && 0 <= n < count
    requires 0 <= i < ca.height * CellPixels && 0 <= j < ca.width * CellPixels
    ensures |Render(ca, count)[n]| == ca.height * CellPixels
    ensures InBounds(ca.width, ca.height, Pos(i / CellPixels, j / CellPixels))
    ensures var gen := Generations(ca, count)[n];
            var cell := Value(gen, Pos(i / CellPixels, j / CellPixels));
            |Render(ca, count)[n][i]| == ca.width * CellPixels &&
            Render(ca, count)[n][i][j] == (if cell == 0 then Black else White)
  {
    var film := Film(ca, count);
    var gen := Generations(ca, count)[n];
    var frame := film[n];
    assert frame == Frame(gen);
    assert |frame| == ca.height && |frame[i / CellPixels]| == ca.width by {
      DivBelow(i, ca.height, CellPixels);
    }
    var scaled := ScaleUp(film, CellPixels);
    ScaledPixel(film, CellPixels, n, i, j);
    var p := Pos(i / CellPixels, j / CellPixels);
    var pixel := scaled[n][i][j];
    assert pixel == Value(gen, p);
    var video := Binary2Rgb(scaled);
    assert video[n][i][j] == (if pixel == 0 then Black else White);
  }

  /** From the second frame on, every pixel is black or white according to
      whether the cell is dead or live. */
  lemma RenderShowsLiveCells(ca: CA2D, count: nat, n: int, i: int, j: int)
    requires ca.Valid() && 0 < n < count
    requires 0 <= i < ca.height * CellPixels && 0 <= j < ca.width * CellPixels
    ensures InBounds(ca.width, ca.height, Pos(i / CellPixels, j / CellPixels))
    ensures |Render(ca, count)[n]| == ca.height * CellPixels
    ensures |Render(ca, count)[n][i]| == ca.width * CellPixels
    ensures var gen := Generations(ca, count)[n];
            Render(ca, count)[n][i][j] == White <==> Value(gen, Pos(i / CellPixels, j / CellPixels)) == 1
  {
    RenderPixel(ca, count, n, i, j);
    var gens := Generations(ca, count);
    var p := Pos(i / CellPixels, j / CellPixels);
    assert gens[n] == Update(gens[n - 1]);
    VertexInRange(ca.width, ca.height, p);
  }
}
