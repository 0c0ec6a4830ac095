/** Raster filters for greyscale plots: thresholding into a black and white
    band, the box ("average") blur over a clipped square window, and grid
    marks stamped every `Resolution` pixels. A plot is a list of rows. */
module Filters {
  import opened Arith
  import opened Pixels

  /** Pixels per unit of the plotted plane; grid marks are this far apart. */
  const Resolution: int := 1024

  /** A pixel inside the closed band [lo, hi] becomes 255, any other 0. */
  function ThresholdPixel(v: real, lo: real, hi: real): int
  {
    if v < lo || v > hi then 0 else Greyscale
  }

  /** Every pixel thresholded; each row keeps its length. */
  function ThresholdPlot(plot: seq<seq<real>>, lo: real, hi: real): (r: seq<seq<int>>)
    ensures |r| == |plot|
    ensures forall i :: 0 <= i < |plot| ==> |r[i]| == |plot[i]|
    ensures forall i, j :: 0 <= i < |plot| && 0 <= j < |plot[i]| ==>
              (r[i][j] == Greyscale <==> lo <= plot[i][j] <= hi) &&
              (r[i][j] == 0 <==> !(lo <= plot[i][j] <= hi))
  {
    seq(|plot|, i requires 0 <= i < |plot| =>
      seq(|plot[i]|, j requires 0 <= j < |plot[i]| => ThresholdPixel(plot[i][j], lo, hi)))
  }

  /** An empty band blanks the whole plot. */
  lemma EmptyBandBlanks(plot: seq<seq<real>>, lo: real, hi: real)
    requires lo > hi
    ensures forall i, j :: 0 <= i < |plot| && 0 <= j < |plot[i]| ==> ThresholdPlot(plot, lo, hi)[i][j] == 0
  {
  }

  /** Widening the band only turns black pixels white, never the reverse. */
  lemma ThresholdMonotone(plot: seq<seq<real>>, lo: real, hi: real, lo': real, hi': real)
    requires lo' <= lo && hi <= hi'
    ensures forall i, j :: 0 <= i < |plot| && 0 <= j < |plot[i]| ==>
              ThresholdPlot(plot, lo, hi)[i][j] <= ThresholdPlot(plot, lo', hi')[i][j]
  {
  }

  /** `int(a / b)` for integers: the quotient rounded toward zero. */
  function TruncDiv(a: int, b: int): (q: int)
    requires b > 0
    ensures a >= 0 ==> 0 <= q && q * b <= a < q * b + b
    ensures a < 0 ==> q <= 0 && q * b - b < a <= q * b
  {
    if a >= 0 then
      DivBounds(a, b);
      a / b
    else
      DivBounds(-a, b);
      MulSub(0, (-a) / b, b);
      -((-a) / b)
  }

  /** A sum of at most `m` per counted pixel averages to at most `m`. */
  lemma AverageAtMost(a: int, b: int, m: int)
    requires b > 0 && 0 <= a <= m * b
    ensures 0 <= TruncDiv(a, b) <= m
  {
    var q := TruncDiv(a, b);
    if q > m {
      MulMono(m + 1, q, b);
      MulSucc(m, b);
    }
  }

  function Min(a: int, b: int): int
  {
    if a < b then a else b
  }

  /** The sum of `row[c + l]` over offsets `l` from `l0` to `radius` that
      land inside the first `width` columns. */
  function ColsSum(row: seq<int>, width: int, c: int, radius: int, l0: int): int
    requires width <= |row|
    decreases radius - l0
  {
    if l0 > radius then 0
    else (if 0 <= c + l0 < width then row[c + l0] else 0) + ColsSum(row, width, c, radius, l0 + 1)
  }

  /** How many of those offsets land inside the first `width` columns. */
  function ColsCount(width: int, c: int, radius: int, l0: int): nat
    decreases radius - l0
  {
    if l0 > radius then 0
    else (if 0 <= c + l0 < width then 1 else 0) + ColsCount(width, c, radius, l0 + 1)
  }

  /** Rows are at least as long as the first one, so every column below
      its length can be read in every row. */
  predicate Rectangular(plot: seq<seq<int>>)
  {
    forall i :: 0 <= i < |plot| ==> |plot[0]| <= |plot[i]|
  }

  /** The window sum over row offsets `k0` to `radius` around (i, j). */
  function RowsSum(plot: seq<seq<int>>, i: int, j: int, radius: int, k0: int): int
    requires Rectangular(plot)
    decreases radius - k0
  {
    if k0 > radius then 0
    else
      (if 0 <= i + k0 < |plot| then ColsSum(plot[i + k0], |plot[0]|, j, radius, -radius) else 0)
      + RowsSum(plot, i, j, radius, k0 + 1)
  }

  /** The number of in-bounds pixels over row offsets `k0` to `radius`. */
  function RowsCount(height: int, width: int, i: int, j: int, radius: int, k0: int): nat
    decreases radius - k0
  {
    if k0 > radius then 0
    else
      (if 0 <= i + k0 < height then ColsCount(width, j, radius, -radius) else 0)
      + RowsCount(height, width, i, j, radius, k0 + 1)
  }

  /** The number of in-bounds pixels in the window around (i, j). */
  function WindowCount(plot: seq<seq<int>>, i: int, j: int, radius: int): nat
  {
    RowsCount(|plot|, if |plot| == 0 then 0 else |plot[0]|, i, j, radius, -radius)
  }

  /** The number of integers in [max(lo, 0), min(hi, n - 1)], or 0. */
  function Overlap(lo: int, hi: int, n: int): nat
  {
    var a := if lo > 0 then lo else 0;
    var b := if hi < n - 1 then hi else n - 1;
    if a <= b then b - a + 1 else 0
  }

  /** The column count is the size of the window's column span clipped to
      the plot. */
  lemma {:induction false} ColsCountClosed(width: int, c: int, radius: int, l0: int)
    ensures ColsCount(width, c, radius, l0) == Overlap(c + l0, c + radius, width)
    decreases radius - l0
  {
    if l0 <= radius {
      ColsCountClosed(width, c, radius, l0 + 1);
    }
  }

  /** The row count, likewise, times the column count. */
  lemma {:induction false} RowsCountClosed(height: int, width: int, i: int, j: int, radius: int, k0: int)
    ensures RowsCount(height, width, i, j, radius, k0)
            == Overlap(i + k0, i + radius, height) * ColsCount(width, j, radius, -radius)
    decreases radius - k0
  {
    if k0 <= radius {
      RowsCountClosed(height, width, i, j, radius, k0 + 1);
      var cols := ColsCount(width, j, radius, -radius);
      if 0 <= i + k0 < height {
        assert Overlap(i + k0, i + radius, height) == Overlap(i + k0 + 1, i + radius, height) + 1;
      } else if i + k0 < 0 {
        assert Overlap(i + k0, i + radius, height) == Overlap(i + k0 + 1, i + radius, height);
      }
    }
  }

  /** The window around (i, j) holds
      `Overlap(i - radius, i + radius, height) * Overlap(j - radius, j + radius, width)`
      pixels: the square clipped to the plot. */
  lemma WindowCountClosed(plot: seq<seq<int>>, i: int, j: int, radius: int)
    ensures var width := if |plot| == 0 then 0 else |plot[0]|;
            WindowCount(plot, i, j, radius)
            == Overlap(i - radius, i + radius, |plot|) * Overlap(j - radius, j + radius, width)
  {
    var width := if |plot| == 0 then 0 else |plot[0]|;
    RowsCountClosed(|plot|, width, i, j, radius, -radius);
    ColsCountClosed(width, j, radius, -radius);
  }

  /** With a non-negative radius the window of an on-plot pixel contains at
      least the pixel itself. */
  lemma WindowNotEmpty(plot: seq<seq<int>>, i: int, j: int, radius: int)
    requires 0 <= i < |plot| && 0 <= j < |plot[0]| && radius >= 0
    ensures WindowCount(plot, i, j, radius) >= 1
  {
    WindowCountClosed(plot, i, j, radius);
    var a := Overlap(i - radius, i + radius, |plot|);
    var b := Overlap(j - radius, j + radius, |plot[0]|);
    assert a >= 1 && b >= 1;
    MulPositive(a, b);
  }

  lemma MulPositive(a: int, b: int)
    requires a >= 1 && b >= 1
    ensures a * b >= 1
  {
  }

  /** One blurred pixel: the window's sum over its count, rounded toward
      zero and capped at 255. */
  function BlurPixel(plot: seq<seq<int>>, i: int, j: int, radius: int): (v: int)
    requires Rectangular(plot) && 0 <= i < |plot| && 0 <= j < |plot[0]| && radius >= 0
    ensures v <= Greyscale
    ensures var sum := RowsSum(plot, i, j, radius, -radius);
            var count := WindowCount(plot, i, j, radius);
            && count >= 1
            && (sum >= 0 ==> 0 <= v && v * count <= sum)
            && (sum >= 0 && v < Greyscale ==> sum < v * count + count)
  {
    WindowNotEmpty(plot, i, j, radius);
    Min(TruncDiv(RowsSum(plot, i, j, radius, -radius), WindowCount(plot, i, j, radius)), Greyscale)
  }

  /** The box blur: a new plot of the first row's width, each pixel the
      average of the in-bounds (2 * radius + 1)-square around it. A negative
      radius leaves every window empty, which the original divides by, so
      it is allowed only for a plot with no pixels. */
  function AverageBlur(plot: seq<seq<int>>, radius: int): (r: seq<seq<int>>)
    requires Rectangular(plot)
    requires |plot| == 0 || |plot[0]| == 0 || radius >= 0
    ensures |r| == |plot|
    ensures forall i :: 0 <= i < |plot| ==> |r[i]| == |plot[0]|
    ensures forall i, j :: 0 <= i < |plot| && 0 <= j < |plot[0]| ==>
              WindowCount(plot, i, j, radius) >= 1 &&
              r[i][j] == Min(TruncDiv(RowsSum(plot, i, j, radius, -radius), WindowCount(plot, i, j, radius)), Greyscale)
  {
    forall i, j | 0 <= i < |plot| && 0 <= j < |plot[0]| ensures WindowCount(plot, i, j, radius) >= 1 {
      WindowNotEmpty(plot, i, j, radius);
    }
    seq(|plot|, i requires 0 <= i < |plot| =>
      seq(|plot[0]|, j requires 0 <= j < |plot[0]| => BlurPixel(plot, i, j, radius)))
  }

  /** Every pixel lies in 0..255. */
  predicate Greyscale8(plot: seq<seq<int>>)
  {
    forall i, j :: 0 <= i < |plot| && 0 <= j < |plot[i]| ==> 0 <= plot[i][j] <= Greyscale
  }

  /** A column sum of 0..255 pixels lies between 0 and 255 per pixel. */
  lemma {:induction false} ColsSumBounds(row: seq<int>, width: int, c: int, radius: int, l0: int)
    requires width <= |row|
    requires forall x :: 0 <= x < width ==> 0 <= row[x] <= Greyscale
    ensures 0 <= ColsSum(row, width, c, radius, l0) <= Greyscale * ColsCount(width, c, radius, l0)
    decreases radius - l0
  {
    if l0 <= radius {
      ColsSumBounds(row, width, c, radius, l0 + 1);
    }
  }

  /** A window sum of 0..255 pixels lies between 0 and 255 per pixel. */
  lemma {:induction false} RowsSumBounds(plot: seq<seq<int>>, i: int, j: int, radius: int, k0: int)
    requires Rectangular(plot) && Greyscale8(plot)
    ensures 0 <= RowsSum(plot, i, j, radius, k0) <= Greyscale * RowsCount(|plot|, if |plot| == 0 then 0 else |plot[0]|, i, j, radius, k0)
    decreases radius - k0
  {
    if k0 <= radius {
      RowsSumBounds(plot, i, j, radius, k0 + 1);
      if 0 <= i + k0 < |plot| {
        ColsSumBounds(plot[i + k0], |plot[0]|, j, radius, -radius);
      }
    }
  }

  /** Blurring a 0..255 plot gives a 0..255 plot. */
  lemma AverageBlurBounds(plot: seq<seq<int>>, radius: int)
    requires Rectangular(plot) && Greyscale8(plot)
    requires |plot| == 0 || |plot[0]| == 0 || radius >= 0
    ensures Greyscale8(AverageBlur(plot, radius))
  {
    var r := AverageBlur(plot, radius);
    forall i, j | 0 <= i < |r| && 0 <= j < |r[i]| ensures 0 <= r[i][j] <= Greyscale {
      RowsSumBounds(plot, i, j, radius, -radius);
      AverageAtMost(RowsSum(plot, i, j, radius, -radius), WindowCount(plot, i, j, radius), Greyscale);
    }
  }

  /** With radius 0 every window is the pixel alone, so a plot whose pixels
      are at most 255 comes back unchanged (cut to the first row's width). */
  lemma BlurRadiusZero(plot: seq<seq<int>>)
    requires Rectangular(plot)
    requires forall i, j :: 0 <= i < |plot| && 0 <= j < |plot[i]| ==> plot[i][j] <= Greyscale
    ensures forall i, j :: 0 <= i < |plot| && 0 <= j < |plot[0]| ==> AverageBlur(plot, 0)[i][j] == plot[i][j]
  {
    forall i, j | 0 <= i < |plot| && 0 <= j < |plot[0]| ensures AverageBlur(plot, 0)[i][j] == plot[i][j] {
      assert RowsSum(plot, i, j, 0, 1) == 0;
      assert ColsSum(plot[i], |plot[0]|, j, 0, 1) == 0;
      assert RowsCount(|plot|, |plot[0]|, i, j, 0, 1) == 0;
      assert ColsCount(|plot[0]|, j, 0, 1) == 0;
    }
  }

  /** A row or column index that carries grid marks. */
  predicate OnGrid(n: int)
  {
    n % Resolution == 0
  }

  /** The next marked index after a marked one is `Resolution` further on. */
  lemma NextMark(a: int, b: int)
    requires OnGrid(a) && OnGrid(b) && a < b
    ensures a + Resolution <= b
  {
    var p, q := a / Resolution, b / Resolution;
    MulSub(q, p, Resolution);
    MulAtLeast(q - p, Resolution);
  }

  /** A marked row (a multiple of `Resolution`) is long enough for a mark in
      every marked column below the first row's length. */
  predicate MarksFit(plot: seq<seq<int>>)
  {
    forall i, x :: 0 <= i < |plot| && OnGrid(i) && 0 <= x < |plot[0]| && OnGrid(x) ==>
      x < |plot[i]|
  }

  /** The marks of one row, from column `j` on, every `Resolution` columns
      below `width`. */
  function MarkRow(row: seq<int>, width: int, j: int): (r: seq<int>)
    requires j >= 0 && OnGrid(j)
    requires forall x :: j <= x < width && OnGrid(x) ==> x < |row|
    ensures |r| == |row|
    ensures forall x :: 0 <= x < |row| ==> r[x] == (if j <= x < width && OnGrid(x) then 0 else row[x])
    decreases width - j
  {
    if j >= width then row
    else
      forall x | j < x && OnGrid(x) ensures j + Resolution <= x {
        NextMark(j, x);
      }
      MarkRow(row[j := 0], width, j + Resolution)
  }

  /** The marks of rows `i`, `i + Resolution`, ... below the plot's height. */
  function MarkRows(plot: seq<seq<int>>, width: int, i: int): (r: seq<seq<int>>)
    requires i >= 0 && OnGrid(i)
    requires forall y, x :: i <= y < |plot| && OnGrid(y) && 0 <= x < width && OnGrid(x) ==>
               x < |plot[y]|
    ensures |r| == |plot|
    ensures forall y :: 0 <= y < |plot| ==> |r[y]| == |plot[y]|
    ensures forall y, x {:trigger r[y][x]} :: 0 <= y < |plot| && 0 <= x < |plot[y]| ==>
              r[y][x] == (if i <= y && OnGrid(y) && x < width && OnGrid(x) then 0 else plot[y][x])
    decreases |plot| - i
  {
    if i >= |plot| then plot
    else
      var marked := plot[i := MarkRow(plot[i], width, 0)];
      var r := MarkRows(marked, width, i + Resolution);
      forall y, x {:trigger r[y][x]} | 0 <= y < |plot| && 0 <= x < |plot[y]|
        ensures r[y][x] == (if i <= y && OnGrid(y) && x < width && OnGrid(x) then 0 else plot[y][x])
      {
        if i < y && OnGrid(y) {
          NextMark(i, y);
        }
      }
      r
  }

  /** Grid marks: the pixel at every row and column that is a multiple of
      `Resolution` (columns below the first row's length) becomes 0, and no
      other pixel changes. */
  function AddGridmarks(plot: seq<seq<int>>): (r: seq<seq<int>>)
    requires MarksFit(plot)
    ensures |r| == |plot|
    ensures forall i :: 0 <= i < |plot| ==> |r[i]| == |plot[i]|
    ensures forall i, j {:trigger r[i][j]} :: 0 <= i < |plot| && 0 <= j < |plot[i]| ==>
              (r[i][j] == 0 && (OnGrid(i) && OnGrid(j) && j < |plot[0]|)) ||
              (r[i][j] == plot[i][j] && !(OnGrid(i) && OnGrid(j) && j < |plot[0]|))
  {
    if |plot| == 0 then [] else MarkRows(plot, |plot[0]|, 0)
  }

  /** Stamping the marks a second time changes nothing. */
  lemma AddGridmarksIdempotent(plot: seq<seq<int>>)
    requires MarksFit(plot)
    ensures MarksFit(AddGridmarks(plot))
    ensures AddGridmarks(AddGridmarks(plot)) == AddGridmarks(plot)
  {
    var once := AddGridmarks(plot);
    var twice := AddGridmarks(once);
    forall i | 0 <= i < |plot| ensures twice[i] == once[i] {
    }
  }
}
