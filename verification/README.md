# Cellular automata and raster transforms, modelled in Dafny

This project is a functional model of the integer grid logic of a small
collection of plotting and animation scripts. It proves properties of that
model. There are four families of grid logic:

- **Elementary automaton** (`plots/1dca.py`). An 8-bit Wolfram rule code is
  validated and decoded bit by bit. The start row is one of four seed shapes.
  A row of 0/1 cells steps to the next with a fixed dead cell beyond each end.
  The stack of generations is scaled to 0/255 greyscale. Module `Elementary`
  covers this, using module `Bits` for binary expansions.
- **Life-like automaton** (`animations/2dca.py`). The grid is a width × height
  king graph: each cell's neighbours are the cells one king move away, clipped
  at the edges. The survival set S and birth set B decide the next generation.
  That generation is built in a fresh grid from the previous one only. Frames
  read vertex `r * width + c` as row r, column c. Modules `KingGrid`, `Life`
  and `Animation` cover this. `Animation` follows the frame → scale-up →
  colour pipeline the script's animation runs.
- **Frame transforms** (`mp4generator.py`). Frames are scaled up by pixel
  replication, and binary frames are mapped to black and white RGB. The video
  record holds the frames together with the size the writer is opened at.
  Module `Frames` covers this.
- **Raster filters** (`plots/2d_grapher.py`). These are thresholding to 0/255,
  the box ("average") blur over a clipped square window, and grid marks every
  1024 pixels. Module `Filters` covers this.

Module `Arith` collects the facts about multiplication, division and remainder
that the index calculations need. Module `Pixels` holds the 8-bit channel
maximum, 255, that the greyscale images and the colour frames share.

How the model maps the original:

- Every grid is an immutable sequence of rows. The in-place updates of the
  original become functions that return the new grid.
- Random draws become an oracle parameter `coins: nat -> Bit`. The draw for
  position i is `coins(i)`.
- Python's `>>` on a non-negative rule code is repeated halving, and `& 1` is
  `% 2`.
- Python's `int(a / b)` in the blur truncates toward zero. It is modelled
  exactly by `Filters.TruncDiv`.
- An `IndexError` or `ZeroDivisionError` that the original would raise becomes
  a precondition. Only the rule-range `ValueError` of the elementary automaton
  is an error result (`Elementary.Result`), because it is the only error the
  code raises on purpose.
- The king graph comes from a graph library that is not part of this model.
  Its neighbourhood is stated directly by `KingGrid.Neighbours`. The value the
  library gives a fresh vertex is unknown, so it is the parameter `blank` of
  `Life.NewCA2D`.

## Model

| member | source | states |
|---|---|---|
| `Elementary.NewCA` | plots/1dca.py:24-31 | A rule below 0 or above 255 gives the `InvalidRule` error, and only such a rule does. A valid rule is stored unchanged, together with the width, height and seed type. |
| `Bits.ShiftReadsDigit` | plots/1dca.py:35 | Shifting right by k and masking with 1 reads binary digit k of the number. |
| `Elementary.ApplyRule` | plots/1dca.py:33-35 | The next state of a neighbourhood (l, c, r) is entry 4l+2c+r of the rule's 8-entry table, so it is always 0 or 1. |
| `Elementary.TableRoundTrip` | plots/1dca.py:33-35 | Reading the 8-entry table as a binary number gives the rule code back, so decoding loses nothing. |
| `Elementary.TableOfCode` | plots/1dca.py:33-35 | Every 8-entry 0/1 table is the table of some rule code in 0..255. |
| `Elementary.RuleDeterminedByBehaviour` | plots/1dca.py:33-35 | Two rule codes that give the same result on all eight neighbourhoods are equal. |
| `Elementary.ExtremeRules` | plots/1dca.py:35 | Rule 0 gives 0 and rule 255 gives 1 on every neighbourhood. |
| `Elementary.InitSeed` | plots/1dca.py:37-50 | The seed is `width` cells long. RANDOM takes the draws. CENTER, LEFT and RIGHT have a 1 exactly at `width // 2`, 0 and `width - 1` respectively, and 0 elsewhere. |
| `Elementary.Interior` | plots/1dca.py:57-61 | The loop's cells, from cell i to the last but one, are each the rule applied to the input cells at i-1, i and i+1. |
| `Elementary.AssembledRow` | plots/1dca.py:55-63 | The first cell (dead left neighbour), the loop's cells and the last cell (dead right neighbour), joined, are cell by cell the rule applied to the zero-padded window. |
| `Elementary.NextRow` | plots/1dca.py:52-65 | For a row of at least two cells, the next row has the same length. Cell i is the rule applied to cells i-1, i and i+1, with 0 for a neighbour beyond either end (no wrap-around). |
| `Elementary.NextRowLocal` | plots/1dca.py:57-61 | Output cell i depends only on input cells i-1, i and i+1. Two rows that agree there give the same cell. |
| `Elementary.NextRowExtremeRules` | plots/1dca.py:52-65 | Under rule 0 every next row is all zeros. Under rule 255 it is all ones. |
| `Elementary.History` | plots/1dca.py:69-72 | There are `count` rows. Row 0 is the seed, every row has the seed's length, and row k+1 is the next row of row k. |
| `Elementary.Scaled` | plots/1dca.py:75-77 | Each pixel is the cell times 255. |
| `Elementary.ScaledRoundTrip` | plots/1dca.py:75-77 | Dividing the greyscale row back gives the cells again. |
| `Elementary.ScaledAll` | plots/1dca.py:75-77 | Row k of the image is row k of the history, scaled. |
| `Elementary.Generate` | plots/1dca.py:67-79 | The output has `max(height, 1)` rows, each `width` pixels wide, and every pixel is 0 or 255. |
| `Elementary.GenerateRows` | plots/1dca.py:67-79 | Row 0 is 255 × seed. Row k+1 is 255 × the next row of (row k divided by 255). |
| `KingGrid.MovesAreAdjacency` | animations/2dca.py:25 | The eight king moves are exactly the displacements between distinct cells at most one row and one column apart. |
| `KingGrid.Neighbours` | animations/2dca.py:62 | A position is a neighbour of p if and only if it is on the grid and one king move from p. No neighbour is listed twice, and there are at most eight. |
| `KingGrid.InteriorHasEight` | animations/2dca.py:62 | A cell away from every edge has exactly eight neighbours. |
| `KingGrid.EdgeHasFive` | animations/2dca.py:62 | A cell on the top edge, away from both corners, of a grid at least two rows high has exactly five neighbours. |
| `KingGrid.CornerHasThree` | animations/2dca.py:62 | The top-left corner of a grid at least 2 × 2 has exactly three neighbours. |
| `KingGrid.NoWrapAround` | animations/2dca.py:62 | A cell in the first column has no neighbour in the last column of a grid wider than two (the grid is not toroidal). |
| `Life.NewCA2D` | animations/2dca.py:22-28 | A new automaton keeps the given size, has one value per vertex, and starts with S = [2, 3] and B = [3]. |
| `Life.InitSeed` | animations/2dca.py:30-38 | EMPTY sets every cell to 0. RANDOM sets vertex v to its draw. Either way every cell is 0 or 1, and the size and both rule sets are unchanged. |
| `Life.SetSurvival` | animations/2dca.py:43-47 | S becomes the given list. The grid, the size and B are unchanged. |
| `Life.SetBirth` | animations/2dca.py:49-53 | B becomes the given list. The grid, the size and S are unchanged. |
| `Life.VertexInRange` | animations/2dca.py:79-84 | Every on-grid (row, column) names a vertex `row * width + column` of the grid. |
| `Life.PosOfVertex` | animations/2dca.py:79-84 | Vertex `row * width + column` holds exactly that row and column: positions and vertices correspond one to one. |
| `Life.PosOfInBounds` | animations/2dca.py:79-84 | Every vertex of the grid holds an on-grid position. |
| `Life.LiveNeighbours` | animations/2dca.py:61-65 | On a 0/1 grid, the sum of the neighbours' values lies in 0..8. |
| `Life.LiveNext` | animations/2dca.py:67-70 | Only a cell holding 0 or 1 can be live next, and only when its count is listed in S or in B. |
| `Life.ConwayRule` | animations/2dca.py:67-70 | With the initial sets S = [2, 3] and B = [3], a 0/1 cell is live next exactly when its count is 3, or it is live and its count is 2 (Conway's Life). |
| `Life.Update` | animations/2dca.py:55-72 | After one step a cell is 1 if and only if it was 1 with a neighbour count in S, or was 0 with a count in B. Otherwise it is 0. The size and both sets are kept, and every cell is 0 or 1. |
| `Life.SumCountsLive` | animations/2dca.py:63-65 | On a 0/1 grid, summing neighbour values counts the live neighbours. |
| `Life.LiveNeighboursMeaning` | animations/2dca.py:61-65 | On a 0/1 grid the count is the number of distinct live on-grid cells one king move away, so it lies in 0..8. |
| `Life.UpdateReadsOnlyNeighbourhood` | animations/2dca.py:57-72 | A cell's next value depends only on its own value and its neighbours' values in the previous generation (double buffering). |
| `Life.EmptyIsFixedPoint` | animations/2dca.py:57-70 | If 0 is not in B, the all-dead grid is unchanged by a step. |
| `Life.FrameRowsEntry` | animations/2dca.py:79-84 | Reading with a running counter, entry (r, c) of the frame is value `r * width + c`. |
| `Life.Frame` | animations/2dca.py:75-87 | The frame has `height` rows of `width` values, and entry (r, c) is the value of the cell at row r, column c. |
| `Life.FrameRoundTrip` | animations/2dca.py:75-87 | The frame's rows laid end to end are the grid's values: the frame holds the whole grid and nothing else. |
| `Animation.Generations` | animations/2dca.py:111-115 | The automaton is followed by its successors: `count` generations of the same size, each the update of the one before. |
| `Animation.Film` | animations/2dca.py:111-115 | Frame k of the film is the frame of generation k. |
| `Animation.Render` | animations/2dca.py:117-118 | There is one video frame per generation, each 20 × height rows tall, and every pixel is black or white. |
| `Animation.RenderPixel` | animations/2dca.py:111-118 | After scaling by 20 and colouring, frame n is 20·height × 20·width pixels. Pixel (i, j) is black when cell (i div 20, j div 20) of generation n holds 0, and white otherwise. |
| `Animation.RenderShowsLiveCells` | animations/2dca.py:111-118 | From the second frame on, a pixel is white exactly when its cell is live. |
| `Frames.Repeat` | mp4generator.py:44-47 | A `range(factor)` loop appends the item `factor` times, and not at all when the factor is below one. |
| `Frames.ScaleRow` | mp4generator.py:42-45 | A scaled row has `width × factor` pixels. |
| `Frames.ScaleFrame` | mp4generator.py:40-47 | A scaled frame has `height × factor` rows. |
| `Frames.ScaleUp` | mp4generator.py:34-50 | The number of frames is kept, and frame n is frame n scaled. |
| `Frames.ScaleRowAt` | mp4generator.py:43-45 | Copy m of pixel q of a row is at position `q × factor + m` of the scaled row. |
| `Frames.ScaleFrameAt` | mp4generator.py:46-47 | Copy m of row q of a frame is row `q × factor + m` of the scaled frame. |
| `Frames.ScaledPixel` | mp4generator.py:40-47 | Scaled frame n has rows of `width × factor` pixels, and `scaled[i][j] == frame[i div factor][j div factor]`. |
| `Frames.ScaleUpByOne` | mp4generator.py:41-47 | Scaling by 1 is the identity. |
| `Frames.ScaleUpByNothing` | mp4generator.py:44-47 | A factor below one leaves every frame with no rows. |
| `Frames.DownsampleScaleFrame` | mp4generator.py:40-47 | Keeping every factor-th row and pixel of a scaled frame gives the original frame back. |
| `Frames.Binary2Rgb` | mp4generator.py:53-69 | The number of frames, the rows per frame and the pixels per row are kept. A pixel becomes (0,0,0) if and only if it is 0, and (255,255,255) if and only if it is not. |
| `Frames.Binary2RgbRoundTrip` | mp4generator.py:62-65 | On 0/1 frames, mapping the colours back gives the frames again. |
| `Frames.NewVideo` | mp4generator.py:74-79 | The video stores the file name, frame rate and frames. Its height is the first frame's row count and its width the length of that frame's first row. |
| `Frames.VideoScaleUp` | mp4generator.py:103-104 | Only the frames are replaced, by the scaled frames. Name, rate, height and width are unchanged. |
| `Frames.VideoScaleUpLeavesStaleSize` | mp4generator.py:103-104 | A 1×1 video scaled by the default factor 2 still records 1×1 while its frames are 2×2. |
| `Frames.VideoScaleUpResized` | mp4generator.py:103-104 | The corrected scaling replaces the frames in the same way and keeps the recorded size equal to the frames' size. |
| `Frames.VideoBinary2Rgb` | mp4generator.py:106-108 | Only the frames are replaced, by their colouring. The recorded size stays consistent with the frames. |
| `Filters.ThresholdPlot` | plots/2d_grapher.py:18-25 | Each row keeps its length. A pixel becomes 255 if and only if `min ≤ v ≤ max` (inclusive), and 0 if and only if not. |
| `Filters.EmptyBandBlanks` | plots/2d_grapher.py:21-22 | When min > max every pixel becomes 0. |
| `Filters.ThresholdMonotone` | plots/2d_grapher.py:21-24 | Widening the band never turns a 255 pixel into 0. |
| `Filters.TruncDiv` | plots/2d_grapher.py:74 | `int(a / b)` for b > 0 is the quotient rounded toward zero, pinned between consecutive multiples of b on each sign of a. |
| `Filters.AverageAtMost` | plots/2d_grapher.py:74 | A sum of at most m per counted pixel averages to a value in 0..m. |
| `Filters.ColsCountClosed` | plots/2d_grapher.py:70-73 | The column loop counts the columns of the window's span that lie inside the plot. |
| `Filters.RowsCountClosed` | plots/2d_grapher.py:69-73 | The row loop counts in-plot rows times in-plot columns. |
| `Filters.WindowCountClosed` | plots/2d_grapher.py:69-73 | The window count is the size of the (2r+1)² square clipped to the plot. |
| `Filters.WindowNotEmpty` | plots/2d_grapher.py:69-74 | With radius ≥ 0 the window of an on-plot pixel has count ≥ 1, so the division is defined. |
| `Filters.BlurPixel` | plots/2d_grapher.py:67-74 | The window count is at least 1, and the pixel is at most 255. For a non-negative sum the pixel is the largest v ≤ 255 with v × count ≤ sum: the average rounded toward zero, capped at 255. |
| `Filters.AverageBlur` | plots/2d_grapher.py:59-79 | The output has the input's row count and first-row width. Each pixel is the window's sum divided by its count, rounded toward zero and capped at 255, over the in-bounds window, with count ≥ 1. |
| `Filters.ColsSumBounds` | plots/2d_grapher.py:70-73 | With pixels in 0..255, a column sum lies between 0 and 255 × its count. |
| `Filters.RowsSumBounds` | plots/2d_grapher.py:69-73 | With pixels in 0..255, a window sum lies between 0 and 255 × its count. |
| `Filters.AverageBlurBounds` | plots/2d_grapher.py:74 | Blurring a plot with pixels in 0..255 gives a plot with pixels in 0..255. |
| `Filters.BlurRadiusZero` | plots/2d_grapher.py:69-74 | With radius 0 every pixel of value at most 255 comes back unchanged. |
| `Filters.MarkRow` | plots/2d_grapher.py:84-85 | The column loop sets to 0 exactly the multiples of 1024 from its start up to the width. Every other pixel is unchanged. |
| `Filters.MarkRows` | plots/2d_grapher.py:83-85 | The row loop marks exactly the rows that are multiples of 1024 from its start. Every other row is unchanged. |
| `Filters.AddGridmarks` | plots/2d_grapher.py:81-87 | A pixel becomes 0 exactly when its row and column are both multiples of 1024 and the column is below the first row's length. Every other pixel is unchanged. |
| `Filters.AddGridmarksIdempotent` | plots/2d_grapher.py:83-85 | Stamping the marks twice gives the same plot as stamping them once. |

## Left out

- `mp4.make` (mp4generator.py:81-100) is not modelled. It does video encoding through OpenCV and numpy: file I/O and printing.
- `CA.save` (plots/1dca.py:81-83) is not modelled. It writes a PNG through a library that is not part of this model.
- `gaussian_blur` (plots/2d_grapher.py:27-57) is not modelled. It is floating-point `exp` kernel arithmetic.
- `add_gridlines` (plots/2d_grapher.py:89-97) is not modelled. Nothing calls it, and it indexes past the plot when the size is not a multiple of 1024.
- Floating-point numerics are not modelled: `f`, the coordinate mapping and `main` in plots/2d_grapher.py, and animations/vector_field.py, plots/domain_color.py and animations/xyt.py.
- Random draws are not modelled as randomness. They are the `coins` parameter.
- The graph library's internals are not modelled. The neighbourhood is stated directly, and the library's initial vertex value is the parameter `blank`.
- `CA2D.get` (animations/2dca.py:40-41) is not modelled. It hands out the graph object itself, and the model has no objects.
- Entry points are not modelled: `main`, `test` and `test_rgb`, timing and printing. `Animation.Render` models only the frame → scale-up → colour steps that the life animation's `main` performs. That `main`'s own configuration is not stated: a 25 × 25 grid, B = [3, 6], 30 frames and the video file.
- The elementary automaton's stored `data` field is not a field of `Elementary.CA`. `Elementary.Generate` returns what `generate` stores and returns.
- Default arguments are not modelled; every parameter is passed explicitly. These are the elementary automaton's width and height of 512 and seed type RANDOM (plots/1dca.py:20), the life automaton's 512 × 512 size (animations/2dca.py:22), `init_seed`'s seed RANDOM (animations/2dca.py:30), `scale_up`'s factor 2 and the video's 24 frames per second (mp4generator.py:74, 103).
- The `isinstance(rule, int)` test (plots/1dca.py:24) has no counterpart, because the model's rule parameter is already an integer.
- A negative width for the elementary automaton is not modelled. The width is a natural number.
- The rule-30 regression history (width 5) is not stated as a concrete fixture. Only the general properties are proved.
- The glider on a 10 × 10 grid under S = {2, 3}, B = {3} is not stated as a concrete run. Stepping a concrete grid through `Life.Update` is beyond what the verifier unfolds cheaply. `Life.ConwayRule` and `Life.Update` state the rule it follows.
- `KingGrid.EdgeHasFive` and `KingGrid.CornerHasThree` state the top edge and the top-left corner only. The other three edges and corners follow by symmetry and are not stated separately.
- `Filters.ThresholdPlot` takes real numbers. Floating-point infinities, NaN and rounding are not modelled.
- `Filters.AverageBlur` divides exactly. The original divides in floating point before truncating, so rounding of very large sums is not modelled.
- `Frames.ScaleFrame` does not model aliasing. The original appends the same row object `factor` times; with immutable rows this sharing cannot be observed.

## Findings

| source | as written | input that shows it | evidently intended | confidence | as-written member | corrected member |
|---|---|---|---|---|---|---|
| mp4generator.py:103-104 | `mp4.scale_up` replaces `data` but keeps the `height` and `width` set by the constructor (lines 78-79). `make` opens the writer with that stale size (line 86). | A video of one 1×1 frame, scaled by the default factor 2: its frames become 2×2 but it still records 1×1. | The recorded size is scaled along with the frames. | medium, not executed | `Frames.VideoScaleUpLeavesStaleSize` | `Frames.VideoScaleUpResized` |
