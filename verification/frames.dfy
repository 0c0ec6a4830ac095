/** Frame transforms for the video writer: integer up-scaling by pixel
    replication, the mapping of binary frames to black and white RGB, and
    the video record that carries frames with their size. A frame is a list
    of rows, a row a list of pixels. */
module Frames {
  import opened Arith
  import opened Pixels

  /** The row count of `range(factor)`: a factor below one gives none. */
  function Times(factor: int): (k: nat)
    ensures factor >= 0 ==> k == factor
    ensures factor < 0 ==> k == 0
  {
    if factor < 0 then 0 else factor
  }

  /** `x`, `factor` times over. */
  function Repeat<T>(x: T, factor: int): (r: seq<T>)
    ensures |r| == Times(factor)
    ensures forall j :: 0 <= j < |r| ==> r[j] == x
    decreases Times(factor)
  {
    if factor <= 0 then [] else [x] + Repeat(x, factor - 1)
  }

  /** A row with every pixel written `factor` times in place. */
  function ScaleRow<T>(row: seq<T>, factor: int): (r: seq<T>)
    ensures |r| == |row| * Times(factor)
  {
    if |row| == 0 then [] else Repeat(row[0], factor) + ScaleRow(row[1..], factor)
  }

  /** A frame with every row widened and then written `factor` times. */
  function ScaleFrame<T>(frame: seq<seq<T>>, factor: int): (r: seq<seq<T>>)
    ensures |r| == |frame| * Times(factor)
  {
    if |frame| == 0 then [] else Repeat(ScaleRow(frame[0], factor), factor) + ScaleFrame(frame[1..], factor)
  }

  /** Every frame scaled up by `factor`; the number of frames is kept. */
  function ScaleUp<T>(frames: seq<seq<seq<T>>>, factor: int): (r: seq<seq<seq<T>>>)
    ensures |r| == |frames|
    ensures forall n :: 0 <= n < |frames| ==> r[n] == ScaleFrame(frames[n], factor)
  {
    seq(|frames|, n requires 0 <= n < |frames| => ScaleFrame(frames[n], factor))
  }

  /** Copy `m` of pixel `q` of a row sits at `q * factor + m` once scaled. */
  lemma {:induction false} ScaleRowAt<T>(row: seq<T>, factor: int, q: int, m: int)
    requires 0 <= q < |row| && 0 <= m < factor
    ensures 0 <= q * factor + m < |ScaleRow(row, factor)|
    ensures ScaleRow(row, factor)[q * factor + m] == row[q]
  {
    MulSucc(q, factor);
    MulMono(q + 1, |row|, factor);
    var head := Repeat(row[0], factor);
    var tail := ScaleRow(row[1..], factor);
    assert ScaleRow(row, factor) == head + tail;
    if q > 0 {
      MulSucc(q - 1, factor);
      ScaleRowAt(row[1..], factor, q - 1, m);
      assert (head + tail)[q * factor + m] == tail[(q - 1) * factor + m];
    } else {
      assert (head + tail)[m] == head[m];
    }
  }

  /** Copy `m` of row `q` of a frame sits at `q * factor + m` once scaled. */
  lemma {:induction false} ScaleFrameAt<T>(frame: seq<seq<T>>, factor: int, q: int, m: int)
    requires 0 <= q < |frame| && 0 <= m < factor
    ensures 0 <= q * factor + m < |ScaleFrame(frame, factor)|
    ensures ScaleFrame(frame, factor)[q * factor + m] == ScaleRow(frame[q], factor)
  {
    MulSucc(q, factor);
    MulMono(q + 1, |frame|, factor);
    var head := Repeat(ScaleRow(frame[0], factor), factor);
    var tail := ScaleFrame(frame[1..], factor);
    assert ScaleFrame(frame, factor) == head + tail;
    if q > 0 {
      MulSucc(q - 1, factor);
      ScaleFrameAt(frame[1..], factor, q - 1, m);
      assert (head + tail)[q * factor + m] == tail[(q - 1) * factor + m];
    } else {
      assert (head + tail)[m] == head[m];
    }
  }

  /** Index `i` of a scaled sequence is copy `i % factor` of entry `i / factor`. */
  lemma SplitIndex(i: int, n: int, factor: int)
    requires factor >= 1 && 0 <= i < n * factor
    ensures 0 <= i / factor < n && 0 <= i % factor < factor
    ensures i == (i / factor) * factor + i % factor
  {
    DivBelow(i, n, factor);
  }

  /** Scaling by `factor` turns an h x w frame into an (h * factor) x
      (w * factor) frame whose pixel (i, j) is pixel (i / factor, j / factor)
      of the original. */
  lemma ScaledPixel<T>(frames: seq<seq<seq<T>>>, factor: int, n: int, i: int, j: int)
    requires factor >= 1 && 0 <= n < |frames| && 0 <= i < |frames[n]| * factor
    requires 0 <= j < |frames[n][i / factor]| * factor
    ensures i / factor < |frames[n]| && j / factor < |frames[n][i / factor]|
    ensures |ScaleUp(frames, factor)[n][i]| == |frames[n][i / factor]| * factor
    ensures ScaleUp(frames, factor)[n][i][j] == frames[n][i / factor][j / factor]
  {
    SplitIndex(i, |frames[n]|, factor);
    var row := frames[n][i / factor];
    ScaleFrameAt(frames[n], factor, i / factor, i % factor);
    SplitIndex(j, |row|, factor);
    ScaleRowAt(row, factor, j / factor, j % factor);
  }

  /** A factor below one leaves every frame with no rows. */
  lemma ScaleUpByNothing<T>(frames: seq<seq<seq<T>>>, factor: int)
    requires factor <= 0
    ensures forall n :: 0 <= n < |frames| ==> ScaleUp(frames, factor)[n] == []
  {
  }

  /** Every `factor`-th row and every `factor`-th pixel of a frame. */
  function Downsample<T>(frame: seq<seq<T>>, factor: int): (r: seq<seq<T>>)
    requires factor >= 1
    requires forall i :: 0 <= i < |frame| ==> |frame[i]| % factor == 0
    requires |frame| % factor == 0
    ensures |r| == |frame| / factor
  {
    seq(|frame| / factor, i requires 0 <= i < |frame| / factor =>
      assert i * factor < |frame| by { DivMulBound(i, |frame|, factor); }
      seq(|frame[i * factor]| / factor, j requires 0 <= j < |frame[i * factor]| / factor =>
        DivMulBound(j, |frame[i * factor]|, factor);
        frame[i * factor][j * factor]))
  }

  /** Keeping every `factor`-th row and pixel undoes scaling up. */
  lemma DownsampleScaleFrame<T>(frame: seq<seq<T>>, factor: int)
    requires factor >= 1
    ensures var s := ScaleFrame(frame, factor);
            && (forall i :: 0 <= i < |s| ==> |s[i]| % factor == 0)
            && |s| % factor == 0
            && Downsample(s, factor) == frame
  {
    var s := ScaleFrame(frame, factor);
    MulDiv(|frame|, factor);
    forall i | 0 <= i < |s| ensures |s[i]| % factor == 0 {
      SplitIndex(i, |frame|, factor);
      ScaleFrameAt(frame, factor, i / factor, i % factor);
      MulDiv(|frame[i / factor]|, factor);
    }
    var d := Downsample(s, factor);
    forall i | 0 <= i < |frame| ensures d[i] == frame[i] {
      ScaleFrameAt(frame, factor, i, 0);
      MulDiv(|frame[i]|, factor);
      forall j | 0 <= j < |frame[i]| ensures d[i][j] == frame[i][j] {
        ScaleRowAt(frame[i], factor, j, 0);
      }
    }
  }

  /** Scaling by one changes nothing. */
  lemma ScaleUpByOne<T>(frames: seq<seq<seq<T>>>)
    ensures ScaleUp(frames, 1) == frames
  {
    forall n | 0 <= n < |frames| ensures ScaleFrame(frames[n], 1) == frames[n] {
      ScaleFrameByOne(frames[n]);
    }
  }

  lemma {:induction false} ScaleFrameByOne<T>(frame: seq<seq<T>>)
    ensures ScaleFrame(frame, 1) == frame
  {
    forall i | 0 <= i < |frame| ensures ScaleFrame(frame, 1)[i] == frame[i] {
      ScaleFrameAt(frame, 1, i, 0);
      ScaleRowByOne(frame[i]);
    }
  }

  lemma {:induction false} ScaleRowByOne<T>(row: seq<T>)
    ensures ScaleRow(row, 1) == row
  {
    forall j | 0 <= j < |row| ensures ScaleRow(row, 1)[j] == row[j] {
      ScaleRowAt(row, 1, j, 0);
    }
  }

  /** An RGB colour triple. */
  datatype Rgb = Rgb(red: int, green: int, blue: int)

  const Black: Rgb := Rgb(0, 0, 0)
  const White: Rgb := Rgb(Greyscale, Greyscale, Greyscale)

  /** The colour of one binary pixel: 0 is black and anything else white. */
  function PixelColour(pixel: int): Rgb
  {
    if pixel == 0 then Black else White
  }

  /** Every pixel of every frame mapped to black or white; the number of
      frames, the rows per frame and the pixels per row are kept. */
  function Binary2Rgb(data: seq<seq<seq<int>>>): (rgb: seq<seq<seq<Rgb>>>)
    ensures |rgb| == |data|
    ensures forall n :: 0 <= n < |data| ==> |rgb[n]| == |data[n]|
    ensures forall n, i :: 0 <= n < |data| && 0 <= i < |data[n]| ==> |rgb[n][i]| == |data[n][i]|
    ensures forall n, i, j :: 0 <= n < |data| && 0 <= i < |data[n]| && 0 <= j < |data[n][i]| ==>
              (rgb[n][i][j] == Black <==> data[n][i][j] == 0) &&
              (rgb[n][i][j] == White <==> data[n][i][j] != 0)
  {
    seq(|data|, n requires 0 <= n < |data| =>
      seq(|data[n]|, i requires 0 <= i < |data[n]| =>
        seq(|data[n][i]|, j requires 0 <= j < |data[n][i]| => PixelColour(data[n][i][j]))))
  }

  /** The binary pixel a black or white colour stands for. */
  function ColourPixel(c: Rgb): int
  {
    if c == Black then 0 else 1
  }

  /** Every colour mapped back to a binary pixel. */
  function Rgb2Binary(rgb: seq<seq<seq<Rgb>>>): (data: seq<seq<seq<int>>>)
    ensures |data| == |rgb|
  {
    seq(|rgb|, n requires 0 <= n < |rgb| =>
      seq(|rgb[n]|, i requires 0 <= i < |rgb[n]| =>
        seq(|rgb[n][i]|, j requires 0 <= j < |rgb[n][i]| => ColourPixel(rgb[n][i][j]))))
  }

  /** Frames whose every pixel is 0 or 1. */
  predicate BinaryFrames(data: seq<seq<seq<int>>>)
  {
    forall n, i, j :: 0 <= n < |data| && 0 <= i < |data[n]| && 0 <= j < |data[n][i]| ==>
      data[n][i][j] == 0 || data[n][i][j] == 1
  }

  /** Colouring loses nothing on binary frames: mapping back gives them again. */
  lemma Binary2RgbRoundTrip(data: seq<seq<seq<int>>>)
    requires BinaryFrames(data)
    ensures Rgb2Binary(Binary2Rgb(data)) == data
  {
    var back := Rgb2Binary(Binary2Rgb(data));
    forall n | 0 <= n < |data| ensures back[n] == data[n] {
      forall i | 0 <= i < |data[n]| ensures back[n][i] == data[n][i] {
      }
    }
  }

  /** The frame rate when none is given. */
  const DefaultFps: real := 24.0

  /** The scale factor of the video's own scaling when none is given. */
  const DefaultFactor: int := 2

  /** A video: file name, frame rate, frames, and the frame size the writer
      is opened with. */
  datatype Video<P> = Video(filename: string, fps: real, data: seq<seq<seq<P>>>, height: nat, width: nat)

  /** A new video. Its size is read off the first frame: its row count, and
      the length of its first row; so there must be such a row. */
  function NewVideo<P>(filename: string, data: seq<seq<seq<P>>>, fps: real): (v: Video<P>)
    requires |data| > 0 && |data[0]| > 0
    ensures v.filename == filename && v.fps == fps && v.data == data
    ensures v.height == |data[0]| && v.width == |data[0][0]|
    ensures SizeMatches(v)
  {
    Video(filename, fps, data, |data[0]|, |data[0][0]|)
  }

  /** The recorded size is that of the first frame and its first row. */
  predicate SizeMatches<P>(v: Video<P>)
  {
    |v.data| > 0 && |v.data[0]| > 0 && v.height == |v.data[0]| && v.width == |v.data[0][0]|
  }

  /** The video's own scaling, as the original writes it: only the frames
      are replaced, so the recorded size is left as it was. */
  function VideoScaleUp<P>(v: Video<P>, factor: int): (r: Video<P>)
    ensures r.data == ScaleUp(v.data, factor)
    ensures r.filename == v.filename && r.fps == v.fps && r.height == v.height && r.width == v.width
  {
    v.(data := ScaleUp(v.data, factor))
  }

  /** Scaling a one-pixel video by two leaves the recorded size at 1 x 1 while
      the frames are 2 x 2, so the writer would be opened at the wrong size. */
  lemma VideoScaleUpLeavesStaleSize()
    ensures var v := NewVideo("out.mp4", [[[7]]], DefaultFps);
            && SizeMatches(v)
            && !SizeMatches(VideoScaleUp(v, DefaultFactor))
  {
    var v := NewVideo("out.mp4", [[[7]]], DefaultFps);
    var r := VideoScaleUp(v, DefaultFactor);
    ScaledPixel(v.data, DefaultFactor, 0, 0, 0);
    assert |r.data[0]| == 2;
  }

  /** The video's own scaling with the recorded size scaled along with the
      frames. */
  function VideoScaleUpResized<P>(v: Video<P>, factor: int): (r: Video<P>)
    ensures r.data == ScaleUp(v.data, factor)
    ensures r.filename == v.filename && r.fps == v.fps
    ensures factor >= 1 && SizeMatches(v) ==> SizeMatches(r)
  {
    var r := Video(v.filename, v.fps, ScaleUp(v.data, factor), v.height * Times(factor), v.width * Times(factor));
    if factor >= 1 && SizeMatches(v) then
      ScaleFrameAt(v.data[0], factor, 0, 0);
      r
    else
      r
  }

  /** The video's own colouring: only the frames are replaced. */
  function VideoBinary2Rgb(v: Video<int>): (r: Video<Rgb>)
    ensures r.data == Binary2Rgb(v.data)
    ensures r.filename == v.filename && r.fps == v.fps && r.height == v.height && r.width == v.width
    ensures SizeMatches(v) ==> SizeMatches(r)
  {
    Video(v.filename, v.fps, Binary2Rgb(v.data), v.height, v.width)
  }
}
