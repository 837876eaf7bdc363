/**
 * The renderer: global minimum and maximum of the magnitude grid, the
 * normalisation of each magnitude to an intensity, the fixed colour transfer
 * function with Rust's saturating float-to-u8 cast, and the loop that emits
 * one coloured point per (frame, bin) cell.
 *
 * f32 values are modelled as reals plus NaN; rounding and infinities are not
 * modelled. Drawing a point is modelled as appending it to the list of
 * emitted points.
 */
module Render {

  /** The largest finite f32, 2^128 - 2^104. */
  const F32_MAX: real := 340282346638528859811704183484516925440.0
  /** The most negative finite f32. */
  const F32_MIN: real := -F32_MAX

  type u8 = n: int | 0 <= n < 256

  /** An f32 value: a finite number or NaN. */
  datatype Float = Num(value: real) | NaN

  /** A colour with three 8-bit channels. */
  datatype Rgb = Rgb(r: u8, g: u8, b: u8)

  /** A point drawn at (frame index, bin index) with a colour. */
  datatype Point = Point(x: nat, y: nat, color: Rgb)

  // ----- The flattened grid and the two folds -----

  /** All values of the grid, frame by frame, bin by bin. */
  function Flatten(grid: seq<seq<real>>): seq<real>
  {
    if grid == [] then [] else Flatten(grid[..|grid| - 1]) + grid[|grid| - 1]
  }

  /** The value of cell (x, y) sits in the flattened grid after the values of all earlier frames. */
  lemma {:induction false} FlattenCell(grid: seq<seq<real>>, x: nat, y: nat)
    requires x < |grid| && y < |grid[x]|
    ensures |Flatten(grid[..x])| + y < |Flatten(grid)|
    ensures Flatten(grid)[|Flatten(grid[..x])| + y] == grid[x][y]
  {
    var n := |grid| - 1;
    if x == n {
      assert grid[..x] == grid[..n];
    } else {
      var front := grid[..n];
      FlattenCell(front, x, y);
      assert front[..x] == grid[..x];
    }
  }

  /** Every value of the flattened grid is the value of some cell. */
  lemma {:induction false} FlattenMember(grid: seq<seq<real>>, v: real)
    requires v in Flatten(grid)
    ensures exists x, y :: 0 <= x < |grid| && 0 <= y < |grid[x]| && grid[x][y] == v
  {
    var n := |grid| - 1;
    var front := grid[..n];
    if v in Flatten(front) {
      FlattenMember(front, v);
      var x, y :| 0 <= x < |front| && 0 <= y < |front[x]| && front[x][y] == v;
      assert grid[x][y] == v;
    } else {
      var k :| 0 <= k < |grid[n]| && grid[n][k] == v;
    }
  }

  /** The flattened grid is empty exactly when every frame is empty. */
  lemma {:induction false} FlattenEmpty(grid: seq<seq<real>>)
    ensures Flatten(grid) == [] <==> forall x :: 0 <= x < |grid| ==> grid[x] == []
  {
    if grid != [] {
      var n := |grid| - 1;
      FlattenEmpty(grid[..n]);
      assert forall x :: 0 <= x < n ==> grid[..n][x] == grid[x];
    }
  }

  /** f32::max on finite values. */
  function Max(a: real, b: real): real
  {
    if a < b then b else a
  }

  /** f32::min on finite values. */
  function Min(a: real, b: real): real
  {
    if b < a then b else a
  }

  /** `fold(acc, f32::max)` over a sequence, first element first. */
  function FoldMax(acc: real, s: seq<real>): real
    decreases |s|
  {
    if s == [] then acc else FoldMax(Max(acc, s[0]), s[1..])
  }

  /** `fold(acc, f32::min)` over a sequence, first element first. */
  function FoldMin(acc: real, s: seq<real>): real
    decreases |s|
  {
    if s == [] then acc else FoldMin(Min(acc, s[0]), s[1..])
  }

  /** The max-fold bounds the seed and every element, and is one of them. */
  lemma {:induction false} FoldMaxBounds(acc: real, s: seq<real>)
    ensures FoldMax(acc, s) >= acc
    ensures forall k :: 0 <= k < |s| ==> s[k] <= FoldMax(acc, s)
    ensures FoldMax(acc, s) == acc || FoldMax(acc, s) in s
    decreases |s|
  {
    if s != [] {
      FoldMaxBounds(Max(acc, s[0]), s[1..]);
      assert forall k :: 1 <= k < |s| ==> s[k] == s[1..][k - 1];
    }
  }

  /** The min-fold is below the seed and every element, and is one of them. */
  lemma {:induction false} FoldMinBounds(acc: real, s: seq<real>)
    ensures FoldMin(acc, s) <= acc
    ensures forall k :: 0 <= k < |s| ==> FoldMin(acc, s) <= s[k]
    ensures FoldMin(acc, s) == acc || FoldMin(acc, s) in s
    decreases |s|
  {
    if s != [] {
      FoldMinBounds(Min(acc, s[0]), s[1..]);
      assert forall k :: 1 <= k < |s| ==> s[k] == s[1..][k - 1];
    }
  }

  /** Every cell's value occurs in the flattened grid. */
  lemma FlattenCells(grid: seq<seq<real>>)
    ensures forall x, y :: 0 <= x < |grid| && 0 <= y < |grid[x]| ==> grid[x][y] in Flatten(grid)
  {
    forall x, y | 0 <= x < |grid| && 0 <= y < |grid[x]|
      ensures grid[x][y] in Flatten(grid)
    {
      FlattenCell(grid, x, y);
    }
  }

  /**
   * max_value: the fold of f32::max over every magnitude, seeded with f32::MIN.
   * It is at least every magnitude; it is a magnitude of the grid unless it is
   * still the seed, which it is when the grid holds no value.
   */
  function GridMax(grid: seq<seq<real>>): (hi: real)
    ensures hi >= F32_MIN
    ensures forall x, y :: 0 <= x < |grid| && 0 <= y < |grid[x]| ==> grid[x][y] <= hi
    ensures hi == F32_MIN || exists x, y :: 0 <= x < |grid| && 0 <= y < |grid[x]| && grid[x][y] == hi
    ensures (forall x :: 0 <= x < |grid| ==> grid[x] == []) ==> hi == F32_MIN
  {
    FoldMaxBounds(F32_MIN, Flatten(grid));
    FlattenCells(grid);
    FlattenEmpty(grid);
    var hi := FoldMax(F32_MIN, Flatten(grid));
    if hi in Flatten(grid) then FlattenMember(grid, hi); hi else hi
  }

  /**
   * min_value: the fold of f32::min over every magnitude, seeded with f32::MAX.
   * It is at most every magnitude; it is a magnitude of the grid unless it is
   * still the seed, which it is when the grid holds no value.
   */
  function GridMin(grid: seq<seq<real>>): (lo: real)
    ensures lo <= F32_MAX
    ensures forall x, y :: 0 <= x < |grid| && 0 <= y < |grid[x]| ==> lo <= grid[x][y]
    ensures lo == F32_MAX || exists x, y :: 0 <= x < |grid| && 0 <= y < |grid[x]| && grid[x][y] == lo
    ensures (forall x :: 0 <= x < |grid| ==> grid[x] == []) ==> lo == F32_MAX
  {
    FoldMinBounds(F32_MAX, Flatten(grid));
    FlattenCells(grid);
    FlattenEmpty(grid);
    var lo := FoldMin(F32_MAX, Flatten(grid));
    if lo in Flatten(grid) then FlattenMember(grid, lo); lo else lo
  }

  // ----- Normalisation -----

  /**
   * `(magnitude - min_value) / (max_value - min_value)` in f32. The only
   * division by zero modelled is 0 / 0, which gives NaN: when min and max are
   * the grid's own, max == min forces magnitude == min.
   */
  function Intensity(m: real, lo: real, hi: real): (i: Float)
    requires hi != lo || m == lo
    ensures i.NaN? <==> hi == lo
    ensures lo < hi && lo <= m <= hi ==> i.Num? && 0.0 <= i.value <= 1.0
    ensures lo < hi ==> (i == Num(0.0) <==> m == lo) && (i == Num(1.0) <==> m == hi)
  {
    if hi == lo then NaN
    else
      QuotientZeroOne(m - lo, hi - lo);
      Num((m - lo) / (hi - lo))
  }

  /** A quotient is 0 only for a zero dividend and 1 only for a dividend equal to the divisor. */
  lemma QuotientZeroOne(a: real, d: real)
    requires d != 0.0
    ensures a / d == 0.0 <==> a == 0.0
    ensures a / d == 1.0 <==> a == d
  {
  }

  /** Intensity is non-decreasing in the magnitude. */
  lemma IntensityMonotone(m1: real, m2: real, lo: real, hi: real)
    requires lo < hi && m1 <= m2
    ensures Intensity(m1, lo, hi).value <= Intensity(m2, lo, hi).value
  {
    var d := hi - lo;
    assert (m2 - lo) / d - (m1 - lo) / d == (m2 - m1) / d;
  }

  // ----- Colour transfer -----

  /** Conversion of a real to an integer by truncation toward zero. */
  function Trunc(x: real): int
  {
    if x >= 0.0 then x.Floor else -((-x).Floor)
  }

  /**
   * Rust's `x as u8` for a finite x: truncate toward zero, then saturate to
   * [0, 255].
   */
  function SaturatingCast(x: real): (n: u8)
    ensures x < 1.0 ==> n == 0
    ensures 0.0 <= x < 256.0 ==> n as real <= x < n as real + 1.0
    ensures x >= 255.0 ==> n == 255
  {
    var t := Trunc(x);
    if t < 0 then 0 else if t > 255 then 255 else t
  }

  /** Rust's `as u8` on an f32: NaN becomes 0. */
  function CastU8(f: Float): u8
  {
    match f
    case NaN => 0
    case Num(v) => SaturatingCast(v)
  }

  /** One channel before the cast: `base - k * intensity * 255.0`; NaN stays NaN. */
  function Channel(base: real, k: real, intensity: Float): Float
  {
    match intensity
    case NaN => NaN
    case Num(v) => Num(base - k * v * 255.0)
  }

  /** intensity_to_color: the three channels of the fixed transfer function. */
  function IntensityToColor(intensity: Float): Rgb
  {
    Rgb(CastU8(Channel(92.0, 5.0, intensity)),
        CastU8(Channel(22.0, 3.0, intensity)),
        CastU8(Channel(127.0, 10.0, intensity)))
  }

  /** The saturating cast is monotone. */
  lemma SaturatingCastMonotone(x: real, y: real)
    requires x <= y
    ensures SaturatingCast(x) <= SaturatingCast(y)
  {
  }

  /** Whole numbers in [0, 255] are fixed points of the saturating cast. */
  lemma SaturatingCastFixed(n: u8)
    ensures SaturatingCast(n as real) == n
  {
  }

  /** Intensity 0 gives the base colour (92, 22, 127). */
  lemma ColorAtZero()
    ensures IntensityToColor(Num(0.0)) == Rgb(92, 22, 127)
  {
  }

  /** Intensity 1 drives every channel negative (red to -1183), so it saturates to black. */
  lemma ColorAtOne()
    ensures IntensityToColor(Num(1.0)) == Rgb(0, 0, 0)
  {
  }

  /** A NaN intensity casts every channel to 0. */
  lemma ColorOfNaN()
    ensures IntensityToColor(NaN) == Rgb(0, 0, 0)
  {
  }

  /** Each channel is non-increasing in the intensity. */
  lemma ColorMonotone(i: real, j: real)
    requires i <= j
    ensures IntensityToColor(Num(j)).r <= IntensityToColor(Num(i)).r
    ensures IntensityToColor(Num(j)).g <= IntensityToColor(Num(i)).g
    ensures IntensityToColor(Num(j)).b <= IntensityToColor(Num(i)).b
  {
  }

  /**
   * The transfer function is black exactly above intensity 91/1275 (about
   * 0.071): the red channel is the last to reach 0.
   */
  lemma BlackExactlyAbove(i: real)
    ensures IntensityToColor(Num(i)) == Rgb(0, 0, 0) <==> i > 91.0 / 1275.0
  {
  }

  /**
   * Against the grid's own min_value and max_value, a cell's intensity lies in
   * [0, 1] when max_value > min_value; when they are equal (a flat grid) it is
   * NaN and the cell is drawn black.
   */
  lemma CellIntensity(grid: seq<seq<real>>, x: nat, y: nat)
    requires x < |grid| && y < |grid[x]|
    ensures GridMin(grid) <= GridMax(grid)
    ensures GridMin(grid) < GridMax(grid) ==>
              Intensity(grid[x][y], GridMin(grid), GridMax(grid)).Num? &&
              0.0 <= Intensity(grid[x][y], GridMin(grid), GridMax(grid)).value <= 1.0
    ensures GridMin(grid) == GridMax(grid) ==>
              IntensityToColor(Intensity(grid[x][y], GridMin(grid), GridMax(grid))) == Rgb(0, 0, 0)
  {
  }

  // ----- The drawing loop -----

  /** Every cell of the grid can be normalised against lo and hi (no x / 0 with x != 0). */
  ghost predicate Normalisable(grid: seq<seq<real>>, lo: real, hi: real)
  {
    forall x, y :: 0 <= x < |grid| && 0 <= y < |grid[x]| ==> hi != lo || grid[x][y] == lo
  }

  /** The colour of one magnitude. */
  function CellColor(m: real, lo: real, hi: real): Rgb
    requires hi != lo || m == lo
  {
    IntensityToColor(Intensity(m, lo, hi))
  }

  /** The points of frame x, bin by bin. */
  function RowPoints(x: nat, row: seq<real>, lo: real, hi: real): seq<Point>
    requires forall y :: 0 <= y < |row| ==> hi != lo || row[y] == lo
  {
    seq(|row|, y requires 0 <= y < |row| => Point(x, y, CellColor(row[y], lo, hi)))
  }

  /** The points of the whole grid, frame by frame. */
  function Plot(grid: seq<seq<real>>, lo: real, hi: real): seq<Point>
    requires Normalisable(grid, lo, hi)
  {
    if grid == [] then []
    else Plot(grid[..|grid| - 1], lo, hi) + RowPoints(|grid| - 1, grid[|grid| - 1], lo, hi)
  }

  /** One point per value of the grid. */
  lemma {:induction false} PlotLength(grid: seq<seq<real>>, lo: real, hi: real)
    requires Normalisable(grid, lo, hi)
    ensures |Plot(grid, lo, hi)| == |Flatten(grid)|
  {
    if grid != [] {
      PlotLength(grid[..|grid| - 1], lo, hi);
    }
  }

  /**
   * Cell (x, y) is drawn at its own coordinates with the colour of its
   * magnitude, after every cell of earlier frames and earlier bins.
   */
  lemma {:induction false} PlotCell(grid: seq<seq<real>>, lo: real, hi: real, x: nat, y: nat)
    requires Normalisable(grid, lo, hi)
    requires x < |grid| && y < |grid[x]|
    ensures |Flatten(grid[..x])| + y < |Plot(grid, lo, hi)|
    ensures Plot(grid, lo, hi)[|Flatten(grid[..x])| + y] == Point(x, y, CellColor(grid[x][y], lo, hi))
  {
    var n := |grid| - 1;
    var front := grid[..n];
    PlotLength(front, lo, hi);
    PlotLength(grid, lo, hi);
    FlattenCell(grid, x, y);
    if x == n {
      assert grid[..x] == front;
    } else {
      PlotCell(front, lo, hi, x, y);
      assert front[..x] == grid[..x];
    }
  }

  /**
   * The drawing loop of save_spectrogram_image: computes max_value and
   * min_value, then emits one point per (frame, bin) in order, including bins
   * at or above WINDOW_SIZE / 2 that lie outside the chart's y-range.
   */
  method DrawSpectrogram(spectrogram: seq<seq<real>>) returns (points: seq<Point>)
    ensures Normalisable(spectrogram, GridMin(spectrogram), GridMax(spectrogram))
    ensures points == Plot(spectrogram, GridMin(spectrogram), GridMax(spectrogram))
    ensures |points| == |Flatten(spectrogram)|
  {
    var maxValue := GridMax(spectrogram);
    var minValue := GridMin(spectrogram);
    points := [];
    var x := 0;
    while x < |spectrogram|
      invariant 0 <= x <= |spectrogram|
      invariant points == Plot(spectrogram[..x], minValue, maxValue)
    {
      var spectrum := spectrogram[x];
      var y := 0;
      while y < |spectrum|
        invariant 0 <= y <= |spectrum|
        invariant points == Plot(spectrogram[..x], minValue, maxValue) + RowPoints(x, spectrum[..y], minValue, maxValue)
      {
        var intensity := Intensity(spectrum[y], minValue, maxValue);
        var color := IntensityToColor(intensity);
        points := points + [Point(x, y, color)];
        y := y + 1;
      }
      assert spectrum[..y] == spectrum;
      assert spectrogram[..x + 1][..x] == spectrogram[..x];
      x := x + 1;
    }
    assert spectrogram[..x] == spectrogram;
    PlotLength(spectrogram, minValue, maxValue);
  }
}
