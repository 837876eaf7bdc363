# audio_to_spec: a verified model of the spectrogram core

The program reads a mono WAV file, cuts the samples into overlapping windows of
`WINDOW_SIZE` = 1024 samples every `HOP_SIZE` = 512 samples, transforms each
window with a 1024-point forward FFT, and keeps the magnitude of every
transformed value. The result is a spectrogram: one spectrum per frame. It then
renders the spectrogram. It finds the global maximum and minimum magnitude,
normalises each magnitude to an intensity, maps the intensity to a colour with a
fixed transfer function, and draws one point per (frame, bin) cell.

This project models that core in Dafny:

- `stft.dfy`, module `Stft`, models `generate_spectrogram`. The method
  `GenerateSpectrogram` keeps the source's loop. It is proved against the
  function `Spectrogram`, which describes the frames of
  `(0..len - WINDOW_SIZE).step_by(HOP_SIZE)`. Lemmas give the closed forms: how
  many frames there are, which slice each frame comes from, and which windows
  are never produced. The FFT and the complex norm are parameters of type
  `Transform` and `Norm`. The model relies only on two facts about them: the
  transform keeps a 1024-entry buffer at 1024 entries (`PreservesLength`), and
  the norm is non-negative (`NonNegative`).
- `render.dfy`, module `Render`, models the renderer's arithmetic in
  `save_spectrogram_image` and `intensity_to_color`. It covers the two folds
  seeded with `f32::MIN` and `f32::MAX`, the intensity expression, Rust's
  saturating `as u8` cast, and the nested drawing loop. In the model the
  drawing loop is the method `DrawSpectrogram`, which returns the list of
  points it draws.

f32 values are modelled as reals, plus a `NaN` case (datatype `Float`). NaN is
the one non-finite value the renderer can produce: when `max_value ==
min_value`, every magnitude equals the minimum, and `0/0` is NaN.

The loop's exclusive bound skips the last full window. A buffer with room for
`floor((N - 1024) / 512) + 1` windows on the hop grid gives
`ceil((N - 1024) / 512)` frames, and one shorter than 1024 samples underflows.
The model follows the code (`GenerateSpectrogram`, `FrameCountExact`). A loop
that takes every full window is modelled beside it
(`GenerateSpectrogramGuarded`); see "## Findings".

## Model

| member | source | states |
|---|---|---|
| Stft.GenerateSpectrogram | src/main.rs:18-31 | The result is exactly `Spectrogram(audio)`. It has `FrameCount(len)` frames. Frame `i` is the spectrum of `audio[512*i .. 512*i + 1024]`, a slice that ends strictly before the end of the buffer. Frames are in order of increasing start. Each frame has 1024 entries when the transform preserves length. Every entry is non-negative when the norm is. The caller must supply at least 1024 samples. |
| Stft.Spectrum | src/main.rs:23-27 | One window gives 1024 magnitudes when the transform preserves length. Every magnitude is non-negative when the norm is. |
| Stft.FramesFromLength | src/main.rs:22 | `(start..bound).step_by(512)` yields `ceil((bound - start) / 512)` frames, and none when `start >= bound`. |
| Stft.FramesFromAt | src/main.rs:22-28 | Frame `i` of the stepped range comes from the window at `start + 512*i`, below `bound`. Nothing else is pushed, and frames come in order. |
| Stft.FramesFromNonNegative | src/main.rs:27 | With a non-negative norm, every magnitude of every frame is non-negative. |
| Stft.FrameCountExact | src/main.rs:22 | Frame `i` exists if and only if `512*i + 1024 < len`. Both directions are proved, so the starts are exactly the multiples of 512 whose window ends strictly before `len`. |
| Stft.LastWindowNeverProduced | src/main.rs:22-23 | No produced frame starts at `len - 1024`. Any frame at all implies `len > 1024`, so a 1024-sample buffer yields zero frames. |
| Stft.GuardedFrameCountExact | src/main.rs:22 | With the inclusive bound, frame `i` exists if and only if `512*i + 1024 <= len`. The count is `floor((len - 1024) / 512) + 1`, or 0 for a short buffer. |
| Stft.ExclusiveBoundDropsFinalWindow | src/main.rs:22 | The source's count is one less than the count of full windows exactly when `len - 1024` is a multiple of 512. Otherwise the two counts are equal. |
| Stft.GenerateSpectrogramGuarded | src/main.rs:18-31 | This is the loop with the inclusive bound `start + 1024 <= len`. It takes any input length and yields `GuardedFrameCount(len)` frames. Frame `i` is the spectrum of the window at `512*i`, with the same length and sign guarantees as above. |
| Render.FlattenCell | src/main.rs:46-47 | In the flattened grid (`iter().flatten()`), cell `(x, y)` sits at the number of values in frames before `x`, plus `y`. |
| Render.FlattenMember | src/main.rs:46-47 | Every value of the flattened grid is the value of some cell. |
| Render.FlattenEmpty | src/main.rs:46-47 | The flattened grid is empty if and only if every frame is empty. |
| Render.FoldMaxBounds | src/main.rs:46 | `fold(seed, max)` is at least the seed and every element, and equals the seed or one of the elements. |
| Render.FoldMinBounds | src/main.rs:47 | `fold(seed, min)` is at most the seed and every element, and equals the seed or one of the elements. |
| Render.GridMax | src/main.rs:46 | `max_value` is at least every magnitude and at least `f32::MIN`. It is a magnitude of the grid unless it is still the seed. It is the seed `f32::MIN` when the grid holds no value. |
| Render.GridMin | src/main.rs:47 | `min_value` is at most every magnitude and at most `f32::MAX`. It is a magnitude of the grid unless it is still the seed. It is the seed `f32::MAX` when the grid holds no value. |
| Render.Intensity | src/main.rs:72 | The intensity is NaN if and only if `max == min`. For `min < max` and a magnitude in `[min, max]`, it lies in `[0, 1]`. It is 0 exactly at `min` and 1 exactly at `max`. |
| Render.IntensityMonotone | src/main.rs:72 | For `min < max`, the intensity is non-decreasing in the magnitude. |
| Render.CellIntensity | src/main.rs:46-74 | Against the grid's own extremes, `min_value <= max_value` whenever a cell exists. Every cell's intensity is in `[0, 1]` when `max_value > min_value`. A flat grid draws every cell black. |
| Render.SaturatingCast | src/main.rs:37-39 | `as u8` truncates toward zero and saturates. Below 1 it gives 0. On `[0, 256)` it gives the integer part. From 255 up it gives 255. |
| Render.SaturatingCastMonotone | src/main.rs:37-39 | The saturating cast is monotone. |
| Render.SaturatingCastFixed | src/main.rs:37-39 | Every whole number in `[0, 255]` is a fixed point of the cast. |
| Render.ColorAtZero | src/main.rs:33-41 | Intensity 0 gives the colour (92, 22, 127). |
| Render.ColorAtOne | src/main.rs:33-41 | Intensity 1 gives (0, 0, 0). Every channel is negative before the cast (red is -1183) and saturates to 0. |
| Render.ColorOfNaN | src/main.rs:33-41 | A NaN intensity gives (0, 0, 0), because `NaN as u8` is 0. |
| Render.ColorMonotone | src/main.rs:33-41 | Each of the three channels is non-increasing in the intensity. |
| Render.BlackExactlyAbove | src/main.rs:33-41 | The colour is black if and only if the intensity is above 91/1275 (about 0.071). Red is the last channel to reach 0. |
| Render.PlotLength | src/main.rs:70-82 | The drawing loop draws exactly one point per value of the grid. |
| Render.PlotCell | src/main.rs:70-82 | Cell `(x, y)` is drawn at `(x, y)` with the colour of its magnitude. It comes after every cell of earlier frames and every earlier bin of its frame. Bins at or above 512 are included. |
| Render.DrawSpectrogram | src/main.rs:46-82 | The points drawn are exactly `Plot(grid, min_value, max_value)`, computed with the grid's own folds. Every cell can be normalised against them without a nonzero-over-zero division. There is one point per value. |

## Left out

- `read_audio_file` (WAV decoding through `hound`, the `i16` to `f32` scaling by `1 / i16::MAX`, and `unwrap` on each sample) is not modelled. Samples are given to the model as reals.
- The FFT planner, `fft.process` and `Complex::norm` are foreign numeric routines. They appear only as the parameters `fft` and `norm`. The model relies only on `PreservesLength` and `NonNegative` for them. The in-place update of the complex buffer is modelled by reassigning a sequence, so aliasing is not modelled.
- All `plotters` work is left out: the bitmap backend, the white fill, the chart builder with its margins and label areas, mesh and axis labels, `present()`, and the errors these propagate with `?`. A drawn point is modelled as an entry `Point(x, y, colour)` in the list the drawing loop returns. The chart's y-range `0..512`, and the clipping of points outside it, belong to the library.
- IEEE-754 behaviour is not modelled: rounding in the folds, in the division and in the colour arithmetic; infinities; and how `f32::max` and `f32::min` treat NaN. Values are reals. The one NaN the renderer can reach, `0/0` for a flat grid, is modelled.
- Render.Intensity: does not model division of a nonzero value by zero (an infinity in f32). It requires `max != min` or `magnitude == min`, which always holds for the grid's own extremes (`DrawSpectrogram`'s first ensures).
- Stft.GenerateSpectrogram: requires at least 1024 samples, because below that the source's unsigned `len - WINDOW_SIZE` underflows and the program panics. The panic is not modelled as a value.
- `main` (fixed paths, printing, `unwrap`) is not modelled.

## Findings

| source | as written | input that shows it | evidently intended | confidence | as-written member | corrected member |
|---|---|---|---|---|---|---|
| src/main.rs:22 | `(0..len - WINDOW_SIZE).step_by(HOP_SIZE)` excludes the start `len - 1024`. That gives `ceil((len - 1024) / 512)` frames, and the subtraction underflows for `len < 1024`. | 1024 samples hold one full window but give zero frames. 1536 samples hold windows at 0 and 512 but give one frame. 1000 samples make the subtraction underflow. | One frame per start with `start + 1024 <= len`, which is `floor((len - 1024) / 512) + 1` frames. A buffer shorter than one window gives an empty spectrogram. | medium, not executed | Stft.ExclusiveBoundDropsFinalWindow | Stft.GenerateSpectrogramGuarded |
