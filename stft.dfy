/**
 * The spectrogram engine: slicing a mono sample buffer into overlapping
 * windows of WINDOW_SIZE samples taken every HOP_SIZE samples, transforming
 * each window and keeping the magnitude of every transformed value.
 *
 * The forward transform (the planned 1024-point FFT) and the complex norm
 * are parameters: their numerics are not modelled, only the facts the
 * framing relies on (the transform keeps the buffer length, the norm is
 * non-negative).
 */
module Stft {

  const WINDOW_SIZE: nat := 1024
  const HOP_SIZE: nat := 512

  /** A complex value; a real sample is lifted to one with a zero imaginary part. */
  datatype Complex = Complex(re: real, im: real)

  /** The forward transform applied to one buffer. */
  type Transform = seq<Complex> -> seq<Complex>

  /** The magnitude (Euclidean norm) of one complex value. */
  type Norm = Complex -> real

  /** The transform works in place on a WINDOW_SIZE buffer, so it cannot change its length. */
  ghost predicate PreservesLength(fft: Transform)
  {
    forall buf: seq<Complex> :: |buf| == WINDOW_SIZE ==> |fft(buf)| == WINDOW_SIZE
  }

  /** A norm never yields a negative magnitude. */
  ghost predicate NonNegative(norm: Norm)
  {
    forall c: Complex :: norm(c) >= 0.0
  }

  /** Each sample becomes a complex value with zero imaginary part. */
  function Lift(window: seq<real>): seq<Complex>
  {
    seq(|window|, k requires 0 <= k < |window| => Complex(window[k], 0.0))
  }

  /** The element-wise magnitudes of a transformed buffer. */
  function Magnitudes(buffer: seq<Complex>, norm: Norm): seq<real>
  {
    seq(|buffer|, k requires 0 <= k < |buffer| => norm(buffer[k]))
  }

  /** The spectrum of one window: lift, transform, take magnitudes. */
  function Spectrum(window: seq<real>, fft: Transform, norm: Norm): (spectrum: seq<real>)
    ensures |window| == WINDOW_SIZE && PreservesLength(fft) ==> |spectrum| == WINDOW_SIZE
    ensures NonNegative(norm) ==> forall k :: 0 <= k < |spectrum| ==> spectrum[k] >= 0.0
  {
    Magnitudes(fft(Lift(window)), norm)
  }

  /**
   * The spectra of the windows starting at start, start + HOP_SIZE, ...
   * strictly below bound: the frames of `(start..bound).step_by(HOP_SIZE)`.
   * Every such window fits in the buffer because bound <= |audio| - WINDOW_SIZE + 1
   * (or there is no start at all).
   */
  function FramesFrom(audio: seq<real>, start: nat, bound: nat, fft: Transform, norm: Norm): seq<seq<real>>
    requires bound == 0 || bound + WINDOW_SIZE <= |audio| + 1
    decreases bound - start
  {
    if start >= bound then []
    else [Spectrum(audio[start..start + WINDOW_SIZE], fft, norm)] + FramesFrom(audio, start + HOP_SIZE, bound, fft, norm)
  }

  /** The spectrogram as the source computes it: starts range over `0..len - WINDOW_SIZE`, exclusive. */
  function Spectrogram(audio: seq<real>, fft: Transform, norm: Norm): seq<seq<real>>
    requires |audio| >= WINDOW_SIZE
  {
    FramesFrom(audio, 0, |audio| - WINDOW_SIZE, fft, norm)
  }

  /** The number of values `(start..bound).step_by(HOP_SIZE)` yields. */
  function StepCount(start: nat, bound: nat): nat
  {
    if start >= bound then 0 else (bound - start + HOP_SIZE - 1) / HOP_SIZE
  }

  /** The number of frames the source produces: the ceiling of (len - WINDOW_SIZE) / HOP_SIZE. */
  function FrameCount(len: nat): nat
    requires len >= WINDOW_SIZE
  {
    StepCount(0, len - WINDOW_SIZE)
  }

  lemma {:induction false} FramesFromLength(audio: seq<real>, start: nat, bound: nat, fft: Transform, norm: Norm)
    requires bound == 0 || bound + WINDOW_SIZE <= |audio| + 1
    ensures |FramesFrom(audio, start, bound, fft, norm)| == StepCount(start, bound)
    decreases bound - start
  {
    if start < bound {
      FramesFromLength(audio, start + HOP_SIZE, bound, fft, norm);
    }
  }

  /** Frame i of FramesFrom is the spectrum of the window at start + i * HOP_SIZE, which lies below bound. */
  lemma {:induction false} FramesFromAt(audio: seq<real>, start: nat, bound: nat, fft: Transform, norm: Norm, i: nat)
    requires bound == 0 || bound + WINDOW_SIZE <= |audio| + 1
    requires i < |FramesFrom(audio, start, bound, fft, norm)|
    ensures start + i * HOP_SIZE < bound
    ensures FramesFrom(audio, start, bound, fft, norm)[i]
         == Spectrum(audio[start + i * HOP_SIZE .. start + i * HOP_SIZE + WINDOW_SIZE], fft, norm)
    decreases bound - start
  {
    if i > 0 {
      FramesFromAt(audio, start + HOP_SIZE, bound, fft, norm, i - 1);
      assert start + HOP_SIZE + (i - 1) * HOP_SIZE == start + i * HOP_SIZE;
    }
  }

  /** With a non-negative norm every magnitude of every frame is non-negative. */
  lemma {:induction false} FramesFromNonNegative(audio: seq<real>, start: nat, bound: nat, fft: Transform, norm: Norm)
    requires bound == 0 || bound + WINDOW_SIZE <= |audio| + 1
    requires NonNegative(norm)
    ensures forall i, k :: 0 <= i < |FramesFrom(audio, start, bound, fft, norm)| &&
                           0 <= k < |FramesFrom(audio, start, bound, fft, norm)[i]| ==>
                           FramesFrom(audio, start, bound, fft, norm)[i][k] >= 0.0
    decreases bound - start
  {
    if start < bound {
      FramesFromNonNegative(audio, start + HOP_SIZE, bound, fft, norm);
    }
  }

  /**
   * The frame starts are exactly the multiples of HOP_SIZE whose window ends
   * strictly before the end of the buffer: frame i exists if and only if
   * i * HOP_SIZE + WINDOW_SIZE < len.
   */
  lemma FrameCountExact(len: nat, i: nat)
    requires len >= WINDOW_SIZE
    ensures i < FrameCount(len) <==> i * HOP_SIZE + WINDOW_SIZE < len
  {
  }

  /**
   * Consequences for the source's range: a 1024-sample buffer gives no frame,
   * and the window that ends exactly at the end of the buffer is never produced.
   */
  lemma LastWindowNeverProduced(len: nat, i: nat)
    requires len >= WINDOW_SIZE
    requires i < FrameCount(len)
    ensures i * HOP_SIZE != len - WINDOW_SIZE
    ensures len > WINDOW_SIZE
  {
  }

  /**
   * generate_spectrogram: one spectrum per start of `(0..len - WINDOW_SIZE).step_by(HOP_SIZE)`,
   * in order of increasing start. The subtraction is on unsigned lengths, so the
   * buffer must hold at least one window.
   */
  method GenerateSpectrogram(audio: seq<real>, fft: Transform, norm: Norm) returns (spectrogram: seq<seq<real>>)
    requires |audio| >= WINDOW_SIZE
    ensures spectrogram == Spectrogram(audio, fft, norm)
    ensures |spectrogram| == FrameCount(|audio|)
    ensures forall i :: 0 <= i < |spectrogram| ==>
              i * HOP_SIZE + WINDOW_SIZE < |audio| &&
              spectrogram[i] == Spectrum(audio[i * HOP_SIZE .. i * HOP_SIZE + WINDOW_SIZE], fft, norm)
    ensures PreservesLength(fft) ==> forall i :: 0 <= i < |spectrogram| ==> |spectrogram[i]| == WINDOW_SIZE
    ensures NonNegative(norm) ==>
              forall i, k :: 0 <= i < |spectrogram| && 0 <= k < |spectrogram[i]| ==> spectrogram[i][k] >= 0.0
  {
    var bound := |audio| - WINDOW_SIZE;
    spectrogram := [];
    var start := 0;
    while start < bound
      invariant spectrogram + FramesFrom(audio, start, bound, fft, norm) == Spectrogram(audio, fft, norm)
    {
      var window := audio[start..start + WINDOW_SIZE];
      var buffer := Lift(window);
      buffer := fft(buffer);
      var magnitudes := Magnitudes(buffer, norm);
      spectrogram := spectrogram + [magnitudes];
      start := start + HOP_SIZE;
    }
    FramesFromLength(audio, 0, bound, fft, norm);
    if NonNegative(norm) {
      FramesFromNonNegative(audio, 0, bound, fft, norm);
    }
    forall i | 0 <= i < |spectrogram|
      ensures i * HOP_SIZE + WINDOW_SIZE < |audio|
      ensures spectrogram[i] == Spectrum(audio[i * HOP_SIZE .. i * HOP_SIZE + WINDOW_SIZE], fft, norm)
    {
      FramesFromAt(audio, 0, bound, fft, norm, i);
    }
  }

  // ----- The window range with an inclusive bound -----

  /**
   * The frames of every full window: starts range over `0..=len - WINDOW_SIZE`,
   * and a buffer shorter than one window gives no frame at all.
   */
  function SpectrogramGuarded(audio: seq<real>, fft: Transform, norm: Norm): seq<seq<real>>
  {
    FramesFrom(audio, 0, GuardedBound(|audio|), fft, norm)
  }

  /** One past the last start whose window fits: len - WINDOW_SIZE + 1, or 0 for a short buffer. */
  function GuardedBound(len: nat): (bound: nat)
    ensures bound == 0 || bound + WINDOW_SIZE <= len + 1
  {
    if len >= WINDOW_SIZE then len - WINDOW_SIZE + 1 else 0
  }

  /** floor((len - WINDOW_SIZE) / HOP_SIZE) + 1 frames, none for a short buffer. */
  function GuardedFrameCount(len: nat): nat
  {
    if len < WINDOW_SIZE then 0 else (len - WINDOW_SIZE) / HOP_SIZE + 1
  }

  /** With the inclusive bound, frame i exists if and only if its window fits: i * HOP_SIZE + WINDOW_SIZE <= len. */
  lemma GuardedFrameCountExact(len: nat, i: nat)
    ensures i < GuardedFrameCount(len) <==> i * HOP_SIZE + WINDOW_SIZE <= len
  {
  }

  /**
   * Where the exclusive bound loses a frame: exactly when len - WINDOW_SIZE is
   * a multiple of HOP_SIZE (for instance len == WINDOW_SIZE, one window and no frame).
   */
  lemma ExclusiveBoundDropsFinalWindow(len: nat)
    requires len >= WINDOW_SIZE
    ensures (len - WINDOW_SIZE) % HOP_SIZE == 0 ==> FrameCount(len) + 1 == GuardedFrameCount(len)
    ensures (len - WINDOW_SIZE) % HOP_SIZE != 0 ==> FrameCount(len) == GuardedFrameCount(len)
  {
  }

  /** generate_spectrogram with the loop bounded by `start + WINDOW_SIZE <= len`. */
  method GenerateSpectrogramGuarded(audio: seq<real>, fft: Transform, norm: Norm) returns (spectrogram: seq<seq<real>>)
    ensures spectrogram == SpectrogramGuarded(audio, fft, norm)
    ensures |spectrogram| == GuardedFrameCount(|audio|)
    ensures forall i :: 0 <= i < |spectrogram| ==>
              i * HOP_SIZE + WINDOW_SIZE <= |audio| &&
              spectrogram[i] == Spectrum(audio[i * HOP_SIZE .. i * HOP_SIZE + WINDOW_SIZE], fft, norm)
    ensures PreservesLength(fft) ==> forall i :: 0 <= i < |spectrogram| ==> |spectrogram[i]| == WINDOW_SIZE
    ensures NonNegative(norm) ==>
              forall i, k :: 0 <= i < |spectrogram| && 0 <= k < |spectrogram[i]| ==> spectrogram[i][k] >= 0.0
  {
    var bound := GuardedBound(|audio|);
    spectrogram := [];
    var start := 0;
    while start + WINDOW_SIZE <= |audio|
      invariant start + WINDOW_SIZE <= |audio| <==> start < bound
      invariant spectrogram + FramesFrom(audio, start, bound, fft, norm) == SpectrogramGuarded(audio, fft, norm)
      decreases |audio| - start
    {
      var window := audio[start..start + WINDOW_SIZE];
      var buffer := Lift(window);
      buffer := fft(buffer);
      var magnitudes := Magnitudes(buffer, norm);
      spectrogram := spectrogram + [magnitudes];
      start := start + HOP_SIZE;
    }
    FramesFromLength(audio, 0, bound, fft, norm);
    if NonNegative(norm) {
      FramesFromNonNegative(audio, 0, bound, fft, norm);
    }
    forall i | 0 <= i < |spectrogram|
      ensures i * HOP_SIZE + WINDOW_SIZE <= |audio|
      ensures spectrogram[i] == Spectrum(audio[i * HOP_SIZE .. i * HOP_SIZE + WINDOW_SIZE], fft, norm)
    {
      FramesFromAt(audio, 0, bound, fft, norm, i);
    }
  }
}
