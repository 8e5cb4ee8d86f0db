/**
 * The short-time Fourier transform pair of stft.py: the matrix shape, the
 * frame loop that fills the columns of a pre-zeroed matrix, the conjugate
 * mirror that rebuilds a full spectrum, the weighted overlap-add and the
 * final rescale.
 *
 * The FFT, the inverse FFT and the Hamming window are parameters: only their
 * lengths are modelled, never their values. Samples are reals.
 */
module Stft {
  import opened Wrappers
  import opened Grids

  datatype Complex = Complex(re: real, im: real)

  const Zero: Complex := Complex(0.0, 0.0)

  /** np.conj */
  function Conj(z: Complex): Complex {
    Complex(z.re, -z.im)
  }

  /** np.conj on a vector */
  function ConjAll(v: seq<Complex>): (r: seq<Complex>)
    ensures |r| == |v|
  {
    seq(|v|, i requires 0 <= i < |v| => Conj(v[i]))
  }

  /** np.real on a vector */
  function RealPart(v: seq<Complex>): (r: seq<real>)
    ensures |r| == |v|
  {
    seq(|v|, i requires 0 <= i < |v| => v[i].re)
  }

  /** The ways the two transforms fail in Python or numpy. */
  datatype TransformError =
    | ZeroDivision       // a zero hop is a divisor (ZeroDivisionError)
    | NegativeDimension  // np.zeros is asked for a negative length (ValueError)
    | InvalidFftSize     // np.fft.fft is asked for fewer than one point (ValueError)

  /** A transform that returns as many points as it is given, as np.fft.fft and np.fft.ifft do. */
  ghost predicate KeepsLength<T(!new)>(f: seq<T> -> seq<Complex>) {
    forall s :: |f(s)| == |s|
  }

  // ---------------------------------------------------------------------
  // Shape arithmetic

  /** math.ceil((1.0 + nfft) / 2.0): the number of frequency bins kept. */
  function NumRows(nfft: nat): (r: nat)
    ensures 2 * r >= nfft + 1 && 2 * r < nfft + 3
  {
    nfft / 2 + 1
  }

  /** Python's int() of a quotient, which rounds toward zero where Dafny's `/` rounds down. */
  function TruncDiv(a: int, b: int): (q: int)
    requires b > 0
    ensures a >= 0 ==> q >= 0 && q * b <= a < q * b + b
    ensures a < 0 ==> q <= 0 && q * b - b < a <= q * b
  {
    if a >= 0 then
      DivBounds(a, b);
      a / b
    else
      DivBounds(-a, b);
      MulNeg((-a) / b, b);
      -((-a) / b)
  }

  lemma DivBounds(n: nat, b: nat)
    requires b > 0
    ensures n / b >= 0 && (n / b) * b <= n < (n / b) * b + b
  {
    assert n == (n / b) * b + n % b;
  }

  lemma MulNeg(x: int, b: int)
    ensures (-x) * b == -(x * b)
  {
  }

  /** 1 + int((signal_length - window_length) / float(h)): the number of columns. */
  function NumCols(signalLength: nat, windowLength: nat, h: nat): int
    requires h > 0
  {
    1 + TruncDiv(signalLength - windowLength, h)
  }

  /**
   * From the window on, one column for the first frame and one for every
   * whole hop after it; below the window, 1 - ceil((W - L) / h), so at most
   * one.
   */
  lemma {:induction false} NumColsCountsHops(signalLength: nat, windowLength: nat, h: nat)
    requires h > 0
    ensures var c := NumCols(signalLength, windowLength, h);
      signalLength >= windowLength ==> c >= 1 && (c - 1) * h <= signalLength - windowLength < c * h
    ensures var c := NumCols(signalLength, windowLength, h);
      signalLength < windowLength ==> c <= 1 && (c - 1) * h - h < signalLength - windowLength <= (c - 1) * h
  {
    var q := TruncDiv(signalLength - windowLength, h);
    MulSucc(q, h);
  }

  /** The frame that starts at sample j*h lies inside the signal. */
  predicate FrameFits(signalLength: nat, windowLength: nat, h: nat, j: nat) {
    j * h + windowLength <= signalLength
  }

  /** The number of passes of the frame loop of stft(), whose guard is idx + W < L. */
  function FramesWritten(signalLength: nat, windowLength: nat, h: nat): nat
    requires h > 0
  {
    if signalLength > windowLength then (signalLength - windowLength - 1) / h + 1 else 0
  }

  /** The number of passes of the loop with the guard idx + W <= L, which visits every whole frame. */
  function FramesWhole(signalLength: nat, windowLength: nat, h: nat): nat
    requires h > 0
  {
    if signalLength >= windowLength then (signalLength - windowLength) / h + 1 else 0
  }

  lemma MulLeft(a: nat, b: nat, c: nat)
    requires a <= b
    ensures a * c <= b * c
  {
  }

  lemma MulStrict(a: nat, b: nat, c: nat)
    requires c > 0
    ensures a < b <==> a * c < b * c
  {
    MulSucc(a, c);
    if a < b {
      MulLeft(a + 1, b, c);
    } else {
      MulLeft(b, a, c);
    }
  }

  lemma MulSucc(a: int, c: int)
    ensures (a + 1) * c == a * c + c
  {
  }

  /** Euclidean division is unique: a == q*b + r with 0 <= r < b fixes a / b and a % b. */
  lemma DivUnique(a: int, b: nat, q: int, r: int)
    requires b > 0 && a == q * b + r && 0 <= r < b
    ensures a / b == q && a % b == r
  {
    var q', r' := a / b, a % b;
    MulSucc(q, b);
    MulSucc(q', b);
    if q' < q {
      MulLeftInt(q' + 1, q, b);
    } else if q < q' {
      MulLeftInt(q + 1, q', b);
    }
  }

  lemma MulLeftInt(a: int, b: int, c: nat)
    requires a <= b
    ensures a * c <= b * c
  {
  }

  lemma DivOfMultiple(j: nat, h: nat)
    requires h > 0
    ensures (j * h) / h == j
  {
    DivUnique(j * h, h, j, 0);
  }

  /** For a non-negative numerator, j <= a / h exactly when j * h <= a. */
  lemma DivBound(a: nat, h: nat, j: nat)
    requires h > 0
    ensures j <= a / h <==> j * h <= a
  {
    if j <= a / h {
      MulLeft(j, a / h, h);
    } else {
      MulLeft(a / h + 1, j, h);
    }
  }

  /** Frame j is visited by the loop of stft() exactly when its end lies strictly before the end of the signal. */
  lemma {:induction false} FrameIndex(signalLength: nat, windowLength: nat, h: nat, j: nat)
    requires h > 0
    ensures j < FramesWritten(signalLength, windowLength, h) <==> j * h + windowLength < signalLength
  {
    if signalLength > windowLength {
      DivBound(signalLength - windowLength - 1, h, j);
    } else {
      MulLeft(0, j, h);
    }
  }

  /** Frame j is visited by the corrected loop exactly when it lies inside the signal. */
  lemma {:induction false} WholeFrameIndex(signalLength: nat, windowLength: nat, h: nat, j: nat)
    requires h > 0
    ensures j < FramesWhole(signalLength, windowLength, h) <==> FrameFits(signalLength, windowLength, h, j)
  {
    if signalLength >= windowLength {
      DivBound(signalLength - windowLength, h, j);
    } else {
      MulLeft(0, j, h);
    }
  }

  /**
   * How many of the num_cols columns the loop of stft() fills: all of them,
   * except that the last one stays zero when L - W is a multiple of h
   * (L = W included). A signal shorter than the window gets at most one
   * column, none filled, and np.zeros fails once W - L reaches 2h.
   */
  lemma {:induction false} ColumnsFilled(signalLength: nat, windowLength: nat, h: nat)
    requires h > 0
    ensures NumCols(signalLength, windowLength, h) >= 0 ==>
      FramesWritten(signalLength, windowLength, h) <= NumCols(signalLength, windowLength, h)
    ensures signalLength >= windowLength ==>
      NumCols(signalLength, windowLength, h) ==
        FramesWritten(signalLength, windowLength, h) + (if (signalLength - windowLength) % h == 0 then 1 else 0)
    ensures signalLength < windowLength ==>
      FramesWritten(signalLength, windowLength, h) == 0 && NumCols(signalLength, windowLength, h) <= 1
    ensures NumCols(signalLength, windowLength, h) < 0 <==> windowLength - signalLength >= 2 * h
  {
    if signalLength > windowLength {
      ColumnsAboveWindow(signalLength, windowLength, h);
    } else if signalLength < windowLength {
      ColumnsBelowWindow(signalLength, windowLength, h);
    } else {
      assert NumCols(signalLength, windowLength, h) == 1;
    }
  }

  lemma {:induction false} ColumnsAboveWindow(signalLength: nat, windowLength: nat, h: nat)
    requires h > 0 && signalLength > windowLength
    ensures NumCols(signalLength, windowLength, h) >= 1
    ensures NumCols(signalLength, windowLength, h) ==
      FramesWritten(signalLength, windowLength, h) + (if (signalLength - windowLength) % h == 0 then 1 else 0)
  {
    var d: nat := signalLength - windowLength;
    var q, r := d / h, d % h;
    assert NumCols(signalLength, windowLength, h) == 1 + q;
    assert FramesWritten(signalLength, windowLength, h) == (d - 1) / h + 1;
    assert d == q * h + r;
    if r == 0 {
      MulSucc(q - 1, h);
      DivUnique(d - 1, h, q - 1, h - 1);
    } else {
      DivUnique(d - 1, h, q, r - 1);
    }
  }

  lemma {:induction false} ColumnsBelowWindow(signalLength: nat, windowLength: nat, h: nat)
    requires h > 0 && signalLength < windowLength
    ensures NumCols(signalLength, windowLength, h) <= 1
    ensures NumCols(signalLength, windowLength, h) < 0 <==> windowLength - signalLength >= 2 * h
  {
    var n: nat := windowLength - signalLength;
    assert NumCols(signalLength, windowLength, h) == 1 - n / h;
    DivBound(n, h, 2);
  }

  /** Whole frames: with L >= W the corrected loop fills every one of the num_cols columns. */
  lemma {:induction false} WholeFramesFillMatrix(signalLength: nat, windowLength: nat, h: nat)
    requires h > 0
    ensures signalLength >= windowLength ==>
      FramesWhole(signalLength, windowLength, h) == NumCols(signalLength, windowLength, h)
    ensures signalLength < windowLength ==> FramesWhole(signalLength, windowLength, h) == 0
  {
    if signalLength >= windowLength {
      assert NumCols(signalLength, windowLength, h) == 1 + (signalLength - windowLength) / h;
    }
  }

  // ---------------------------------------------------------------------
  // Forward transform

  /** x[idx:idx + window_length] * window */
  function Windowed(frame: seq<real>, window: seq<real>): (r: seq<real>)
    requires |frame| == |window|
    ensures |r| == |window|
  {
    seq(|window|, i requires 0 <= i < |window| => frame[i] * window[i])
  }

  /** np.fft.fft(v, n) first cuts its input down, or pads it with zeros, to n points. */
  function FitTo(v: seq<real>, n: nat): (r: seq<real>)
    ensures |r| == n
    ensures forall i :: 0 <= i < n ==> r[i] == if i < |v| then v[i] else 0.0
  {
    if |v| >= n then v[..n] else v + seq(n - |v|, _ => 0.0)
  }

  /** signal_window_ft[0:num_rows] for the frame that starts at sample j*h. */
  function Column(x: seq<real>, window: seq<real>, h: nat, nfft: nat, fft: seq<real> -> seq<Complex>, j: nat)
    : (c: seq<Complex>)
    requires FrameFits(|x|, |window|, h, j)
    requires nfft >= 1 && KeepsLength(fft)
    ensures |c| == NumRows(nfft)
  {
    fft(FitTo(Windowed(x[j * h..j * h + |window|], window), nfft))[..NumRows(nfft)]
  }

  /**
   * Whether the frame loop reaches frame j. stft() as written loops while
   * idx + W < L; the corrected loop (`wholeFrames`) while idx + W <= L.
   */
  predicate Visits(signalLength: nat, windowLength: nat, h: nat, j: nat, wholeFrames: bool) {
    if wholeFrames then j * h + windowLength <= signalLength else j * h + windowLength < signalLength
  }

  /**
   * The matrix the forward transform returns, rows = frequency bins: column
   * j holds the kept bins of frame j when the loop reaches that frame, and
   * stays zero otherwise.
   */
  ghost function Spectrogram(x: seq<real>, window: seq<real>, h: nat, nfft: nat,
                             fft: seq<real> -> seq<Complex>, cols: nat, wholeFrames: bool): (g: seq<seq<Complex>>)
    requires KeepsLength(fft)
    requires nfft == 0 ==> !Visits(|x|, |window|, h, 0, wholeFrames)
    ensures IsGrid(g, NumRows(nfft), cols)
  {
    seq(NumRows(nfft), i requires 0 <= i < NumRows(nfft) =>
      seq(cols, j requires 0 <= j < cols =>
        if Visits(|x|, |window|, h, j, wholeFrames) then
          MulLeft(0, j, h);
          Column(x, window, h, nfft, fft, j)[i]
        else Zero))
  }

  /**
   * stft() as written. Its loop runs while idx + W < L, one step short of
   * the last whole frame when L - W is a multiple of h.
   */
  method Stft(x: seq<real>, window: seq<real>, h: nat, nfft: nat, fft: seq<real> -> seq<Complex>)
    returns (r: Result<array2<Complex>, TransformError>)
    requires KeepsLength(fft)
    ensures h == 0 ==> r == Err(ZeroDivision)
    ensures h > 0 && NumCols(|x|, |window|, h) < 0 ==> r == Err(NegativeDimension)
    ensures h > 0 && NumCols(|x|, |window|, h) >= 0 && nfft == 0 && |x| > |window| ==> r == Err(InvalidFftSize)
    ensures r.Ok? <==> h > 0 && NumCols(|x|, |window|, h) >= 0 && (nfft >= 1 || |x| <= |window|)
    ensures r.Ok? ==>
      fresh(r.value) && Grid(r.value) == Spectrogram(x, window, h, nfft, fft, NumCols(|x|, |window|, h), false)
  {
    if h == 0 {
      return Err(ZeroDivision);
    }
    var signalLength, windowLength := |x|, |window|;
    var numRows := NumRows(nfft);
    var numCols := NumCols(signalLength, windowLength, h);
    if numCols < 0 {
      return Err(NegativeDimension);
    }
    var m := new Complex[numRows, numCols]((_, _) => Zero);
    ColumnsFilled(signalLength, windowLength, h);
    var idx, col := 0, 0;
    while idx + windowLength < signalLength
      invariant idx == col * h && col <= FramesWritten(signalLength, windowLength, h)
      invariant col > 0 ==> nfft >= 1
      invariant forall j: nat :: j < col ==> FrameFits(signalLength, windowLength, h, j)
      invariant forall i, j :: 0 <= i < numRows && 0 <= j < numCols ==>
        m[i, j] == if j < col then Column(x, window, h, nfft, fft, j)[i] else Zero
    {
      FrameIndex(signalLength, windowLength, h, col);
      if nfft == 0 {
        return Err(InvalidFftSize);
      }
      var ft := fft(FitTo(Windowed(x[idx..idx + windowLength], window), nfft));
      assert ft[..numRows] == Column(x, window, h, nfft, fft, col);
      forall i | 0 <= i < numRows {
        m[i, col] := ft[i];
      }
      MulSucc(col, h);
      idx, col := idx + h, col + 1;
    }
    FrameIndex(signalLength, windowLength, h, col);
    forall j: nat | j < numCols
      ensures j < col <==> Visits(signalLength, windowLength, h, j, false)
    {
      FrameIndex(signalLength, windowLength, h, j);
    }
    GridEquals(m, Spectrogram(x, window, h, nfft, fft, numCols, false));
    r := Ok(m);
  }

  /** The forward transform with the loop guard idx + W <= L, so that every whole frame is visited. */
  method StftWholeFrames(x: seq<real>, window: seq<real>, h: nat, nfft: nat, fft: seq<real> -> seq<Complex>)
    returns (r: Result<array2<Complex>, TransformError>)
    requires KeepsLength(fft)
    ensures h == 0 ==> r == Err(ZeroDivision)
    ensures h > 0 && NumCols(|x|, |window|, h) < 0 ==> r == Err(NegativeDimension)
    ensures h > 0 && NumCols(|x|, |window|, h) >= 0 && nfft == 0 && |x| >= |window| ==> r == Err(InvalidFftSize)
    ensures r.Ok? <==> h > 0 && NumCols(|x|, |window|, h) >= 0 && (nfft >= 1 || |x| < |window|)
    ensures r.Ok? ==>
      fresh(r.value) && Grid(r.value) == Spectrogram(x, window, h, nfft, fft, NumCols(|x|, |window|, h), true)
  {
    if h == 0 {
      return Err(ZeroDivision);
    }
    var signalLength, windowLength := |x|, |window|;
    var numRows := NumRows(nfft);
    var numCols := NumCols(signalLength, windowLength, h);
    if numCols < 0 {
      return Err(NegativeDimension);
    }
    var m := new Complex[numRows, numCols]((_, _) => Zero);
    WholeFramesFillMatrix(signalLength, windowLength, h);
    var idx, col := 0, 0;
    while idx + windowLength <= signalLength
      invariant idx == col * h && col <= FramesWhole(signalLength, windowLength, h)
      invariant col > 0 ==> nfft >= 1
      invariant forall j: nat :: j < col ==> FrameFits(signalLength, windowLength, h, j)
      invariant forall i, j :: 0 <= i < numRows && 0 <= j < numCols ==>
        m[i, j] == if j < col then Column(x, window, h, nfft, fft, j)[i] else Zero
    {
      WholeFrameIndex(signalLength, windowLength, h, col);
      if nfft == 0 {
        return Err(InvalidFftSize);
      }
      var ft := fft(FitTo(Windowed(x[idx..idx + windowLength], window), nfft));
      assert ft[..numRows] == Column(x, window, h, nfft, fft, col);
      forall i | 0 <= i < numRows {
        m[i, col] := ft[i];
      }
      MulSucc(col, h);
      idx, col := idx + h, col + 1;
    }
    WholeFrameIndex(signalLength, windowLength, h, col);
    forall j: nat | j < numCols
      ensures j < col <==> Visits(signalLength, windowLength, h, j, true)
    {
      WholeFrameIndex(signalLength, windowLength, h, j);
    }
    GridEquals(m, Spectrogram(x, window, h, nfft, fft, numCols, true));
    r := Ok(m);
  }

  /**
   * The off-by-one of stft(): when L - W is a multiple of h, the last
   * frame lies inside the signal, yet its column of the result is zero.
   */
  lemma {:induction false} AlignedLastColumnStaysZero(x: seq<real>, window: seq<real>, h: nat, nfft: nat,
                                                       fft: seq<real> -> seq<Complex>)
    requires h > 0 && nfft >= 1 && KeepsLength(fft)
    requires |x| >= |window| && (|x| - |window|) % h == 0
    ensures var cols := NumCols(|x|, |window|, h);
      cols >= 1 && FrameFits(|x|, |window|, h, cols - 1) &&
      var g := Spectrogram(x, window, h, nfft, fft, cols, false);
      forall i :: 0 <= i < |g| ==> g[i][cols - 1] == Zero
  {
    var L, W := |x|, |window|;
    ColumnsFilled(L, W, h);
    WholeFramesFillMatrix(L, W, h);
    var cols := NumCols(L, W, h);
    WholeFrameIndex(L, W, h, cols - 1);
    FrameIndex(L, W, h, cols - 1);
  }

  /** With the corrected guard every column of a signal at least one window long holds its frame's transform. */
  lemma {:induction false} WholeFramesFillEveryColumn(x: seq<real>, window: seq<real>, h: nat, nfft: nat,
                                                      fft: seq<real> -> seq<Complex>)
    requires h > 0 && nfft >= 1 && KeepsLength(fft) && |x| >= |window|
    ensures var cols := NumCols(|x|, |window|, h);
      cols >= 1 &&
      (forall j: nat :: j < cols ==> FrameFits(|x|, |window|, h, j)) &&
      var g := Spectrogram(x, window, h, nfft, fft, cols, true);
      forall i, j :: 0 <= i < |g| && 0 <= j < cols ==> g[i][j] == Column(x, window, h, nfft, fft, j)[i]
  {
    var L, W := |x|, |window|;
    WholeFramesFillMatrix(L, W, h);
    var cols := NumCols(L, W, h);
    forall j: nat | j < cols ensures FrameFits(L, W, h, j) {
      WholeFrameIndex(L, W, h, j);
    }
    var g := Spectrogram(x, window, h, nfft, fft, cols, true);
    forall i, j | 0 <= i < |g| && 0 <= j < cols ensures g[i][j] == Column(x, window, h, nfft, fft, j)[i] {
      WholeFrameIndex(L, W, h, j);
    }
  }

  // ---------------------------------------------------------------------
  // Inverse transform

  /** X ++ conj(X[::-1][1:-1]): the full spectrum rebuilt from the kept bins when nfft is even. */
  function Mirror(bins: seq<Complex>): (full: seq<Complex>)
    requires |bins| >= 2
    ensures |full| == 2 * |bins| - 2
  {
    bins + ConjAll(Reversed(bins)[1..|bins| - 1])
  }

  /**
   * For even nfft the rebuilt spectrum has exactly nfft points, starts with
   * the kept bins, and every point past them is the conjugate of its mirror
   * image about nfft/2.
   */
  lemma {:induction false} MirrorIsConjugateSymmetric(bins: seq<Complex>, nfft: nat)
    requires nfft >= 2 && nfft % 2 == 0 && |bins| == NumRows(nfft)
    ensures |Mirror(bins)| == nfft
    ensures Mirror(bins)[..|bins|] == bins
    ensures forall k :: NumRows(nfft) <= k < nfft ==> Mirror(bins)[k] == Conj(Mirror(bins)[nfft - k])
  {
    var full, n := Mirror(bins), |bins|;
    assert full[..n] == bins;
    forall k | n <= k < nfft
      ensures full[k] == Conj(full[nfft - k])
    {
      var tail := Reversed(bins)[1..n - 1];
      assert full[k] == Conj(tail[k - n]);
      assert tail[k - n] == bins[nfft - k];
      assert full[nfft - k] == bins[nfft - k];
    }
  }

  /** np.sum(np.square(window)) */
  function SumSquares(w: seq<real>): (r: real)
    ensures r >= 0.0
  {
    if w == [] then 0.0 else SumSquares(w[..|w| - 1]) + w[|w| - 1] * w[|w| - 1]
  }

  /** stft[:, j] */
  function ColumnOf(g: seq<seq<Complex>>, j: nat): (c: seq<Complex>)
    requires forall i :: 0 <= i < |g| ==> j < |g[i]|
    ensures |c| == |g|
  {
    seq(|g|, i requires 0 <= i < |g| => g[i][j])
  }

  /** np.real(np.fft.ifft(X)) * window for the spectrum rebuilt from one column. */
  function SynthesisFrame(bins: seq<Complex>, window: seq<real>, ifft: seq<Complex> -> seq<Complex>): (r: seq<real>)
    requires |bins| >= 2 && |window| == 2 * |bins| - 2 && KeepsLength(ifft)
    ensures |r| == |window|
    ensures forall i :: 0 <= i < |window| && window[i] == 0.0 ==> r[i] == 0.0
  {
    var xprim := RealPart(ifft(Mirror(bins)));
    seq(|window|, i requires 0 <= i < |window| => xprim[i] * window[i])
  }

  /** What frame `frame`, added into the buffer at offset `start`, adds to sample k. */
  function Contribution(frame: seq<real>, start: nat, k: nat): real {
    if start <= k < start + |frame| then frame[k - start] else 0.0
  }

  /** Sample k of the overlap-add of the frames, frame j added at offset j*h. */
  function OverlapAdd(frames: seq<seq<real>>, h: nat, k: nat): real
    decreases |frames|
  {
    if frames == [] then 0.0
    else OverlapAdd(frames[..|frames| - 1], h, k) + Contribution(frames[|frames| - 1], (|frames| - 1) * h, k)
  }

  /** Adding frame j in at offset j*h extends the overlap-add of the frames before it. */
  lemma OverlapAddStep(frames: seq<seq<real>>, h: nat, j: nat, k: nat)
    requires j < |frames|
    ensures OverlapAdd(frames[..j + 1], h, k) == OverlapAdd(frames[..j], h, k) + Contribution(frames[j], j * h, k)
  {
    assert frames[..j + 1][..j] == frames[..j];
  }

  /** The windowed synthesis frame of every column of the matrix. */
  ghost function SynthesisFrames(g: seq<seq<Complex>>, cols: nat, window: seq<real>, nfft: nat,
                                 ifft: seq<Complex> -> seq<Complex>): (frames: seq<seq<real>>)
    requires nfft >= 2 && nfft % 2 == 0 && IsGrid(g, NumRows(nfft), cols)
    requires |window| == nfft && KeepsLength(ifft)
    ensures |frames| == cols
    ensures forall j :: 0 <= j < cols ==> |frames[j]| == nfft
  {
    seq(cols, j requires 0 <= j < cols => SynthesisFrame(ColumnOf(g, j), window, ifft))
  }

  /** The output length of istft(): nfft + (num_cols - 1) * h. */
  function OutputLength(nfft: nat, cols: nat, h: nat): int {
    nfft + (cols - 1) * h
  }

  /** Every sample multiplied by the same factor. */
  function ScaledBy(v: seq<real>, factor: real): (r: seq<real>)
    ensures |r| == |v|
  {
    seq(|v|, k requires 0 <= k < |v| => factor * v[k])
  }

  /** The first n samples of the overlap-add of the frames. */
  function OverlapAddBuffer(frames: seq<seq<real>>, h: nat, n: nat): (r: seq<real>)
    ensures |r| == n
  {
    seq(n, k requires 0 <= k < n => OverlapAdd(frames, h, k))
  }

  /** The signal istft() returns: the overlap-add of the synthesis frames, all scaled by h / sum(window^2). */
  ghost function Reconstruction(g: seq<seq<Complex>>, cols: nat, window: seq<real>, h: nat, nfft: nat,
                                ifft: seq<Complex> -> seq<Complex>): (y: seq<real>)
    requires nfft >= 2 && nfft % 2 == 0 && IsGrid(g, NumRows(nfft), cols)
    requires |window| == nfft && KeepsLength(ifft) && SumSquares(window) > 0.0
    requires OutputLength(nfft, cols, h) >= 0
    ensures |y| == OutputLength(nfft, cols, h)
  {
    var frames := SynthesisFrames(g, cols, window, nfft, ifft);
    ScaledBy(OverlapAddBuffer(frames, h, OutputLength(nfft, cols, h)), h as real / SumSquares(window))
  }

  /**
   * Every frame the overlap-add writes lies inside the output buffer, the
   * last one ends exactly at its end, and the column it is read from,
   * b // h, is the frame's own index.
   */
  lemma {:induction false} OverlapAddWritesInBuffer(nfft: nat, cols: nat, h: nat, j: nat)
    requires h > 0 && j < cols
    ensures 0 <= j * h && j * h + nfft <= OutputLength(nfft, cols, h)
    ensures j == cols - 1 ==> j * h + nfft == OutputLength(nfft, cols, h)
    ensures (j * h) / h == j
  {
    MulLeft(j, cols - 1, h);
    DivOfMultiple(j, h);
  }

  /** x *= h / W0: scales every sample of the buffer by the same factor, in place. */
  method Rescale(x: array<real>, factor: real)
    modifies x
    ensures x[..] == ScaledBy(old(x[..]), factor)
  {
    forall k | 0 <= k < x.Length {
      x[k] := factor * x[k];
    }
    ghost var before := old(x[..]);
    forall k | 0 <= k < x.Length
      ensures x[..][k] == ScaledBy(before, factor)[k]
    {
      assert x[k] == factor * old(x[k]);
    }
  }

  /** x[b:b+len(frame)] += frame */
  method AddFrame(x: array<real>, frame: seq<real>, b: nat)
    requires b + |frame| <= x.Length
    modifies x
    ensures forall k :: 0 <= k < x.Length ==> x[k] == old(x[k]) + Contribution(frame, b, k)
  {
    forall i | 0 <= i < |frame| {
      x[b + i] := x[b + i] + frame[i];
    }
  }

  /**
   * The weighted overlap-add of istft(): a zeroed buffer of the output
   * length, into which each column's windowed synthesis frame is added at
   * b = j*h, the column being read back as b // h.
   */
  method OverlapAddColumns(m: array2<Complex>, window: seq<real>, h: nat, nfft: nat,
                           ifft: seq<Complex> -> seq<Complex>)
    returns (x: array<real>)
    requires nfft >= 2 && nfft % 2 == 0 && m.Length0 == NumRows(nfft)
    requires |window| == nfft && KeepsLength(ifft)
    requires h > 0 && OutputLength(nfft, m.Length1, h) >= 0
    ensures fresh(x)
    ensures x[..] == OverlapAddBuffer(SynthesisFrames(Grid(m), m.Length1, window, nfft, ifft), h,
                                      OutputLength(nfft, m.Length1, h))
  {
    var numCols := m.Length1;
    var signalLength := nfft + (numCols - 1) * h;
    x := new real[signalLength](_ => 0.0);
    ghost var g := Grid(m);
    ghost var frames := SynthesisFrames(g, numCols, window, nfft, ifft);
    var b := 0;
    ghost var j := 0;
    while b < h * numCols
      invariant x.Length == signalLength
      invariant 0 <= j <= numCols && b == j * h
      invariant forall k :: 0 <= k < signalLength ==> x[k] == OverlapAdd(frames[..j], h, k)
    {
      MulStrict(j, numCols, h);
      OverlapAddWritesInBuffer(nfft, numCols, h, j);
      var bins := seq(m.Length0, i reads m requires 0 <= i < m.Length0 => m[i, b / h]);
      assert bins == ColumnOf(g, j);
      var frame := SynthesisFrame(bins, window, ifft);
      assert frame == frames[j];
      ghost var before := x[..];
      AddFrame(x, frame, b);
      forall k | 0 <= k < signalLength
        ensures x[k] == OverlapAdd(frames[..j + 1], h, k)
      {
        assert x[k] == before[k] + Contribution(frames[j], j * h, k);
        OverlapAddStep(frames, h, j, k);
      }
      b, j := b + h, j + 1;
    }
    MulStrict(j, numCols, h);
    assert frames[..j] == frames;
    assert forall k :: 0 <= k < signalLength ==> x[..][k] == OverlapAddBuffer(frames, h, signalLength)[k];
  }

  /** istft() for an even nfft: overlap-add every column, then scale the whole buffer by h / sum(window^2). */
  method Istft(m: array2<Complex>, window: seq<real>, h: nat, nfft: nat, ifft: seq<Complex> -> seq<Complex>)
    returns (r: Result<array<real>, TransformError>)
    requires nfft >= 2 && nfft % 2 == 0 && m.Length0 == NumRows(nfft)
    requires |window| == nfft && KeepsLength(ifft) && SumSquares(window) > 0.0
    ensures OutputLength(nfft, m.Length1, h) < 0 ==> r == Err(NegativeDimension)
    ensures OutputLength(nfft, m.Length1, h) >= 0 && h == 0 ==> r == Err(ZeroDivision)
    ensures r.Ok? <==> OutputLength(nfft, m.Length1, h) >= 0 && h > 0
    ensures r.Ok? ==>
      fresh(r.value) && r.value[..] == Reconstruction(Grid(m), m.Length1, window, h, nfft, ifft)
  {
    if OutputLength(nfft, m.Length1, h) < 0 {
      return Err(NegativeDimension);
    }
    if h == 0 {
      return Err(ZeroDivision);
    }
    var x := OverlapAddColumns(m, window, h, nfft, ifft);
    Rescale(x, h as real / SumSquares(window));
    r := Ok(x);
  }
}
