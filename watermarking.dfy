/**
 * hide_watermark and extract_watermark of watermarking.py: the text is
 * written into the magnitude picture of the signal's spectrogram and the
 * signal resynthesised; extraction flips the magnitude picture upright,
 * cleans it and cuts out the band the text was written in, as the raster
 * handed to optical character recognition.
 */
module Watermarking {
  import opened Wrappers
  import opened Grids
  import opened Stft
  import opened Embedding

  /** window_length, h = window_length // 4 and nfft = window_length, shared by both directions. */
  const WindowLength: nat := 1024
  const Hop: nat := WindowLength / 4
  const FftSize: nat := WindowLength

  /** embedding_value=5, left_top=(20, 20), font_size=80. */
  const EmbeddingValue: Complex := Complex(5.0, 0.0)
  const WatermarkStyle: TextStyle := TextStyle(20, 20, 80)

  /** What wavfile.read returns: a vector of samples, or frames of `channels` samples each. */
  datatype WavData = Mono(samples: seq<real>) | MultiChannel(channels: nat, frames: seq<seq<real>>)

  predicate WellShaped(d: WavData) {
    d.MultiChannel? ==> forall i :: 0 <= i < |d.frames| ==> |d.frames[i]| == d.channels
  }

  /** data[:, 0] for multi-channel data; None where numpy raises IndexError, a matrix of no columns. */
  function FirstChannel(d: WavData): (r: Option<seq<real>>)
    requires WellShaped(d)
    ensures d.Mono? ==> r == Some(d.samples)
    ensures d.MultiChannel? ==> (r.Some? <==> d.channels > 0)
    ensures d.MultiChannel? && r.Some? ==>
      |r.value| == |d.frames| && forall i :: 0 <= i < |d.frames| ==> r.value[i] == d.frames[i][0]
  {
    match d
    case Mono(s) => Some(s)
    case MultiChannel(c, fs) =>
      if c == 0 then None else Some(seq(|fs|, i requires 0 <= i < |fs| => fs[i][0]))
  }

  function Abs(v: real): real {
    if v < 0.0 then -v else v
  }

  /** np.max(np.abs(data)): bounds every magnitude and is one of them. */
  function MaxAbs(s: seq<real>): (m: real)
    requires |s| > 0
    ensures forall i :: 0 <= i < |s| ==> Abs(s[i]) <= m
    ensures exists i :: 0 <= i < |s| && Abs(s[i]) == m
  {
    if |s| == 1 then Abs(s[0])
    else
      var m := MaxAbs(s[..|s| - 1]);
      if Abs(s[|s| - 1]) > m then Abs(s[|s| - 1]) else m
  }

  /** np.max of an empty array raises ValueError; a silent signal divides zero by zero. */
  datatype NormalizeError = EmptySignal | SilentSignal

  lemma ScaleIntoUnit(v: real, m: real)
    requires m > 0.0 && Abs(v) <= m
    ensures -1.0 <= v / m <= 1.0 && (v / m) * m == v
    ensures Abs(v) == m ==> Abs(v / m) == 1.0
  {
    if v == -m {
      assert v / m == -1.0;
    }
  }

  /** The largest magnitude is zero exactly when every sample is. */
  lemma {:induction false} MaxAbsZero(s: seq<real>)
    requires |s| > 0
    ensures MaxAbs(s) == 0.0 <==> forall i :: 0 <= i < |s| ==> s[i] == 0.0
  {
    var k :| 0 <= k < |s| && Abs(s[k]) == MaxAbs(s);
  }

  /** y times the factor m gives back s. */
  predicate ScaledCopy(y: seq<real>, s: seq<real>, m: real) {
    |y| == |s| && forall i :: 0 <= i < |s| ==> y[i] * m == s[i]
  }

  /** Dividing by a bound that some sample attains scales every sample into [-1, 1] and one onto -1 or 1. */
  lemma {:induction false} ScaledSamples(s: seq<real>, y: seq<real>, m: real)
    requires m > 0.0 && forall i :: 0 <= i < |s| ==> Abs(s[i]) <= m
    requires exists k :: 0 <= k < |s| && Abs(s[k]) == m
    requires |y| == |s| && forall i :: 0 <= i < |s| ==> y[i] == s[i] / m
    ensures (forall i :: 0 <= i < |s| ==> -1.0 <= y[i] <= 1.0) && ScaledCopy(y, s, m)
    ensures exists i :: 0 <= i < |s| && Abs(y[i]) == 1.0
  {
    forall i | 0 <= i < |s|
      ensures -1.0 <= y[i] <= 1.0 && y[i] * m == s[i]
    {
      ScaleIntoUnit(s[i], m);
    }
    var k :| 0 <= k < |s| && Abs(s[k]) == m;
    ScaleIntoUnit(s[k], m);
  }

  /** Every sample divided by m. */
  function DividedBy(s: seq<real>, m: real): (y: seq<real>)
    requires m != 0.0
    ensures |y| == |s| && forall i :: 0 <= i < |s| ==> y[i] == s[i] / m
  {
    seq(|s|, i requires 0 <= i < |s| => s[i] / m)
  }

  /** data / np.max(np.abs(data)): the amplitude scaled into [-1, 1], reaching 1 somewhere. */
  function Normalize(s: seq<real>): (r: Result<seq<real>, NormalizeError>)
    ensures s == [] <==> r == Err(EmptySignal)
    ensures r == Err(SilentSignal) <==> s != [] && forall i :: 0 <= i < |s| ==> s[i] == 0.0
    ensures r.Ok? ==> |r.value| == |s| && MaxAbs(s) > 0.0
  {
    if s == [] then Err(EmptySignal)
    else
      var m := MaxAbs(s);
      MaxAbsZero(s);
      if m == 0.0 then Err(SilentSignal)
      else
        Ok(DividedBy(s, m))
  }

  /** A normalised signal lies in [-1, 1], touches -1 or 1, and is the input shrunk by one positive factor. */
  lemma {:induction false} NormalizedIntoUnit(s: seq<real>)
    requires Normalize(s).Ok?
    ensures var y := Normalize(s).value;
      (forall i :: 0 <= i < |s| ==> -1.0 <= y[i] <= 1.0) && ScaledCopy(y, s, MaxAbs(s)) &&
      (exists i :: 0 <= i < |s| && Abs(y[i]) == 1.0)
  {
    var m := MaxAbs(s);
    var y := Normalize(s).value;
    assert y == DividedBy(s, m);
    ScaledSamples(s, y, m);

  }

  /**
   * The analysis both directions run: stft() as written, whose loop stops
   * short of the last whole frame, so that the last column stays zero when
   * the length is 1024 + 256k.
   */
  ghost function AnalysisOf(x: seq<real>, window: seq<real>, fft: seq<real> -> seq<Complex>): (g: seq<seq<Complex>>)
    requires KeepsLength(fft) && |x| > WindowLength - 2 * Hop
    ensures IsGrid(g, NumRows(FftSize), NumCols(|x|, WindowLength, Hop))
  {
    ColumnsFilled(|x|, WindowLength, Hop);
    Spectrogram(x, window, Hop, FftSize, fft, NumCols(|x|, WindowLength, Hop), false)
  }

  /**
   * How many columns the analysis has: none for 513 to 768 samples, where
   * the magnitude picture of extraction is empty, and at least one beyond.
   */
  lemma {:induction false} AnalysisColumns(signalLength: nat)
    ensures NumCols(signalLength, WindowLength, Hop) < 0 <==> signalLength <= 512
    ensures NumCols(signalLength, WindowLength, Hop) == 0 <==> 512 < signalLength <= 768
    ensures NumCols(signalLength, WindowLength, Hop) > 0 <==> signalLength > 768
  {
    ColumnsFilled(signalLength, WindowLength, Hop);
    var q := TruncDiv(signalLength - WindowLength, Hop);
    if signalLength < WindowLength {
      assert q * Hop - Hop < signalLength - WindowLength <= q * Hop;
    }
  }

  /** The signal hide_watermark writes out, for a normalised first channel x. */
  ghost function Watermarked(x: seq<real>, text: string, window: seq<real>, fft: seq<real> -> seq<Complex>,
                             ifft: seq<Complex> -> seq<Complex>, render: Renderer): (y: seq<real>)
    requires |window| == WindowLength && SumSquares(window) > 0.0
    requires KeepsLength(fft) && KeepsLength(ifft) && DrawsOnCanvas(render)
    requires |x| > WindowLength - 2 * Hop
    ensures |y| == OutputLength(FftSize, NumCols(|x|, WindowLength, Hop), Hop)
  {
    var cols := NumCols(|x|, WindowLength, Hop);
    var marked := Embedded(AnalysisOf(x, window, fft), cols, text, EmbeddingValue, WatermarkStyle, render);
    Reconstruction(marked, cols, window, Hop, FftSize, ifft)
  }

  /** The exceptions hiding and extraction raise: IndexError, the normalisation's, stft()'s, and np.max of an empty picture. */
  datatype WatermarkError =
    | NoChannel
    | Normalization(why: NormalizeError)
    | Transform(cause: TransformError)
    | EmptyImage

  /**
   * hide_watermark on the decoded contents of the input file: the first
   * channel, normalised, analysed, stamped with the text and resynthesised.
   * Signals of at most 512 samples are refused by the analysis.
   */
  method HideWatermark(data: WavData, text: string, window: seq<real>, fft: seq<real> -> seq<Complex>,
                       ifft: seq<Complex> -> seq<Complex>, render: Renderer)
    returns (r: Result<array<real>, WatermarkError>)
    requires WellShaped(data)
    requires |window| == WindowLength && SumSquares(window) > 0.0
    requires KeepsLength(fft) && KeepsLength(ifft) && DrawsOnCanvas(render)
    ensures FirstChannel(data).None? ==> r == Err(NoChannel)
    ensures FirstChannel(data).Some? && Normalize(FirstChannel(data).value).Err? ==>
      r == Err(Normalization(Normalize(FirstChannel(data).value).error))
    ensures (FirstChannel(data).Some? && Normalize(FirstChannel(data).value).Ok? &&
             |FirstChannel(data).value| <= 512) ==> r == Err(Transform(NegativeDimension))
    ensures r.Ok? <==>
      FirstChannel(data).Some? && Normalize(FirstChannel(data).value).Ok? && |FirstChannel(data).value| > 512
    ensures r.Ok? ==> fresh(r.value)
    ensures r.Ok? ==>
      r.value[..] == Watermarked(Normalize(FirstChannel(data).value).value, text, window, fft, ifft, render)
  {
    var channel := FirstChannel(data);
    if channel.None? {
      return Err(NoChannel);
    }
    var normalized := Normalize(channel.value);
    if normalized.Err? {
      return Err(Normalization(normalized.error));
    }
    var x := normalized.value;
    AnalysisColumns(|x|);
    ColumnsFilled(|x|, WindowLength, Hop);
    var spectrogram := Stft.Stft(x, window, Hop, FftSize, fft);
    if spectrogram.Err? {
      return Err(Transform(spectrogram.error));
    }
    ghost var cols := NumCols(|x|, WindowLength, Hop);
    ghost var analysed := Grid(spectrogram.value);
    assert analysed == AnalysisOf(x, window, fft);
    assert |analysed[0]| == spectrogram.value.Length1 == cols;
    var embedded := EmbedText(spectrogram.value, text, EmbeddingValue, WatermarkStyle, render);
    assert Grid(embedded) == Embedded(analysed, cols, text, EmbeddingValue, WatermarkStyle, render);
    assert OutputLength(FftSize, cols, Hop) >= 0;
    var audio := Istft(embedded, window, Hop, FftSize, ifft);
    assert audio.Ok?;
    assert audio.value[..] == Watermarked(x, text, window, fft, ifft, render);
    r := Ok(audio.value);
  }

  /** np.flipud(np.abs(spectrogram)), the modulus of a complex number being a parameter. */
  function OcrImage(g: seq<seq<Complex>>, modulus: Complex -> real): (img: seq<seq<real>>)
    ensures |img| == |g| && forall i :: 0 <= i < |g| ==> |img[i]| == |g[|g| - 1 - i]|
    ensures forall i, j :: 0 <= i < |g| && 0 <= j < |g[|g| - 1 - i]| ==> img[i][j] == modulus(g[|g| - 1 - i][j])
  {
    Reversed(MapGrid(g, modulus))
  }

  /** The complex modulus: non-negative, and its square is re^2 + im^2. */
  ghost predicate IsModulus(modulus: Complex -> real) {
    forall z :: modulus(z) >= 0.0 && modulus(z) * modulus(z) == z.re * z.re + z.im * z.im
  }

  const NoiseFloor: real := 0.2

  /** ocr_image[ocr_image < 0.2] = 0, for one pixel. */
  function Denoise(v: real): (d: real)
    ensures d == 0.0 <==> v < NoiseFloor || v == 0.0
    ensures d != 0.0 ==> d == v >= NoiseFloor
  {
    if v < NoiseFloor then 0.0 else v
  }

  /** Zeroes, in place, every pixel below the noise floor. */
  method SuppressNoise(img: array2<real>)
    modifies img
    ensures Grid(img) == MapGrid(old(Grid(img)), Denoise)
  {
    ghost var before := Grid(img);
    forall i, j | 0 <= i < img.Length0 && 0 <= j < img.Length1 && img[i, j] < NoiseFloor {
      img[i, j] := 0.0;
    }
    assert forall i, j :: 0 <= i < img.Length0 && 0 <= j < img.Length1 ==> before[i][j] == old(img[i, j]);
    assert forall i, j :: 0 <= i < img.Length0 && 0 <= j < img.Length1 ==> img[i, j] == Denoise(old(img[i, j]));
    GridEquals(img, MapGrid(before, Denoise));
  }

  /** After noise suppression a magnitude picture holds no pixel strictly between 0 and the floor, and nothing at or above the floor moves. */
  lemma {:induction false} DenoisedHasNoFaintPixels(g: seq<seq<real>>, i: nat, j: nat)
    requires i < |g| && j < |g[i]| && g[i][j] >= 0.0
    ensures var d := MapGrid(g, Denoise)[i][j];
      (d == 0.0 <==> g[i][j] < NoiseFloor) && (d != 0.0 ==> d == g[i][j] >= NoiseFloor)
  {
    assert MapGrid(g, Denoise)[i][j] == Denoise(g[i][j]);
  }

  lemma {:induction false} DenoiseIdempotent(g: seq<seq<real>>)
    ensures MapGrid(MapGrid(g, Denoise), Denoise) == MapGrid(g, Denoise)
  {
    var once := MapGrid(g, Denoise);
    forall i | 0 <= i < |g|
      ensures MapGrid(once, Denoise)[i] == once[i]
    {
    }
  }

  /** The pixel value the text is drawn with survives the noise floor as 5. */
  lemma {:induction false} WatermarkSurvivesNoiseFloor(modulus: Complex -> real)
    requires IsModulus(modulus)
    ensures Denoise(modulus(EmbeddingValue)) == 5.0
  {
    var m := modulus(EmbeddingValue);
    assert m >= 0.0 && m * m == 25.0;
    assert (m - 5.0) * (m + 5.0) == m * m - 25.0;
    ZeroProduct(m - 5.0, m + 5.0);
  }

  lemma ZeroProduct(a: real, b: real)
    requires b > 0.0 && a * b == 0.0
    ensures a == 0.0
  {
  }

  /** The band the text is expected in: ocr_image[20:120, :], cut as a Python slice is. */
  const BandTop: nat := 20
  const BandBottom: nat := 120

  function Crop<T>(g: seq<seq<T>>): (r: seq<seq<T>>)
    ensures |r| == if |g| <= BandTop then 0 else if |g| < BandBottom then |g| - BandTop else BandBottom - BandTop
    ensures forall i :: 0 <= i < |r| ==> r[i] == g[BandTop + i]
  {
    if |g| <= BandTop then [] else g[BandTop..if |g| < BandBottom then |g| else BandBottom]
  }

  /** ocr_image[ocr_image > 5] = 255, for one pixel. */
  function Binarize(v: int): (b: int)
    ensures b == v || b == 255
    ensures b == 255 <==> v > 5 || v == 255
  {
    if v > 5 then 255 else v
  }

  method BinarizeInPlace(img: array2<int>)
    modifies img
    ensures Grid(img) == MapGrid(old(Grid(img)), Binarize)
  {
    ghost var before := Grid(img);
    forall i, j | 0 <= i < img.Length0 && 0 <= j < img.Length1 && img[i, j] > 5 {
      img[i, j] := 255;
    }
    assert forall i, j :: 0 <= i < img.Length0 && 0 <= j < img.Length1 ==> before[i][j] == old(img[i, j]);
    assert forall i, j :: 0 <= i < img.Length0 && 0 <= j < img.Length1 ==> img[i, j] == Binarize(old(img[i, j]));
    GridEquals(img, MapGrid(before, Binarize));
  }

  /** An 8-bit picture, once binarised, is dark (0 to 5) or white (255); dark pixels keep their level. */
  lemma {:induction false} BinarizedIsTwoLevel(g: seq<seq<int>>, i: nat, j: nat)
    requires i < |g| && j < |g[i]| && 0 <= g[i][j] <= 255
    ensures var b := MapGrid(g, Binarize)[i][j];
      (0 <= b <= 5 && b == g[i][j]) || (b == 255 && g[i][j] > 5)
  {
    assert MapGrid(g, Binarize)[i][j] == Binarize(g[i][j]);
  }

  lemma {:induction false} BinarizeIdempotent(g: seq<seq<int>>)
    ensures MapGrid(MapGrid(g, Binarize), Binarize) == MapGrid(g, Binarize)
  {
    var once := MapGrid(g, Binarize);
    forall i | 0 <= i < |g|
      ensures MapGrid(once, Binarize)[i] == once[i]
    {
    }
  }

  /** grey_closing, grey_erosion and the scaling to uint8 keep the picture's shape. */
  ghost predicate KeepsShape(enhance: seq<seq<real>> -> seq<seq<int>>) {
    forall g, rows: nat, cols: nat :: IsGrid(g, rows, cols) ==> IsGrid(enhance(g), rows, cols)
  }

  /** The picture after the noise floor and the enhancement, before the band is cut out. */
  function Enhanced(g: seq<seq<Complex>>, modulus: Complex -> real,
                    enhance: seq<seq<real>> -> seq<seq<int>>): seq<seq<int>>
  {
    enhance(MapGrid(OcrImage(g, modulus), Denoise))
  }

  /**
   * The raster extract_watermark hands to character recognition, for
   * spectrogram g: the band of the enhanced picture, as wide as the
   * spectrogram, in which every pixel is white (255) or a dark pixel of
   * the enhanced picture (at most 5) left as it was.
   */
  function OcrRaster(g: seq<seq<Complex>>, modulus: Complex -> real,
                     enhance: seq<seq<real>> -> seq<seq<int>>): (raster: seq<seq<int>>)
    ensures KeepsShape(enhance) && |g| > 0 && IsGrid(g, |g|, |g[0]|) ==> IsGrid(raster, |Crop(g)|, |g[0]|)
    ensures var band := Crop(Enhanced(g, modulus, enhance));
      |raster| == |band| && forall i :: 0 <= i < |raster| ==> |raster[i]| == |band[i]|
    ensures var band := Crop(Enhanced(g, modulus, enhance));
      forall i, j :: 0 <= i < |raster| && 0 <= j < |raster[i]| ==> raster[i][j] == 255 || raster[i][j] == band[i][j] <= 5
  {
    var e := Enhanced(g, modulus, enhance);
    assert KeepsShape(enhance) && |g| > 0 && IsGrid(g, |g|, |g[0]|) ==> IsGrid(e, |g|, |g[0]|) by {
      if KeepsShape(enhance) && |g| > 0 && IsGrid(g, |g|, |g[0]|) {
        assert IsGrid(MapGrid(OcrImage(g, modulus), Denoise), |g|, |g[0]|);
      }
    }
    var band := Crop(e);
    assert forall i, j :: 0 <= i < |band| && 0 <= j < |band[i]| ==>
      MapGrid(band, Binarize)[i][j] == Binarize(band[i][j]);
    MapGrid(band, Binarize)
  }

  /** Copies a grid into a fresh 2-D array of its shape. */
  method ToArray<T>(g: seq<seq<T>>, rows: nat, cols: nat) returns (m: array2<T>)
    requires IsGrid(g, rows, cols)
    ensures fresh(m) && Grid(m) == g
  {
    m := new T[rows, cols]((i, j) requires 0 <= i < rows && 0 <= j < cols => g[i][j]);
    GridEquals(m, g);
  }

  /**
   * The image steps of extract_watermark: flip and take magnitudes, zero
   * what lies below the noise floor, enhance, cut out the band, binarise.
   * np.max of the enhanced picture raises when the spectrogram has no cell.
   */
  method ExtractRaster(spectrogram: array2<Complex>, modulus: Complex -> real,
                       enhance: seq<seq<real>> -> seq<seq<int>>) returns (r: Result<array2<int>, WatermarkError>)
    requires KeepsShape(enhance)
    ensures r.Err? <==> spectrogram.Length0 == 0 || spectrogram.Length1 == 0
    ensures r.Err? ==> r.error == EmptyImage
    ensures r.Ok? ==> fresh(r.value) && Grid(r.value) == OcrRaster(Grid(spectrogram), modulus, enhance)
  {
    var height, width := spectrogram.Length0, spectrogram.Length1;
    var image := OcrImage(Grid(spectrogram), modulus);
    var img := ToArray(image, height, width);
    SuppressNoise(img);
    var enhanced := enhance(Grid(img));
    assert IsGrid(Grid(img), height, width);
    assert IsGrid(enhanced, height, width);
    if height == 0 || width == 0 {
      return Err(EmptyImage);
    }
    var band := Crop(enhanced);
    var raster := ToArray(band, |band|, width);
    BinarizeInPlace(raster);
    r := Ok(raster);
  }

  /**
   * extract_watermark from the decoded samples on: normalise, analyse with
   * the same configuration as hiding, and produce the raster. Up to 512
   * samples the matrix would have a negative number of columns; up to 768
   * it has none, and the picture is empty.
   */
  method ExtractWatermark(samples: seq<real>, window: seq<real>, fft: seq<real> -> seq<Complex>,
                          modulus: Complex -> real, enhance: seq<seq<real>> -> seq<seq<int>>)
    returns (r: Result<array2<int>, WatermarkError>)
    requires |window| == WindowLength && KeepsLength(fft) && KeepsShape(enhance)
    ensures Normalize(samples).Err? ==> r == Err(Normalization(Normalize(samples).error))
    ensures Normalize(samples).Ok? && |samples| <= 512 ==> r == Err(Transform(NegativeDimension))
    ensures Normalize(samples).Ok? && 512 < |samples| <= 768 ==> r == Err(EmptyImage)
    ensures r.Ok? <==> Normalize(samples).Ok? && |samples| > 768
    ensures r.Ok? ==> fresh(r.value)
    ensures r.Ok? ==>
      Grid(r.value) == OcrRaster(AnalysisOf(Normalize(samples).value, window, fft), modulus, enhance)
  {
    var normalized := Normalize(samples);
    if normalized.Err? {
      return Err(Normalization(normalized.error));
    }
    var x := normalized.value;
    AnalysisColumns(|x|);
    var spectrogram := Stft.Stft(x, window, Hop, FftSize, fft);
    if spectrogram.Err? {
      return Err(Transform(spectrogram.error));
    }
    assert |Grid(spectrogram.value)[0]| == spectrogram.value.Length1 == NumCols(|x|, WindowLength, Hop);
    r := ExtractRaster(spectrogram.value, modulus, enhance);
  }

  /**
   * The two flips cancel: a text pixel drawn at raster row y inside the band
   * is seen at row y - 20 of the band an extraction of the stamped matrix
   * cuts out, in the same column, with the embedded magnitude; elsewhere the
   * band shows the magnitude of the matrix turned upside down.
   */
  lemma {:induction false} WatermarkLandsInBand(g: seq<seq<Complex>>, width: nat, text: string,
                                                render: Renderer, modulus: Complex -> real, y: nat, c: nat)
    requires IsGrid(g, |g|, width) && DrawsOnCanvas(render)
    requires BandTop <= y < BandBottom && y < |g| && c < width
    ensures var raster := render(|g|, width, text, WatermarkStyle);
      var band := Crop(OcrImage(Embedded(g, width, text, EmbeddingValue, WatermarkStyle, render), modulus));
      band[y - BandTop][c] ==
        if raster[y][c] > 0 then modulus(EmbeddingValue) else modulus(g[|g| - 1 - y][c])
  {
    var e := Embedded(g, width, text, EmbeddingValue, WatermarkStyle, render);
    var row := |g| - 1 - y;
    EmbeddedAt(g, width, text, EmbeddingValue, WatermarkStyle, render, row, c);
    assert OcrImage(e, modulus)[y] == MapGrid(e, modulus)[row];
  }
}
