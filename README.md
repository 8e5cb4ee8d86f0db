# Spectrogram watermark of the alexa checker, in Dafny

This project models the spectrogram watermarking used by the checker of the
"alexa" CTF service. The checker hides a flag as text in an audio file's
spectrogram and uploads the file. Later it checks that the service still
serves that same file. The model covers these parts:

- `Stft`: `stft()` and `istft()` of `stft.py`. This is the forward transform
  into a pre-zeroed matrix. Its frame loop is modelled as written and with
  the corrected guard. The inverse (even `nfft`) rebuilds the spectrum by
  conjugate mirroring, overlap-adds the frames and rescales the result.
- `Embedding`: `embed_text()` of `embedding.py`. It stamps a rendered,
  vertically flipped text raster into a matrix in place.
- `Watermarking`: `hide_watermark()` and `extract_watermark()` of
  `watermarking.py`. These cover the channel selection, the normalisation,
  the shared transform configuration (window 1024, hop 256, 1024 points),
  the embedding parameters, and the image steps of extraction: flip, noise
  floor, band crop and binarisation.
- `AudioUtils` and `Paths`: `convert_to_wav()` of `audioutils.py`, with
  `posixpath.splitext`, `basename` and `str.rsplit` as used there and by
  the checker.
- `AlexaChecker`: `_shortenFlag`, the names of the intermediate files,
  `place_flag` and `check_flag` of `alexachecker.py`. The network is
  modelled by the replies it gives.

Arrays the source updates in place stay arrays: the spectrogram matrix
(`array2`) and the output buffer of the inverse (`array`). Each method that
changes them is proved against a value-level specification, such as
`Spectrogram`, `Reconstruction`, `Embedded` or `MapGrid` with a per-pixel
function. The lemmas state the promised properties about those
specifications.

Several things are parameters and are never given a body: the FFT, the
inverse FFT, the Hamming window, the complex modulus, TrueType text
rendering, and the grey-level morphology with its 8-bit conversion. They
come with the shape facts the code relies on. `KeepsLength` says a
transform returns as many points as it gets. `DrawsOnCanvas` says the text
canvas has the matrix's size, so PIL clips any drawing outside it.
`KeepsShape` says the morphology keeps the picture's size. `IsModulus`
says the modulus is non-negative and squares to re² + im².

The documented behaviour and the code differ in a few places. The model
follows the code in each of them:

- The forward transform does not reject a signal shorter than the window.
  Such a signal gives one all-zero column, or none. numpy fails
  (`NegativeDimension`) only once W − L ≥ 2h.
- Binarisation sets pixels above 5 to 255. It leaves the other pixels
  unchanged instead of setting them to zero.
- Extraction can fail. It raises for an unknown file extension, an empty
  signal, a signal of at most 512 samples (a negative `num_cols`) and a
  signal of 513 to 768 samples (no column, so `np.max` of an empty
  picture). A silent signal does not raise in numpy; see "## Left out".
- Hiding and extraction call `stft()` with its loop as written, so for
  1024 + 256k samples the last column of their analysis stays zero. The
  corrected loop, `StftWholeFrames`, is the corrected half of the first
  finding below and is not used by the pipeline.
- The 8-bit conversion uses `np.uint8` without clipping.

## Model

| member | source | states |
|---|---|---|
| Stft.NumRows | checker/alexa/spectrogram/spectrogram/stft/stft.py:54 | the row count `nfft div 2 + 1` is `ceil((1 + nfft) / 2)`: 2r ≥ nfft + 1 and 2r < nfft + 3 |
| Stft.NumColsCountsHops | checker/alexa/spectrogram/spectrogram/stft/stft.py:55 | `num_cols` counts the first frame and every whole hop after it: from L ≥ W on, (num_cols − 1)·h ≤ L − W < num_cols·h; below W, at most one column, with L − W between (num_cols − 2)·h exclusive and (num_cols − 1)·h |
| Stft.TruncDiv | checker/alexa/spectrogram/spectrogram/stft/stft.py:55 | Python's `int()` of a quotient rounds toward zero, with bounds for non-negative and for negative numerators |
| Stft.FrameIndex | checker/alexa/spectrogram/spectrogram/stft/stft.py:58-73 | the loop as written visits frame j exactly when j·h + W < L, so every frame it reads lies strictly inside the signal |
| Stft.WholeFrameIndex | checker/alexa/spectrogram/spectrogram/stft/stft.py:58-73 | the loop with guard `<=` visits frame j exactly when the frame fits in the signal |
| Stft.ColumnsFilled | checker/alexa/spectrogram/spectrogram/stft/stft.py:55-73 | the loop never writes beyond `num_cols` columns. With L ≥ W it fills all but the last column when (L − W) mod h = 0, L = W included. With L < W it fills none and there is at most one column. `num_cols` is negative exactly when W − L ≥ 2h |
| Stft.WholeFramesFillMatrix | checker/alexa/spectrogram/spectrogram/stft/stft.py:55-61 | with the corrected guard the number of loop passes equals `num_cols` whenever L ≥ W |
| Stft.FitTo | checker/alexa/spectrogram/spectrogram/stft/stft.py:66 | `fft(v, n)` first cuts the input to n points or pads it with zeros |
| Stft.Column | checker/alexa/spectrogram/spectrogram/stft/stft.py:63-69 | a written column is the first `num_rows` points of the `nfft`-point transform of the windowed frame at j·h, so it has `num_rows` entries |
| Stft.Spectrogram | checker/alexa/spectrogram/spectrogram/stft/stft.py:54-73 | the returned matrix has `num_rows` × `num_cols` cells. Column j is the transform of frame j when the loop reaches it, and zero otherwise |
| Stft.Stft | checker/alexa/spectrogram/spectrogram/stft/stft.py:34-78 | `stft()` as written. Zero hop gives ZeroDivisionError, negative `num_cols` gives a np.zeros error, and `nfft` = 0 with a visited frame gives an fft error; it succeeds exactly otherwise. On success a fresh matrix equals `Spectrogram` with guard `<` |
| Stft.StftWholeFrames | checker/alexa/spectrogram/spectrogram/stft/stft.py:34-78 | the transform with the guard `idx + W <= L`. It has the same error cases and returns a fresh matrix equal to `Spectrogram` with every whole frame visited |
| Stft.AlignedLastColumnStaysZero | checker/alexa/spectrogram/spectrogram/stft/stft.py:55-61 | when L ≥ W and (L − W) mod h = 0, the last frame fits in the signal, yet the last column of `stft()`'s result is all zero |
| Stft.WholeFramesFillEveryColumn | checker/alexa/spectrogram/spectrogram/stft/stft.py:55-69 | with the corrected guard and L ≥ W, every column holds the transform of its own frame |
| Stft.Mirror | checker/alexa/spectrogram/spectrogram/stft/stft.py:118 | `hstack((X, conj(X[::-1][1:-1])))` has 2·len(X) − 2 points |
| Stft.MirrorIsConjugateSymmetric | checker/alexa/spectrogram/spectrogram/stft/stft.py:113-118 | for even `nfft` the rebuilt spectrum has exactly `nfft` points, starts with the column, and satisfies full[k] = conj(full[nfft − k]) for `num_rows` ≤ k < `nfft` |
| Stft.SynthesisFrame | checker/alexa/spectrogram/spectrogram/stft/stft.py:118-124 | `np.real(np.fft.ifft(X)) * window` for the mirrored column has the window's length and is zero wherever the window is |
| Stft.SumSquares | checker/alexa/spectrogram/spectrogram/stft/stft.py:127 | W0 = Σ window² is non-negative |
| Stft.OverlapAddStep | checker/alexa/spectrogram/spectrogram/stft/stft.py:115-124 | adding frame j to the buffer adds exactly its contribution at offset j·h to the sum of the earlier frames |
| Stft.OverlapAddWritesInBuffer | checker/alexa/spectrogram/spectrogram/stft/stft.py:93-124 | every write `x[b:b+nfft]` with b = j·h and j < `num_cols` lies inside the buffer of length nfft + (num_cols − 1)·h. The last write ends exactly at its end, and `b // h` reads column j |
| Stft.Reconstruction | checker/alexa/spectrogram/spectrogram/stft/stft.py:93-129 | the inverse's output has length nfft + (num_cols − 1)·h |
| Stft.Rescale | checker/alexa/spectrogram/spectrogram/stft/stft.py:129 | `x *= h / W0`: every sample of the buffer is multiplied, in place, by the same factor |
| Stft.AddFrame | checker/alexa/spectrogram/spectrogram/stft/stft.py:124 | `x[b:b+nfft] += frame` adds the frame at offset b and leaves every other sample unchanged |
| Stft.OverlapAddColumns | checker/alexa/spectrogram/spectrogram/stft/stft.py:95-124 | the loop over `b = 0, h, …` returns a fresh zero-started buffer holding the overlap-add of every column's windowed synthesis frame |
| Stft.Istft | checker/alexa/spectrogram/spectrogram/stft/stft.py:81-136 | `istft()` for even `nfft`. A negative buffer length is an error, then a zero hop is ZeroDivisionError. Otherwise the output is a fresh buffer equal to the overlap-add of all columns scaled by h / W0 |
| Embedding.Mask | checker/alexa/spectrogram/spectrogram/watermarking/embedding.py:17-19 | the cells selected by `np.where(np.flipud(raster) > 0)` form a grid with as many rows as the raster |
| Embedding.Stamp | checker/alexa/spectrogram/spectrogram/watermarking/embedding.py:20 | `mat[mask] = value` keeps the matrix's shape |
| Embedding.Embedded | checker/alexa/spectrogram/spectrogram/watermarking/embedding.py:9-20 | the raster is drawn on a canvas of the matrix's own height and width, so the result keeps that shape |
| Embedding.EmbeddedAt | checker/alexa/spectrogram/spectrogram/watermarking/embedding.py:17-20 | cell (r, c) becomes the embedding value exactly when raster pixel (height − 1 − r, c) is set, which is the vertical flip. Every other cell keeps its value |
| Embedding.EmbedIdempotent | checker/alexa/spectrogram/spectrogram/watermarking/embedding.py:17-20 | embedding the same text with the same arguments twice gives the matrix that embedding once gives |
| Embedding.MaskIgnoresContents | checker/alexa/spectrogram/spectrogram/watermarking/embedding.py:9-19 | which cells are overwritten depends on the matrix's shape, the text and the style only. Two matrices of one shape both hold the value at a cell, or both keep their own |
| Embedding.EmbedText | checker/alexa/spectrogram/spectrogram/watermarking/embedding.py:7-21 | `embed_text` updates the caller's matrix in place to `Embedded` of its old contents and returns the same matrix |
| Watermarking.FirstChannel | checker/alexa/spectrogram/spectrogram/watermarking/watermarking.py:25-28 | mono data is kept. Multi-channel data gives sample 0 of every frame, and none (numpy's IndexError) when there is no channel |
| Watermarking.MaxAbs | checker/alexa/spectrogram/spectrogram/watermarking/watermarking.py:31 | `np.max(np.abs(data))` bounds every magnitude and is attained by one of them |
| Watermarking.MaxAbsZero | checker/alexa/spectrogram/spectrogram/watermarking/watermarking.py:31 | the largest magnitude is zero exactly when every sample is zero |
| Watermarking.Normalize | checker/alexa/spectrogram/spectrogram/watermarking/watermarking.py:31 | an empty signal fails, and so does an all-zero signal. Otherwise the result has the input's length and a positive peak |
| Watermarking.NormalizedIntoUnit | checker/alexa/spectrogram/spectrogram/watermarking/watermarking.py:31 | the normalised signal lies in [−1, 1] and reaches −1 or 1. It is the input divided by its peak: y[i]·max = x[i] |
| Watermarking.AnalysisOf | checker/alexa/spectrogram/spectrogram/watermarking/watermarking.py:59-62 | both directions analyse with `stft()` as written (guard `<`), window 1024, hop 1024 // 4 = 256 and 1024 points, giving 513 rows and `num_cols` columns |
| Watermarking.AnalysisColumns | checker/alexa/spectrogram/spectrogram/watermarking/watermarking.py:59-62 | with that configuration `num_cols` is negative exactly up to 512 samples, zero exactly for 513 to 768 samples, and positive from 769 on |
| Watermarking.Watermarked | checker/alexa/spectrogram/spectrogram/watermarking/watermarking.py:35-42 | the signal written out, the resynthesis of the as-written analysis stamped with the text, has length 1024 + (num_cols − 1)·256 |
| Watermarking.HideWatermark | checker/alexa/spectrogram/spectrogram/watermarking/watermarking.py:17-43 | no channel, an empty or silent signal, and a signal of at most 512 samples are the failures, the last one being `NegativeDimension`. Otherwise the output is the resynthesis of the analysis stamped with the text, at value 5, origin (20, 20) and size 80. The checker's `_hideWatermark` (alexachecker.py:30-57) is the same code |
| Watermarking.OcrImage | checker/alexa/spectrogram/spectrogram/watermarking/watermarking.py:68 | `np.flipud(np.abs(S))` has the matrix's H rows, and pixel (i, j) is the modulus of matrix cell (H − 1 − i, j) |
| Watermarking.Denoise | checker/alexa/spectrogram/spectrogram/watermarking/watermarking.py:71 | a pixel becomes 0 exactly when it is below 0.2 (or already 0); any pixel left non-zero keeps its value, which is at least 0.2 |
| Watermarking.SuppressNoise | checker/alexa/spectrogram/spectrogram/watermarking/watermarking.py:71 | `img[img < 0.2] = 0` applied in place: every pixel becomes `Denoise` of its old value |
| Watermarking.DenoisedHasNoFaintPixels | checker/alexa/spectrogram/spectrogram/watermarking/watermarking.py:71 | for non-negative magnitudes, a pixel becomes 0 exactly when it was below 0.2, and otherwise keeps its value. No pixel lies strictly between 0 and 0.2 |
| Watermarking.DenoiseIdempotent | checker/alexa/spectrogram/spectrogram/watermarking/watermarking.py:71 | suppressing the noise twice gives what suppressing it once gives |
| Watermarking.WatermarkSurvivesNoiseFloor | checker/alexa/spectrogram/spectrogram/watermarking/watermarking.py:38-71 | the embedding value 5 has modulus 5 and passes the 0.2 floor unchanged |
| Watermarking.Crop | checker/alexa/spectrogram/spectrogram/watermarking/watermarking.py:76 | `[20:120, :]` keeps rows 20 to 119, which is min(H, 120) − 20 rows clamped at 0; row i is image row 20 + i |
| Watermarking.Binarize | checker/alexa/spectrogram/spectrogram/watermarking/watermarking.py:77 | a pixel keeps its value or becomes 255, and it is 255 afterwards exactly when it was above 5 or already 255 |
| Watermarking.BinarizeInPlace | checker/alexa/spectrogram/spectrogram/watermarking/watermarking.py:77 | `img[img > 5] = 255` applied in place: every pixel becomes `Binarize` of its old value |
| Watermarking.BinarizedIsTwoLevel | checker/alexa/spectrogram/spectrogram/watermarking/watermarking.py:77 | an 8-bit pixel is afterwards either unchanged and at most 5, or 255 because it was above 5 |
| Watermarking.BinarizeIdempotent | checker/alexa/spectrogram/spectrogram/watermarking/watermarking.py:77 | binarising twice gives what binarising once gives |
| Watermarking.OcrRaster | checker/alexa/spectrogram/spectrogram/watermarking/watermarking.py:68-77 | the raster has the band's rows of the enhanced picture, as many columns as the spectrogram when the enhancement keeps the shape, and every pixel is 255 or a dark pixel (at most 5) of the enhanced picture's band left as it was |
| Watermarking.ExtractRaster | checker/alexa/spectrogram/spectrogram/watermarking/watermarking.py:68-77 | `np.max` of an empty picture raises exactly when the spectrogram has no row or no column. Otherwise the image steps return a fresh raster equal to flip and modulus, then the noise floor, the enhancement, the band crop and binarisation, in that order |
| Watermarking.ExtractWatermark | checker/alexa/spectrogram/spectrogram/watermarking/watermarking.py:57-77 | an empty or silent signal fails the normalisation, up to 512 samples `stft()` fails with `NegativeDimension`, and 513 to 768 samples give an empty picture. Exactly from 769 samples on it returns the raster of the as-written analysis |
| Watermarking.WatermarkLandsInBand | checker/alexa/spectrogram/spectrogram/watermarking/watermarking.py:68-76 | `embed_text` (embedding.py:17) and extraction (line 68) flip by the same H rows. A text pixel set at raster row y, 20 ≤ y < 120, shows at row y − 20 of the extracted band, same column, with the embedded magnitude. Elsewhere the band shows the upside-down matrix |
| Paths.LastIndexOf | checker/alexa/alexachecker.py:106 | `rfind`: none exactly when the character is absent. Otherwise the index holds it and no later index does |
| Paths.LastIndexOfJoin | checker/alexa/alexachecker.py:106 | the last separator of p + sep + q, with q free of it, is at position len(p) |
| Paths.AfterLast | checker/alexa/alexachecker.py:106 | `rsplit(sep, 1)[-1]` is a suffix without the separator. It is preceded by a separator unless it is the whole string |
| Paths.BaseName | checker/alexa/spectrogram/spectrogram/watermarking/audioutils.py:11 | `basename` is the suffix after the last '/', has no '/', and is the whole path when there is no '/' |
| Paths.AfterLastOfJoin | checker/alexa/alexachecker.py:189 | whatever precedes the last separator, the part after it is returned |
| Paths.BaseNameOfJoin | checker/alexa/spectrogram/spectrogram/watermarking/audioutils.py:11 | the base name of a directory part followed by a name without '/' is that name |
| AudioUtils.TmpPath | checker/alexa/spectrogram/spectrogram/watermarking/audioutils.py:12 | the temporary path is "/tmp/" followed by the name |
| AudioUtils.SplitExt | checker/alexa/spectrogram/spectrogram/watermarking/audioutils.py:11 | stem + extension is the name. The extension is empty, or a dot with no further dot after a stem that has a non-dot character |
| AudioUtils.SplitExtOfJoin | checker/alexa/spectrogram/spectrogram/watermarking/audioutils.py:11 | a stem with a non-dot character followed by an extension splits back into exactly those two |
| AudioUtils.ConvertToWav | checker/alexa/spectrogram/spectrogram/watermarking/audioutils.py:5-24 | `ValueError` exactly when the extension is none of ".wav", ".flac" and ".ogg", compared case-sensitively |
| AudioUtils.ConvertedPath | checker/alexa/spectrogram/spectrogram/watermarking/audioutils.py:11-24 | a ".wav" path is returned unchanged, and ".flac" or ".ogg" give "/tmp/<stem>.wav" whatever the directory. Any other extension, ".WAV" included, is an error |
| AudioUtils.HiddenWavRefused | checker/alexa/spectrogram/spectrogram/watermarking/audioutils.py:11-24 | a file named ".wav" has no extension and is refused |
| AudioUtils.ConvertedLiesInTmp | checker/alexa/spectrogram/spectrogram/watermarking/audioutils.py:7-12 | a converted path lies directly in /tmp and is named after the input's stem, which has no '/' |
| AudioUtils.ConvertToWavIdempotent | checker/alexa/spectrogram/spectrogram/watermarking/audioutils.py:11-22 | the path returned is accepted again unchanged |
| AlexaChecker.ShortenFlag | checker/alexa/alexachecker.py:66-73 | a leading "FAUST_" is removed and any other flag is returned unchanged |
| AlexaChecker.ShortenFlagPrefixed | checker/alexa/alexachecker.py:73 | "FAUST_" + s becomes s. Only the leading occurrence goes: "FAUST_FAUST_" + s becomes "FAUST_" + s |
| AlexaChecker.ShortenFlagBounds | checker/alexa/alexachecker.py:73 | the length drops by 6 or not at all, and the flag is unchanged exactly when it lacks the prefix |
| AlexaChecker.PlanPlacement | checker/alexa/alexachecker.py:140-146 | the watermark is the shortened flag, and the two intermediate files are "/tmp/" + prefix + ".wav" and ".ogg" (its properties are stated by `IntermediateFiles`) |
| AlexaChecker.IntermediateFiles | checker/alexa/alexachecker.py:143-146 | the two intermediate files share the /tmp path of one uuid hex prefix and differ only in ".wav"/".ogg". Decoding the upload would land on the wav path |
| AlexaChecker.RedirectMatchesAsWritten | checker/alexa/alexachecker.py:183 | the written pattern, for a base URL whose only pattern syntax is '.': the base with each '.' matching any character but a newline, "/alexa/query/", 32 characters of [a-z0-9], and at most one final newline |
| AlexaChecker.RedirectAccepted | checker/alexa/alexachecker.py:183 | the intended check: exactly the base URL, "/alexa/query/" and 32 characters of [a-z0-9] |
| AlexaChecker.AcceptedRedirectMatches | checker/alexa/alexachecker.py:183 | every redirect the intended check accepts also matches the written pattern |
| AlexaChecker.AcceptedRedirectQueryId | checker/alexa/alexachecker.py:183-189 | for an accepted redirect, the text after its last '/' is a 32-character [a-z0-9] id, and the redirect is that id's query URL |
| AlexaChecker.PlaceFlag | checker/alexa/alexachecker.py:155-196 | a timeout gives TIMEOUT. OK and a stored record go together, exactly for status 200 and an accepted redirect. The record is the text after the redirect's last '/', which is its query id, and the upload's digest |
| AlexaChecker.PlaceFlagAsWritten | checker/alexa/alexachecker.py:155-196 | `place_flag` as written: TIMEOUT exactly on a timeout, otherwise OK or NOTWORKING. OK and a stored record go together, exactly for status 200 and a redirect the written pattern matches. The record is the text after the redirect's last '/' and the upload's digest, and that text is a 32-character id, possibly followed by a newline |
| AlexaChecker.MatchedRedirectQueryId | checker/alexa/alexachecker.py:183-189 | after the last '/' of a redirect the written pattern matches comes a 32-character [a-z0-9] id and at most one newline |
| AlexaChecker.CorrectedPlacementAgrees | checker/alexa/alexachecker.py:155-196 | wherever the intended check places the flag, `place_flag` as written returns the same verdict and stores the same record |
| AlexaChecker.TrailingNewlineMatches | checker/alexa/alexachecker.py:183 | the written pattern accepts a query URL followed by one newline |
| AlexaChecker.TrailingNewlineStored | checker/alexa/alexachecker.py:183-192 | with that redirect, `place_flag` as written reports OK and stores the 33-character id `id + "\n"`. check_flag then asks for another page; the corrected check refuses the redirect |
| AlexaChecker.TrailingNewlineId | checker/alexa/alexachecker.py:189 | `rsplit('/', 1)[-1]` of a query URL followed by a newline is the id with its newline |
| AlexaChecker.DotMatchesAnyCharacter | checker/alexa/alexachecker.py:183 | with base "http://10.66.1.2:8000", a redirect to host "10x66x1x2" matches the written pattern and is refused by the intended one |
| AlexaChecker.DownloadPath | checker/alexa/alexachecker.py:105-109 | the download is saved as "/tmp/" + the src's last path segment, which has no '/' |
| AlexaChecker.CheckFlag | checker/alexa/alexachecker.py:75-136 | without a record NOTFOUND. An exception escapes exactly when the page request fails other than by timeout, or, after a 200 page with a source, the download fails other than by timeout, or an ok download's file name is "", "." or ".." |
| AlexaChecker.CheckFlagOk | checker/alexa/alexachecker.py:75-136 | OK exactly when a record exists and its query page answers 200 with an audio source. The download must be ok, saved under a file name, and have the stored digest |
| AlexaChecker.CheckFlagNotFound | checker/alexa/alexachecker.py:76-93 | NOTFOUND exactly when no record is stored or the stored query's page answers 404 |
| AlexaChecker.CheckFlagNotWorking | checker/alexa/alexachecker.py:75-136 | NOTWORKING exactly when the stored query's page answers neither 200 nor 404, or has no audio source, or its download answers with an error status, or is saved under a file name and has another digest |
| AlexaChecker.CheckFlagTimeout | checker/alexa/alexachecker.py:85-115 | TIMEOUT exactly when the page request times out, or the audio request times out after a 200 page with a source |
| AlexaChecker.PlacedFlagChecks | checker/alexa/alexachecker.py:183-192 | after a successful placement, `check_flag` asks for exactly the page the upload was redirected to. It confirms the flag exactly when that page links the uploaded audio unchanged |

## Left out

- The values of the FFT, the inverse FFT, the periodic Hamming window, the complex modulus and Σ window². They are parameters constrained by length or by the defining equation of the modulus only. Floating-point rounding is not modelled, so the round trip istft(stft(x)) ≈ x is not stated.
- Watermarking.MaxAbs: `wavfile.read` gives 16-bit integer samples for 16-bit files, and `np.abs` of int16 wraps −32768 to −32768. The program's peak can then miss the largest magnitude, and normalising [−32768, 32767] gives −1.00003. The model takes real samples, so `MaxAbs` and the [−1, 1] bound of `NormalizedIntoUnit` hold of the model, not of 16-bit data with a −32768 sample.
- Watermarking.ExtractWatermark: takes one vector of samples. `extract_watermark` selects no channel (watermarking.py:57-62), so multi-channel data reaches `stft()` as a matrix and raises at the `* window` broadcast (stft.py:63) once a frame is visited. Multi-channel input to extraction is not modelled.
- Stft.NumCols: `int((L − W) / float(h))` is modelled as an exact truncating integer division, so float rounding for very large lengths is not captured. A negative hop is not modelled: hop lengths are naturals.
- The odd-`nfft` branch of `istft` (stft.py:101-112). It mirrors only `X[1::-1]` and slices rows of a 1×N array. No caller uses it, and `Istft` requires an even `nfft`.
- The `t` and `f` vectors (stft.py:76-77, 131-135) and `plot_spectrogram`: float ranges and display only.
- Stft.Istft: the 1×N output buffer is a one-dimensional array. Its preconditions are the ones the numpy broadcast needs: `num_rows` rows, a window of `nfft` points and a non-zero Σ window².
- TrueType rendering through PIL (embedding.py:8-16) is the `Renderer` parameter, including the clipping at the canvas edge. Only its grid shape is assumed.
- The grey closing and erosion, the `×255×10/max` scaling and the `np.uint8` cast (watermarking.py:72-73, 76) are the `enhance` parameter, with its shape assumed. The cast's platform-defined wrap above 255 and the NaN pixels of an all-zero picture (0/0) are not modelled. Only the `np.max` failure on an empty picture is.
- Watermarking.Normalize: an all-zero signal gives NaNs in numpy (0/0) and no exception. The model reports it as `SilentSignal` instead of continuing with NaN samples.
- WAV reading and writing, pydub decoding, `convert_wav_to_flac` and `convert_wav_to_ogg`. `HideWatermark` starts from decoded data and returns the samples to be written. `ExtractWatermark` starts from decoded samples; which file is decoded is `ConvertToWav`.
- Saving `test.png` and the `ocr_space` call (watermarking.py:87-92): the OCR module is not part of this model. Extraction ends with the raster handed to recognition.
- Watermarking.WatermarkLandsInBand is stated for the stamped matrix itself. The spectrogram of the resynthesised, re-encoded audio is not the stamped matrix, and the model says nothing about how much of the stamp survives.
- The network, lxml parsing, MD5 hashing, file writing and removal, `store_yaml`/`retrieve_yaml`, `random.choice`, uuid generation and logging. They enter the model as replies (`PageReply`, `DownloadReply`, `PostReply`), digests and the uuid hex prefix. Request exceptions other than timeouts escape `check_flag` (`Raises`). Opening a download path that names a directory raises too. Other file-system failures are not modelled.
- AlexaChecker.CheckFlag: the page parse is represented by the list of `src` attributes of `//audio/source[@src]`. Parser errors on malformed content are not modelled.
- The `__init__` file listing, `_generate_flag`, `setup.py` and the `__main__` blocks: setup, randomness and demos.

## Findings

| source | as written | input that shows it | evidently intended | confidence | as-written member | corrected member |
|---|---|---|---|---|---|---|
| checker/alexa/spectrogram/spectrogram/stft/stft.py:61 | `while idx + window_length < signal_length` stops one frame early | any signal with (L − W) mod h = 0, e.g. L = W + 256, W = 1024, h = 256: the second column stays zero although its frame fits | `<=`, so every whole frame is transformed and no column of `num_cols` stays zero | high, not executed | Stft.AlignedLastColumnStaysZero | Stft.WholeFramesFillEveryColumn |
| checker/alexa/alexachecker.py:183 | the pattern ends with `$`, which also matches before a final newline | redirect URL `base + "/alexa/query/" + id + "\n"` with a valid 32-character id | the URL must end right after the id (`\Z` or `re.fullmatch`) | medium, not executed | AlexaChecker.TrailingNewlineStored | AlexaChecker.PlaceFlag |
| checker/alexa/alexachecker.py:183 | the base URL is put into the pattern unescaped, so its dots match any character | base "http://10.66.1.2:8000", redirect to "http://10x66x1x2:8000/alexa/query/" + id | the base URL matched literally (`re.escape`) | medium, not executed | AlexaChecker.DotMatchesAnyCharacter | AlexaChecker.PlaceFlag |
