# hdr — response-curve recovery and HDR fusion, modelled in Dafny

This project models the core of `hdr`, a small C++ tool that builds high
dynamic range images from a stack of 8-bit exposures. It follows Debevec and
Malik, "Recovering High Dynamic Range Radiance Maps from Photographs"
(SIGGRAPH 1997). The model covers these parts:

- **Hat weighting function** (`WeightingFunctions`). The hat function and
  the 256-entry table filled from it.
- **Camera transfer function** (`Ctf`). The `CTF` class holds 256 response
  values, indexed by sample value. Which quantity they are depends on who
  made the curve (see below). It has a default constructor, a
  constructor from values, lookup, writing, loading from a curve file, and
  the linear curve generator.
- **Closed-form line fit** (`LinearRegression`). The normal-equation sums,
  slope, intercept and optional residual of `linearRegression`.
- **Response-curve solver** (`CtfSolver`). The `CTFSolver` class, its
  settings and the assembly of the over-determined system A·x = b that
  `solve` hands to the least-squares solve. It also covers how the curve and
  the sample irradiances are read back from the solution.
- **Per-pixel fusion** (`HdrMake`). `makeHDR` takes the weighted mean of
  ctf(z) − ln t over the exposures and returns its exp. This is equation 6
  of the paper when the curve holds the log exposures g(z). `makeHDRLinear` is the slope of a line fit, for
  a linear response curve.
- **Fusion set-up** (`HdrMakeSetup`). From `main` in `mainHDRMake.cpp`,
  only two parts: the toe/shoulder arithmetic that fixes the valid sample
  range, and the matte-driven list of pixels to fuse.

Floating point is modelled by `real`. The functions `exp` and `ln`, the
random generator and the SVD least-squares solve are parameters of the
methods that use them, and nothing is assumed about them. Decoded images
are sequences of byte planes (`Images`). Output images are `array2`
grids, written in place.

Where the documented behaviour of the program and its code disagree, the model
follows the code:

- `loadCTF` can return false after all 256 entries were overwritten, when
  the stream is no longer good at the end. It also leaves earlier entries
  overwritten when it stops at a bad line.
- A curve file of fewer than 256 positive lines whose last line has no
  newline does not stop at the missing lines: every read past the end
  fails, keeps the last line's string, and copies its value into the
  remaining entries. The load still reports failure.
- The normalisation row sets only A(k, 128) = 1. The code never writes its
  entry of b.
- The solver's unknowns 0..255 are the log exposures g(z) of the paper, but
  `solve` stores exp of them in the curve (`CurveOf`). `makeHDR` uses each
  curve entry directly as a log exposure, in w·(ctf(z) − ln t). For a curve
  made by the solver, the fused exponent is therefore the weighted mean of
  exp(g(z)) − ln t, not of g(z) − ln t. The linear curve that
  `makeLinearCTF(log(maxExpTime))` builds does hold log values.

## Model

| member | source | states |
|---|---|---|
| WeightingFunctions.Hat | src/WeightingFunctions.h:27-38 | bounds default to 0 and 255; requires lower < upper; the weight lies in [0, (upper − lower)/2], is positive exactly strictly inside (lower, upper), and is 0 at and beyond both bounds |
| WeightingFunctions.HatIsDistanceToNearerBound | src/WeightingFunctions.h:35-37 | strictly inside the range the weight is value − lower up to the midpoint and upper − value above it, i.e. the distance to the nearer bound |
| WeightingFunctions.HatSymmetric | src/WeightingFunctions.h:35-37 | hat(lower + d) == hat(upper − d) for every 0 ≤ d ≤ upper − lower |
| WeightingFunctions.HatMaximalAtMidpoint | src/WeightingFunctions.h:35-37 | no sample value weighs more than the midpoint (lower + upper)/2 |
| WeightingFunctions.DefaultHatIsDebevecMalik | src/WeightingFunctions.h:18-20 | with the default bounds 0 and 255, samples 0 and 255 weigh 0, 127 and 128 weigh 127, and none weighs more |
| WeightingFunctions.HatTable | src/WeightingFunctions.cpp:5-6 | 256 non-negative weights, zero at indices ≤ lower or ≥ upper and positive exactly strictly between |
| WeightingFunctions.MakeLUTHat | src/WeightingFunctions.cpp:3-8 | bounds default to 0 and 255; needs a table of at least 256 entries; afterwards entry i is hat(i, lower, upper) for every i < 256 and every later entry is unchanged |
| Ctf.FirstRejected | src/CTF.cpp:40-51 | the first read whose parsed value is not positive: every earlier read parses positive, and the found one does not |
| Ctf.OpenStream | src/CTF.cpp:31-35 | a freshly opened stream is good, has consumed nothing and leaves the string empty |
| Ctf.GetLine | src/CTF.cpp:41 | one `std::getline`: a failed or exhausted stream only fails again and keeps the string; otherwise the next line is read |
| Ctf.ReadValue | src/CTF.cpp:41-44 | the value of read i is line i while there is one, past the end the last line again when it lacks a newline, and 0 otherwise |
| Ctf.GoodAfter | src/CTF.cpp:57 | the stream is good after 256 reads exactly when the file has more than 256 lines, or exactly 256 with a final newline |
| Ctf.ReadsClosedForm | src/CTF.cpp:40-44 | after n reads the stream has consumed min(n, lines) lines, has failed exactly when n exceeds the line count, is at end of file as the final newline decides, and holds the value `ReadValue` gives for read n − 1 |
| Ctf.StreamGoodAfterReads | src/CTF.cpp:57 | the stream's flags after 256 reads agree with `GoodAfter` |
| Ctf.ReadNext | src/CTF.cpp:41-44 | one read of the loader: the stream advances by one `getline` and the value is the one `ReadValue` gives |
| Ctf.LoadOutcome | src/CTF.cpp:30-61 | an unopenable file gives false and the curve unchanged; success means the stream stays good and every one of the 256 reads parsed positive, and the curve then holds them; entries before the first rejected read are overwritten and later ones kept, success or not |
| Ctf.ShortFileFails | src/CTF.cpp:40-58 | a file of fewer than 256 positive lines never loads; its lines fill the first entries; an unterminated last line fills every remaining entry, and otherwise the remaining entries keep their old values |
| Ctf.LinearCurve | src/CTF.cpp:64-78 | 256 values starting at minValue and ending at maxValue, consecutive values a step (max − min)/255 apart |
| Ctf.LinearCurveIncreasing | src/CTF.cpp:70-75 | the linear curve is strictly increasing |
| Ctf.CTF.constructor | src/CTF.cpp:6-14 | the default curve has 256 entries, all 0 |
| Ctf.CTF.FromValues | src/CTF.cpp:16-20 | requires exactly 256 values and holds them unchanged |
| Ctf.CTF.Eval | src/CTF.h:51-54 | the response of every 8-bit sample value is entry `pixelVal` of the curve |
| Ctf.CTF.Write | src/CTF.cpp:22-27 | writes one value per entry, in index order |
| Ctf.CTF.LoadCTF | src/CTF.cpp:30-61 | result and new curve are those of `LoadOutcome` on the old curve, and the curve keeps 256 entries |
| Ctf.CTF.MakeLinearCTF | src/CTF.cpp:64-78 | requires min < max, with min 0 by default; the new curve is the linear curve from min to max |
| Ctf.LoadAfterWrite | src/CTF.cpp:22-27 | a written curve of positive values, one newline-terminated line per entry, loads back exactly in the model of printed values, replacing any previous curve |
| Ctf.LoadRejectsZeroEntry | src/CTF.cpp:46-51 | a written curve with a non-positive entry, such as the default all-zero curve, never loads successfully |
| LinearRegression.LineIsAffine | src/LinearRegression.h:27 | a line rises by m per unit of x and takes the value b at 0 |
| LinearRegression.DefaultLine | src/LinearRegression.h:30-31 | the default line (slope 1, intercept 0) is the identity |
| LinearRegression.PrefixSumReadsPrefix | src/LinearRegression.h:67-74 | the sums over the first N points read only rows 0..N−1 |
| LinearRegression.SpreadPositiveIffDistinct | src/LinearRegression.h:78 | the slope's divisor N·Σx² − (Σx)² is never negative and is zero exactly when all N x are equal |
| LinearRegression.NormalEquations | src/LinearRegression.h:75-79 | the fitted slope and intercept solve both normal equations of least squares |
| LinearRegression.FitThroughMean | src/LinearRegression.h:75-79 | the fitted line passes through the mean point (x̄, ȳ) |
| LinearRegression.FitRecoversLine | src/LinearRegression.h:78-79 | points on y = m0·x + b0 with not all x equal are fitted by exactly that line |
| LinearRegression.ResidualNonNegative | src/LinearRegression.h:85-93 | a residual is never negative |
| LinearRegression.ResidualZeroOnLine | src/LinearRegression.h:85-93 | points on a line leave residual 0 against it |
| LinearRegression.CollinearFitHasNoResidual | src/LinearRegression.h:78-93 | collinear input is fitted with residual exactly 0 |
| LinearRegression.FitMinimizesResidual | src/LinearRegression.h:78-93 | no line has a smaller residual than the fitted one: the fit is the least-squares line |
| LinearRegression.FitReadsPrefix | src/LinearRegression.h:57-93 | point lists that agree on rows 0..N−1 get the same fit and residual |
| LinearRegression.SumsDetermineFit | src/LinearRegression.h:65-79 | running sums equal to Σx, Σy, Σxy, Σx² give a zero divisor exactly when all x are equal, and otherwise the least-squares line |
| LinearRegression.RunningSums | src/LinearRegression.h:63-74 | the single pass yields Σx, Σy, Σxy and Σx² over the first N points |
| LinearRegression.SquaredError | src/LinearRegression.h:85-93 | the second pass yields Σ(yᵢ − line(xᵢ))² over the first N points |
| LinearRegression.LinearRegression | src/LinearRegression.h:49-96 | requires 2 ≤ N ≤ rows; no line exactly when all x are equal, otherwise the least-squares fit of the first N points; the residual is that fit's, and only when asked for |
| CtfSolver.LessIsEarlier | src/CTFSolver.h:174-176 | pairs are ordered exactly as their exposure times, and the path plays no part |
| CtfSolver.LessIsStrictOrder | src/CTFSolver.h:174-176 | the order is irreflexive, asymmetric and transitive |
| CtfSolver.HatFunc | src/CTFSolver.h:141-152 | the full-range hat: the distance of z to the nearer of 0 and 255 |
| CtfSolver.HatFuncParameterized | src/CTFSolver.h:155-171 | requires cut < 255 − cut; zero at and beyond cut and 255 − cut, the distance to the nearer cut between them |
| CtfSolver.WeightTableIsHatTable | src/CTFSolver.cpp:94-113 | the HAT table is the hat table on [0, 255] and the HAT_10 table the one on [10, 245]; no weight is negative; HAT_10 weighs nothing at or beyond 10 and 245 |
| CtfSolver.MakeWeightLut | src/CTFSolver.cpp:94-113 | fills a fresh 256-entry table with the weight of every sample value under the chosen function |
| CtfSolver.RandomInt | src/CTFSolver.cpp:21-26 | requires max > min; the value lies in [min, max) and is min plus the generator output modulo the range width |
| CtfSolver.RandomIntCoversRange | src/CTFSolver.cpp:21-26 | every value of the range is reachable by some generator output |
| CtfSolver.RandomSamples | src/CTFSolver.cpp:35-49 | exactly numSamps positions, each inside the width-by-height image |
| CtfSolver.GenRandomSamples | src/CTFSolver.cpp:35-49 | the positions drawn are those of `RandomSamples` for the same generator outputs |
| CtfSolver.Sampled | src/CTFSolver.cpp:144-157 | one row of sample values per image, one value per sample position |
| CtfSolver.System | src/CTFSolver.cpp:127-135 | A and b have numSamples·images + 257 rows, and A has 256 + numSamples columns |
| CtfSolver.SystemDataRow | src/CTFSolver.cpp:143-174 | row j·numSamples + i is the data row of sample i in image j: w at the sample's value, −w at column 256 + i, and w·ln t_j in b |
| CtfSolver.DataRowIsSampleEquation | src/CTFSolver.cpp:160-170 | that row applied to x states w·(g(z) − ln E_i) = w·ln t_j, the sample's equation of the paper |
| CtfSolver.NormalizationRow | src/CTFSolver.cpp:177 | the row after the data rows has coefficient 1 at column 128 and nothing else, and its entry of b is not written |
| CtfSolver.SystemSmoothRow | src/CTFSolver.cpp:181-190 | row numImages·numSamples + 1 + i is λ·w(i+1)·[1, −2, 1] at columns i, i+1, i+2, with b unwritten |
| CtfSolver.SmoothingRowIsSecondDifference | src/CTFSolver.cpp:181-190 | that row applied to x is λ·w(i+1) times the second difference g(i) − 2g(i+1) + g(i+2) |
| CtfSolver.LastRowUnwritten | src/CTFSolver.cpp:128-190 | the last of the 257 reserved rows is never written |
| CtfSolver.RhsOnDataRowsOnly | src/CTFSolver.cpp:170-190 | an entry of b is written exactly on the data rows |
| CtfSolver.WrittenColumnsInBounds | src/CTFSolver.cpp:127-190 | every column written in any row lies inside A's 256 + numSamples columns, whenever there is at least one sample |
| CtfSolver.Times | src/CTFSolver.h:26 | the exposure time of every image, as a value |
| CtfSolver.WriteDataRows | src/CTFSolver.cpp:143-174 | the image-by-sample loop fills exactly the data rows of the system, in order |
| CtfSolver.WriteCurveRows | src/CTFSolver.cpp:176-190 | the normalisation and smoothing rows complete A and b as the system defines them |
| CtfSolver.AssembleSystem | src/CTFSolver.cpp:124-190 | the assembled A and b are exactly the system of the stack, the samples and the weight table |
| CtfSolver.CurveOf | src/CTFSolver.cpp:200-205 | 256 curve values, value z being exp of unknown z |
| CtfSolver.PixelsOf | src/CTFSolver.cpp:212-218 | one result per sample, in sample order, at the sample's position, with irradiance exp of unknown 256 + i |
| CtfSolver.ReadCurve | src/CTFSolver.cpp:200-204 | the transfer loop yields exactly the curve read off the solution |
| CtfSolver.ReadPixels | src/CTFSolver.cpp:212-218 | the extraction loop yields exactly the sample results read off the solution, in sample order |
| CtfSolver.CTFSolver.constructor | src/CTFSolver.cpp:52-61 | requires at least two images; stores the images, sample count, λ and channel, with the HAT weighting |
| CtfSolver.CTFSolver.SetWeightingFunc | src/CTFSolver.h:113-118 | the getter returns the new weighting and every other setting is unchanged |
| CtfSolver.CTFSolver.SetNumImageSamples | src/CTFSolver.h:120-125 | the getter returns the new sample count and every other setting is unchanged |
| CtfSolver.CTFSolver.SetSmoothingValue | src/CTFSolver.h:127-132 | the getter returns the new λ and every other setting is unchanged |
| CtfSolver.CTFSolver.SetChannelIndex | src/CTFSolver.h:134-139 | the getter returns the new channel and every other setting is unchanged |
| CtfSolver.CTFSolver.Solve | src/CTFSolver.cpp:87-223 | requires positive exposure times, as the code asserts; the curve is exp of the first 256 unknowns of the least-squares solution of the assembled system; the sample results are returned exactly when asked for, exp of the remaining unknowns |
| HdrMake.PixelSamples | src/mainHDRMake.cpp:77-78 | the pixel's value in every image of the stack, in image order |
| HdrMake.LogTimes | src/mainHDRMake.cpp:80-81 | ln of every image's exposure time |
| HdrMake.CountPositiveIffWeightPositive | src/mainHDRMake.cpp:93-98 | with non-negative weights, P > 0 exactly when the denominator Σw is positive, so the good branch never divides by 0 |
| HdrMake.NumeratorBounds | src/mainHDRMake.cpp:74-95 | estimates g(z) − ln t within [lo, hi] bound the numerator by lo·Σw and hi·Σw |
| HdrMake.RadianceIsWeightedMean | src/mainHDRMake.cpp:97-102 | when P ≠ 0 the exponent of the fused value lies between the least and greatest per-exposure estimate g(z) − ln t of the weighted samples |
| HdrMake.ConsistentStackFusesExactly | src/mainHDRMake.cpp:97-106 | if every weighted sample gives the same log irradiance e the pixel fuses to exp(e); with P = 0 it is 0 |
| HdrMake.BadPixelsAtMostListed | src/mainHDRMake.cpp:103-110 | the bad count is at most the number of pixels, and equals it exactly when no pixel has a weighted sample |
| HdrMake.ValidPointsSamples | src/mainHDRMake.cpp:147-158 | there are at most as many valid points as images, and each pairs a value strictly inside (validBegin, validEnd) with the time of one of the images |
| HdrMake.ValidPointsIncreasing | src/mainHDRMake.cpp:149-156 | with strictly increasing times the points are stored in increasing time order, all before the time of the next image |
| HdrMake.DistinctTimesGiveSpread | src/mainHDRMake.cpp:164-169 | with strictly increasing times, two or more valid points never all share one x, so the fit's divisor is never 0 |
| HdrMake.LinearResponseRecovered | src/mainHDRMake.cpp:160-174 | valid samples on z = e·t + c give the pixel value e with residual 0 |
| HdrMake.ValidPointsOnLine | src/mainHDRMake.cpp:149-158 | valid samples on z = e·t + c give points on y = e·x + c |
| HdrMake.WeightedCountIsValidCount | src/mainHDRMake.cpp:153-156 | the hat weight is positive exactly for valid samples, so P of `makeHDR` equals matRow of `makeHDRLinear` for the same range |
| HdrMake.LinearBadPixelsAtMostListed | src/mainHDRMake.cpp:164-197 | each listed pixel adds at most one bad pixel; the count is 0 exactly when every pixel has two valid samples and a non-negative slope |
| HdrMake.FusePixel | src/mainHDRMake.cpp:73-106 | the pixel's value is the weighted mean of equation 6, or 0, and it is bad exactly when no sample carries weight |
| HdrMake.StackCovers | src/mainHDRMake.cpp:69-78 | every image of a same-size stack has a sample at every listed in-bounds pixel |
| HdrMake.AllListedWritten | src/mainHDRMake.cpp:69-108 | once every listed pixel is written, a listed entry holds its value and any other entry is unchanged |
| HdrMake.WriteListed | src/mainHDRMake.cpp:102-104 | writing one listed pixel extends the set of written pixels by one and touches nothing else |
| HdrMake.FuseStep | src/mainHDRMake.cpp:69-108 | one pass of the pixel loop: the bad count and the written pixels both advance by one pixel |
| HdrMake.MakeHDR | src/mainHDRMake.cpp:45-111 | the result is the number of listed pixels with no weighted sample; each listed entry of outHDR holds its fused radiance and every other entry is unchanged |
| HdrMake.CountByte | src/mainHDRMake.cpp:188-189 | the 8-bit cast of the sample count is the count itself below 256 |
| HdrMake.SampleCountFitsByte | src/mainHDRMake.cpp:188 | with fewer than 256 images the count written to outN is exact |
| HdrMake.FitPixel | src/mainHDRMake.cpp:146-181 | the slope of the fit (0 with fewer than two valid samples), the number of valid samples, the residual (−1 without a fit), and bad exactly when there are fewer than two samples or the slope is negative |
| HdrMake.FitStep | src/mainHDRMake.cpp:142-195 | one pass of the pixel loop: the bad count and the three grids advance by one pixel |
| HdrMake.StoreFit | src/mainHDRMake.cpp:183-193 | writes the slope, and the count and residual only to the grids that are present |
| HdrMake.MakeHDRLinear | src/mainHDRMake.cpp:115-198 | the result is the number of bad pixels; listed entries of outHDR hold the slope, of outN the sample count and of outR the residual, each only when the grid is present; all other entries are unchanged |
| HdrMakeSetup.RangeIsSums | src/mainHDRMake.cpp:302-336 | parsing fails with status 5 exactly when some toe or shoulder size lies outside [0, 255]; otherwise the range is (Σ toe sizes, 255 − Σ shoulder sizes) |
| HdrMakeSetup.TotalsNonNegative | src/mainHDRMake.cpp:321-336 | accepted sizes only raise the start and lower the end |
| HdrMakeSetup.AcceptedRangeIsBytes | src/mainHDRMake.cpp:321-336 | an accepted range starts at or above 0 and ends at or below 255, so a non-empty one is a byte range |
| HdrMakeSetup.ParseValidRange | src/mainHDRMake.cpp:318-336 | the option loop, with its early return, computes the range of the whole option list |
| HdrMakeSetup.RejectionIsFinal | src/mainHDRMake.cpp:323-334 | after a rejected size, later options do not change the outcome |
| HdrMakeSetup.ColumnIsKept | src/mainHDRMake.cpp:486-494 | one column of the scan lists exactly the kept pixels of that column, in increasing y |
| HdrMakeSetup.ColumnsAreKept | src/mainHDRMake.cpp:485-495 | the scan over x columns lists exactly the kept in-bounds pixels, each once, in x-major order |
| HdrMakeSetup.FullColumns | src/mainHDRMake.cpp:505-510 | without a matte the first x columns hold x·height pixels, with (a, b) at position a·height + b |
| HdrMakeSetup.PixelListIsKept | src/mainHDRMake.cpp:477-517 | a successful list is non-empty, in x-major order, in bounds, and holds exactly the pixels white in all three matte channels (every pixel without a matte) |
| HdrMakeSetup.PixelListErrors | src/mainHDRMake.cpp:477-517 | status 10 exactly for an unloadable matte, 9 exactly for a matte of the wrong size or channel count, 11 exactly when no in-bounds pixel is kept |
| HdrMakeSetup.NoMatteListsEveryPixel | src/mainHDRMake.cpp:503-517 | without a matte the list holds all width·height pixels, (x, y) at x·height + y, and fails only for an empty image |
| HdrMakeSetup.PixelsToConsider | src/mainHDRMake.cpp:476-517 | the nested scan builds exactly the pixel list, or the error status |

## Left out

- Image decoding (CImg), file and stream I/O, usage text and saving images. Decoded images are inputs: sequences of byte planes with their dimensions.
- The SVD least-squares solve (`jacobiSvd(...).solve(b)`). It is a parameter `lsq`, only required to return one value per unknown.
- Floating point: single precision, rounding, and `exp`/`ln`, which are uninterpreted parameters.
- `rand()`: its outputs are the parameter `draws`. The two calls of `randomInt` for one sample position are taken in x-then-y order; C++ leaves that order unspecified. The bound rand() ≤ RAND_MAX is dropped: draws are unbounded, so `RandomIntCoversRange` holds for every width. With glibc, where RAND_MAX is INT_MAX, that is also true of the program; with RAND_MAX = 32767, a range wider than 32768 leaves some values unreachable.
- Number parsing and printing. `strtod` is replaced by an already parsed sequence of lines, with 0 for a line that does not parse, and `operator<<` by the sequence of values written. The program prints floats with six significant digits, so its write-then-load round trip is only approximate; `LoadAfterWrite` is exact only for the values as modelled.
- A stream error other than end of file (the bad bit) is not modelled.
- `CTFSolver::checkImagesOK`: its body is not part of this model. `CTFSolver::writePixelPoints`, the two `operator<<` of `CTFSolver` and `ImageExposurePair`, `test()` and the remainder of `main` (argument parsing, bloom discarding, output) are I/O and are left out. `main.cpp` is not part of this model.
- `CTF()` and `makeLinearCTF` are defined in `CTF.cpp` but not declared in `CTF.h`; they are modelled as members of `CTF` all the same.
- Entries of A and b that the code never writes: Eigen does not clear them, so the model leaves them unwritten (absent from a row's map, `None` in b) and claims nothing about their value.
- The float assertion `numTerm >= 0` in `makeHDR` (mainHDRMake.cpp:88) is not modelled; `makeHDR`'s unused `outN`/`outR` parameters are dropped.
- Ctf.CTF.Write: the curve file is the sequence of values; their text form is not modelled.
- LinearRegression.LinearRegression: when all x are equal the code divides by zero; the model returns no line instead of an infinite or undefined slope.
- HdrMake.MakeHDRLinear: requires strictly increasing exposure times: the program sorts the stack by time (mainHDRMake.cpp:394), and the model also excludes two equal times, for which the code divides by zero once all valid samples share one time. It also requires `outR` not to be `outHDR`.
- HdrMake.FitPixel: the rows of the point matrix past the valid samples keep stale values from earlier pixels; the model states only that the fit reads the first rows.
- HdrMake.MakeHDR: requires validBegin < validEnd, which the program asserts before fusing (mainHDRMake.cpp:533), and a response curve of 256 entries.
- HdrMake.CountByte: the 8-bit cast of the sample count is stated only below 256, as the code asserts; above it the cast wraps modulo 256.
- HdrMakeSetup.PixelsToConsider: the matte scan and the full scan are one loop with a keep test; exit codes become `Err` statuses; a decoded matte is required to have the dimensions it reports.
- CtfSolver.CTFSolver.Solve: the sample results are returned as an optional sequence rather than appended to a caller's empty vector.
