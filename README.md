# im_ed image filters in Dafny

This project models the core of `im_ed`, a command-line tool that loads a JPEG or
PNG image, runs a chain of filters on its interleaved 8-bit pixel buffer, and
writes the result. The filters are grayscale, invert, brightness, contrast, sepia,
a Gaussian blur built from three box blurs, and Sobel edge detection. Each filter
can run on an OpenMP team or on one thread, as the global `use_thread` says.
Benchmark mode runs every filter both ways.

Modules, one per source file of the core:

- `ImageUtils` (`image_utils.dfy`): `CLAMP`, `JPEG_QUALITY`, `CACHE_BLOCK_SIZE`.
- `Raster` (`raster.dfy`): the shared buffer vocabulary.
  - Samples are bytes, stored pixel by pixel in `(y*width + x)*channels + c` order.
  - `Mode` stands for `use_thread`.
  - A `Schedule` is the order in which a parallel loop's iterations happen: any
    permutation in parallel mode, ascending order in sequential mode.
- `ColorFilters` (`color_filters.dfy`): invert, brightness, contrast, grayscale
  (with its 32x32 cache tiles) and sepia. Each is an in-place method on an
  `array`, proved equal to a function of the old buffer.
- `BoxBlur` (`box_blur.dfy`): the running-sum horizontal and vertical box blurs,
  including the phases at the left and right of each line, and the Gaussian blur.
- `EdgeDetect` (`edge_detect.dfy`): the luma pass, the Sobel pass and the border pass.
- `StringUtils` (`string_utils.dfy`): `is_number` and `tmp_atof`.
- `FileUtils` (`file_utils.dfy`): `is_valid_expression` and the magic-number
  test of `file_format`.
  - The JPEG start-of-image marker comes from ITU-T T.81, Annex B, Table B.1.
  - The PNG signature comes from section 5.2 of the PNG Specification (ISO/IEC 15948).
- `Cli` (`cli.dfy`): `main.c`.
  - The filter registry and `validate`.
  - The in-place removal of `--benchmark` from `argv`.
  - The walk over the filter arguments and the `use_thread` toggling of benchmark mode.
  - The choice of encoder from the output name.

Floats are exact rationals (`real`). A C cast of a non-negative float to an
integer type is `Floor`. Whether a parallel loop runs on a team or on one thread
does not change its result: each kernel's postcondition does not mention the mode.

The source uses two red weights for grey. `grayscale` weighs red by 0.298
(src/filter.c:413), while the luma of `edge_detect` (src/filter.c:314) and
`grayscale_simd` (src/filter_simd.c:13) use 0.299. The model keeps each kernel's
own weight, so pure red (255, 0, 0) becomes grey 75 under `grayscale`
(`ColorFilters.GrayOfRed`).

## Model

| member | source | states |
|---|---|---|
| ImageUtils.Clamp | include/image_utils.h:7 | The result lies in [0, 255]. It is the input when the input lies in that range, 255 above it and 0 below it. |
| ImageUtils.ClampIdempotent | include/image_utils.h:7 | Clamping an already clamped value changes nothing. |
| ImageUtils.ClampMonotone | include/image_utils.h:7 | CLAMP keeps the order of its arguments. |
| Raster.Schedule | src/filter.c:42-44 | The iterations of a parallel loop run each exactly once, in some order. With `use_thread` off the order is ascending. |
| Raster.ScheduleDone | src/filter.c:42-44 | After the last iteration every index below n has been visited, and nothing else has. |
| Raster.IdxCoords | src/filter.c:429 | `(y*width + x)*channels + c` lies inside the buffer, and the column, row and channel recovered from it are x, y and c. |
| ColorFilters.InvertWrites | src/filter.c:465-482 | Channels 0..2 of every pixel become 255 minus their old value. Channel 3 and above are not written. |
| ColorFilters.InvertInvolution | src/filter.c:465-482 | Inverting twice gives back the original buffer. |
| ColorFilters.Invert | src/filter.c:465-482 | The new buffer is the inversion of the old one, in both modes. |
| ColorFilters.BrightnessSample | src/filter.c:495-496 | The new sample is the product with the factor truncated, or 255 when the product exceeds 255. |
| ColorFilters.BrightnessIdentity | src/filter.c:484-504 | Factor 1.0 leaves the buffer unchanged. |
| ColorFilters.Brightness | src/filter.c:484-504 | A factor outside [0.1, 2.0] is refused and leaves the buffer as it was. Otherwise every sample, alpha included, is scaled. |
| ColorFilters.ContrastSample | src/filter.c:515-517 | `factor*(c-128)+128`, clamped to [0, 255] and truncated. |
| ColorFilters.ContrastIdentity | src/filter.c:506-526 | Factor 1.0 leaves the buffer unchanged. |
| ColorFilters.ContrastMonotone | src/filter.c:515-517 | For a positive factor, a darker sample never comes out brighter than a lighter one. |
| ColorFilters.Contrast | src/filter.c:506-526 | A factor outside [0.1, 2.0] is refused and leaves the buffer as it was. Otherwise every sample goes through the contrast curve. |
| ColorFilters.GrayValue | src/filter.c:430-431 | The grey value is `0.298 R + 0.587 G + 0.114 B` truncated. It is never above the brightest channel. |
| ColorFilters.GrayscaleSample | src/filter.c:429-435 | R, G and B of every pixel become its grey value. Any fourth channel is kept. |
| ColorFilters.GrayscaleUniform | src/filter.c:433-435 | After grayscale the three colour samples of each pixel are equal. |
| ColorFilters.GrayOfRed | src/filter.c:413-415 | Pure red becomes grey 75. |
| ColorFilters.Grayscale | src/filter.c:411-463 | The tiled walk, over 32x32 blocks and bands of rows in any order, leaves exactly the grayscale of the old buffer. |
| ColorFilters.SepiaWarm | src/filter.c:534-536 | The sepia output is always warm: red >= green >= blue. |
| ColorFilters.SepiaOfWhite | src/filter.c:534-536 | White becomes (255, 255, 238). |
| ColorFilters.SepiaKeepsAlpha | src/filter.c:554-556 | Sepia writes only R, G and B, so the alpha channel is kept. |
| ColorFilters.Sepia | src/filter.c:528-574 | Channel counts other than 3 and 4 are refused with the buffer unchanged. Otherwise each pixel is recoloured from its original R, G and B. |
| BoxBlur.Clip | src/filter.c:48-85 | A position before the line reads sample 0, and one past it reads the last sample. |
| BoxBlur.WindowLeftPad | src/filter.c:48-56 | The initial sum, `src[0]*(r+1)` plus the first r samples, is the window centred one before the line with its left part padded by sample 0. |
| BoxBlur.WindowStep | src/filter.c:58-80 | Each step of a running sum removes the sample that leaves the window and adds the one that enters it, in every phase. |
| BoxBlur.FloorOfMean | src/filter.c:40 | `(unsigned char)(val * iarr)` with `iarr = 1/(2r+1)` is the integer quotient of val by 2r+1. |
| BoxBlur.BoxAt | src/filter.c:63-65 | The blurred value is the truncated mean of the 2r+1 window samples. |
| BoxBlur.BoxAtInterior | src/filter.c:68-75 | Away from the ends of the line, that mean is over the 2r+1 samples around x. |
| BoxBlur.BoxAtUniform | src/filter.c:58-85 | A line of a single value blurs to itself. |
| BoxBlur.BlurSample | src/filter.c:39-143 | Each colour sample of a row or column becomes the box mean of its line at that position. |
| BoxBlur.BlurKeepsAlpha | src/filter.c:88-90 | Both passes copy channel 3 unchanged. |
| BoxBlur.BoxHBlur | src/filter.c:39-143 | The horizontal pass writes exactly the box blur of every row into `dst`. |
| BoxBlur.BoxVBlur | src/filter.c:145-254 | The vertical pass writes exactly the box blur of every column into `dst`. |
| BoxBlur.BoxBlurPasses | src/filter.c:256-260 | `box_blur` is the horizontal pass into `temp`, then the vertical pass into `dst`. |
| BoxBlur.BoxBlurKeepsAlpha | src/filter.c:256-260 | One box blur keeps the alpha channel. |
| BoxBlur.BlurChainSnoc | src/filter.c:280-285 | Each further round blurs the result of the rounds before it. |
| BoxBlur.BlurChainKeepsAlpha | src/filter.c:280-285 | The whole Gaussian chain keeps the alpha channel. |
| BoxBlur.GaussianBlur | src/filter.c:262-289 | A sigma outside [1, 10] is refused with the buffer unchanged, on any image. Otherwise the buffer becomes three box blurs in a row, at the radii for that sigma. |
| EdgeDetect.Luma | src/filter.c:314 | The luma is `0.299 R + 0.587 G + 0.114 B` truncated. |
| EdgeDetect.LumaPass | src/filter.c:310-321 | The grey buffer holds the luma of every pixel of the copy. |
| EdgeDetect.BorderIsNotInterior | src/filter.c:337-338 | The border ring the last pass blackens is exactly what the Sobel loops skip. |
| EdgeDetect.ConvSobelX | src/filter.c:323-346 | Convolving with `Gx` is the horizontal Sobel difference of the 3x3 neighbourhood. |
| EdgeDetect.ConvSobelY | src/filter.c:323-346 | Convolving with `Gy` is the vertical Sobel difference of the 3x3 neighbourhood. |
| EdgeDetect.Gradients | src/filter.c:339-347 | The double loop over ky and kx computes both Sobel gradients. |
| EdgeDetect.FlatRegionHasNoEdge | src/filter.c:340-352 | A uniform image has zero gradients and no edges. |
| EdgeDetect.EdgeIsBinary | src/filter.c:352-359 | Every colour sample of the result is 0 or 255. |
| EdgeDetect.EdgeBorderIsBlack | src/filter.c:392-404 | Colour samples on the one-pixel border are 0. |
| EdgeDetect.EdgeKeepsAlpha | src/filter.c:355-356 | With 4 channels, alpha comes from the copy, so it is kept. |
| EdgeDetect.EdgeInteriorIff | src/filter.c:349-352 | An interior colour sample is 255 exactly when the gradient magnitude exceeds the threshold. |
| EdgeDetect.EdgeDetectFilter | src/filter.c:292-408 | A threshold outside [0, 255] is refused with the buffer unchanged. Otherwise the buffer becomes the edge image of the old one, in both modes. |
| StringUtils.IsNumber | src/string_utils.c:34-49 | Accepted exactly: a sign only at index 0, at most one dot, digits elsewhere. |
| StringUtils.NumberSyntaxDegenerate | src/string_utils.c:34-49 | The empty string, a lone sign and a lone dot are accepted. |
| StringUtils.SecondDotRejected | src/string_utils.c:39-41 | A second dot is refused. |
| StringUtils.SignOnlyAtStart | src/string_utils.c:37 | A sign after index 0 is refused. |
| StringUtils.SpacesEnd | src/string_utils.c:14-15 | The leading-space loop stops at the first non-space, or at the end of the string. |
| StringUtils.DigitsEnd | src/string_utils.c:21-22 | A digit loop stops at the first non-digit, or at the end of the string. |
| StringUtils.DigitsValueAppend | src/string_utils.c:21-29 | Reading `a` then `b` digit by digit gives `value(a)*10^len(b) + value(b)`. |
| StringUtils.TmpAtof | src/string_utils.c:7-32 | The loops compute the value `Atof` assigns and stop where `AtofEnd` says. |
| StringUtils.ScanValueIsDecimal | src/string_utils.c:31 | `sign*val/power` is the sign times whole part plus fraction over its power of ten. |
| StringUtils.AtofDecimal | src/string_utils.c:7-32 | Optional spaces, an optional sign, digits, a dot and digits: the value is the signed decimal, and the whole string is consumed. |
| StringUtils.AtofInteger | src/string_utils.c:7-32 | Optional spaces, an optional sign and digits: the value is the signed integer, and the whole string is consumed. |
| StringUtils.AtofOneSign | src/string_utils.c:17-22 | Only one sign is skipped, so "+-5" and "--5" read as 0. |
| StringUtils.NumberIsConsumed | src/string_utils.c:7-49 | `tmp_atof` reads every character of a non-empty string that `is_number` accepts. |
| FileUtils.LastDot | src/file_utils.c:24 | `strrchr(name, '.')`: absent exactly when there is no dot. Otherwise it is the index of a dot with no dot after it. |
| FileUtils.NoDotIsInvalid | src/file_utils.c:25 | A name without a dot is refused. |
| FileUtils.ExtensionIsSuffix | src/file_utils.c:24-26 | A single-dot suffix is the extension exactly when the name ends with it. |
| FileUtils.ValidExpressionIff | src/file_utils.c:23-27 | Accepted exactly when the name ends with ".jpg", ".jpeg" or ".png". |
| FileUtils.ValidExpressionExamples | src/file_utils.c:23-27 | Matching is case-sensitive, and only the suffix after the last dot counts. |
| FileUtils.Classify | src/file_utils.c:12-20 | JPEG exactly when the header starts FF D8 FF. PNG exactly when it is the PNG signature. Unknown otherwise. |
| FileUtils.FileFormat | src/file_utils.c:4-21 | A file that cannot be opened is Unknown. Otherwise it is the classification of its first eight bytes. |
| FileUtils.SignaturesDisjoint | src/file_utils.c:12-18 | No header matches both signatures. |
| Cli.LookupFrom | src/main.c:67-68 | The scan finds the first entry whose name equals the argument, and none when no entry does. |
| Cli.NamesDistinct | src/main.c:15-33 | No two registry entries share a name. |
| Cli.LookupRegistered | src/main.c:15-33 | Each registered name finds its own entry. |
| Cli.ValidateUnknown | src/main.c:106 | A name that is not in the registry is refused. |
| Cli.ValidateParameterless | src/main.c:69-71 | `--grayscale`, `--invert` and `--sepia` accept any value. |
| Cli.ValidateRanges | src/main.c:73-100 | Each filter with a parameter accepts exactly its closed range: brightness and contrast [0.1, 2], blur [1, 10], edge [0, 255]. |
| Cli.ValidateAgreesWithKernels | src/main.c:66-107 | For every entry, `validate` accepts a value exactly when the kernel's own range check does. |
| Cli.FirstBenchmarkFrom | src/main.c:174-175 | The search finds the first "--benchmark" from index 1 on, and none when there is none. |
| Cli.FirstBenchmarkAt | src/main.c:174-175 | An occurrence with none before it is the first. |
| Cli.BenchmarkRemovedOnce | src/main.c:173-183 | Exactly one "--benchmark" is removed when present, and no other argument. Without one the list is unchanged. `argv[0]` stays first. |
| Cli.BenchmarkRemovalKeepsOrder | src/main.c:176-181 | The arguments before the removed flag keep their index, and those after it move down by one, so their order is kept. |
| Cli.ShiftDown | src/main.c:177-179 | The shift moves `argv[i+1..argc)` down one place over `argv[i]`. |
| Cli.FindBenchmark | src/main.c:174-175 | The loop returns the first index of "--benchmark" in `argv[1..argc)`. |
| Cli.RemoveBenchmark | src/main.c:173-183 | `benchmark_mode` is set exactly when the flag was present. `argc` drops by one, and `argv[..argc]` is the argument list without it. |
| Cli.TurnAt | src/main.c:202-224 | A turn applies a filter only at a registered name, and moves past at least the name and at most to the end of the arguments. It is "done" exactly when the arguments are used up. |
| Cli.WalkUnknownFilter | src/main.c:255-261 | An unregistered token at a filter position is error 2. |
| Cli.WalkMissingParameter | src/main.c:207-213 | A filter with a parameter that is last, or followed by a token `is_number` refuses, is error 2. |
| Cli.WalkStepsAccepted | src/main.c:205-224 | Every applied filter gets a parameter its kernel accepts. No kernel silently refuses one. |
| Cli.WalkLength | src/main.c:199-262 | Each applied filter consumes at least one argument. |
| Cli.ParseFilter | src/main.c:202-224 | The loop, `is_number`, `tmp_atof` and `validate` compute the turn at index i: the filter to apply and where the walk goes on, or a refusal. |
| Cli.WalkRunsPlanned | src/main.c:199-253 | When the walk succeeds, each kernel call it plans can run on the image. |
| Cli.ParameterlessWalkRuns | src/main.c:199-253 | Any number of `--invert` and `--sepia` runs on every image, whatever its size or channel count. |
| Cli.CopyInto | src/main.c:230 | `memcpy` of the image into the copy. |
| Cli.Runtime.RunKernel | src/main.c:249 | The registered kernel runs on the buffer with the current `use_thread`. It is asked only what that kernel needs: grayscale needs three channels, edge detection needs them when its threshold passes, and the blur needs radii that fit when its sigma passes. |
| Cli.Runtime.Benchmark | src/main.c:229-238 | The image is run with threads and the fresh copy without. Both end equal to the filtered image, and `use_thread` is back to 1. |
| Cli.Runtime.ApplyFilters | src/main.c:199-262 | Success exactly when the walk accepts every argument, and then the image is all the filters applied in order. Otherwise error 2. It is asked only that each kernel the walk reaches can run. |
| Cli.CheckArguments | src/main.c:123-145 | Fewer than three arguments, or either file name without a supported extension, is error 2. |
| Cli.RemovalKeepsFileNames | src/main.c:140-183 | Once both names pass, the removal of "--benchmark" cannot touch `argv[0..2]`. |
| Cli.OutputFor | src/main.c:264-289 | A name without a dot is error 2. Otherwise an encoder is picked from the suffix. |
| Cli.OutputOfValidName | src/main.c:264-283 | A validated name ending in ".jpg" or ".jpeg" is written as JPEG at quality 90. One ending in ".png" is written as PNG with a stride of `width*channels`. |
| Cli.OutputLooserThanValidation | src/main.c:267 | The substring test picks JPEG for a suffix like ".jpgx", which `is_valid_expression` would refuse. |

## Left out

- Image loading and writing (stb), the log file, timing (`filter_time`, `omp_get_wtime`), the benchmark printout and the usage text are I/O, and are not modelled. The image is the buffer the loader returned.
- `box_radii` (`sqrtf`, `floor`, `round` on floats) is not modelled. `BoxBlur.GaussianBlur` and `Cli` take the radii as a function of sigma.
- BoxBlur.GaussianBlur: once sigma passes its check, requires 3 or 4 channels and `2r+1 <= width, height` for each of the three radii of that sigma. Otherwise the running sums read past a line, which has no defined result. A refused sigma is modelled on every image.
- ColorFilters.Grayscale: requires at least 3 channels. With fewer, the source reads samples of the next pixel or past the buffer.
- EdgeDetect.EdgeDetectFilter: once the threshold passes, requires at least 3 channels, for the same reason. A refused threshold is modelled on every image.
- Cli.Runtime.ApplyFilters: requires that each kernel the walk reaches can run, as `Cli.KernelRuns` says. A walk that reaches a grayscale on a one- or two-channel image, or a blur whose radii do not fit, is not modelled.
- Cli.Runtime.RunKernel: the per-filter status messages go to stderr, so the model drops them.
- Float rounding is not modelled: the weights are exact rationals. Near a truncation boundary, IEEE single precision may round a sample one way or the other.
- The SIMD filters (`filter_simd.c`) and the logger are not part of this model.
- The allocation failures of `malloc` (error 1 in `main`, early return in the kernels) are not modelled. Allocation always succeeds here.
- `tmp_atof(NULL)` is not modelled, because a sequence cannot be null. The empty string does give 0.0, as in the source.
- `file_format` of a file shorter than eight bytes is not modelled, because the source then compares uninitialised bytes. The header is always eight bytes.
- The `printf` of `file_format(argv[1])` in `main` is I/O.
- OpenMP chunk sizes, `schedule(guided)` and the sepia threshold of 10000 pixels only change the order of iterations. A schedule here is any permutation.
- The two copies of each kernel (parallel and sequential) are one method whose `Mode` picks the schedule.
- `stbi_write_jpg` and `stbi_write_png` are calls into a library. `Cli.OutputFor` returns which one is called, with its quality or stride.
