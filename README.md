# grafi.js in Dafny

A model of the image filters of grafi.js: `checkColorDepth`, `formatter`,
the convolution engine with its callers `blur`, `despeckle`, `edge` and
`sharpen`, and the point transforms `brightness`, `contrast`, `grayscale`,
`invert`, `posterize`, `solarize`, `threshold` and `pseudocolor`. An image is
`Image(data, width, height)` with `data` a sequence of bytes. Each public
filter has two forms:

- a specification function (`Blurred`, `Thresholded`, ...) that gives the
  value the filter returns, or the exception it throws as an `Err`;
- a method (`Blur`, `Threshold`, ...) that runs the filter's loops over
  arrays the way grafi.js does. Each method is proved to return exactly what
  its specification function gives.

The lemmas then state what the filters promise in terms of the
specification functions.

Modules, one per file:

- `TypedArrays` (typed_arrays.dfy): stores into typed arrays.
  - A Uint8ClampedArray store is ToUint8Clamp, section 7.1.12 of ECMA-262.
  - A Uint8Array store is ToUint8, section 7.1.11 of ECMA-262.
  - A store to an index outside the array is dropped.
  - `Math.round` is modelled as `JsRound`.
  - JavaScript numbers are exact rationals (`real`). `NaN` also stands for
    `undefined`.
- `ImageData` (image_data.dfy): the image record, the errors, the `||`
  defaults of options, `checkColorDepth` and `formatter`.
- `DefaultSort` (default_sort.dfy): `Array.prototype.sort` without a
  comparator. It orders bytes by their decimal strings, so 10 < 100 < 9.
  It also models the median that convolution takes from the sort.
- `Convolution` (convolution.dfy): the radius-1 convolution engine.
- `Filters` (filters.dfy): blur, despeckle, edge and sharpen.
- `Grayscale` (grayscale.dfy): grayscale and its three modes.
- `LookupTables` (lookup_tables.dfy): the threshold, posterize, solarize and
  pseudocolor tables. Each table-building loop is proved equal to a closed
  form.
- `PointTransforms` (point_transforms.dfy): the per-pixel transforms.

Where the library's prose description and its code differ, the model
follows the code:

- `brightness`, `grayscale`, `invert`, `posterize`, `threshold` and
  `pseudocolor` call `checkColorDepth`, which accepts only 4 bytes per
  pixel. `convolution` and its callers `blur`, `despeckle`, `sharpen` and
  `edge`, and also `contrast` and `solarize`, accept 1 byte per pixel as
  well.
- Seven filters read the `monochrome` option: `convolution`
  (grafi.js:91), its callers `blur`, `despeckle`, `edge` and `sharpen`,
  which pass the option on (grafi.js:192, 320, 388, 545), and `contrast`
  (grafi.js:261) and `solarize` (grafi.js:571). With `monochrome: true`
  each of them allocates `width * height` bytes, and `formatter` always
  refuses that buffer. So a monochrome request to any of these seven ends
  in an error (`SizeMismatch`, unless an earlier check throws first) and
  never returns a one-byte-per-pixel image.
- `grayscale` documents a `monochrome` option (grafi.js:394), but its body
  (grafi.js:409-446) never reads it. It always returns 4 bytes per pixel,
  so `Grayscaled` takes no monochrome parameter.
- For a 1-byte-per-pixel input, `contrast` and `solarize` write through the
  variable `_i`, which is never assigned. Nothing lands in the output, so
  the result is an all-zero RGBA image (`GrayInputBlank`). The 255 alpha
  that the code appears to intend never appears.
- The median is taken after a sort in string order, not numeric order
  (`MedianExample`).
- A zero or missing divisor means 1. A missing or zero option level means
  its default: brightness 0, contrast 1, edge 1, sharpen 1, posterize 4 and
  threshold 127.
- A posterize level of 1 does not fail: it gives an all-white table.

## Model

| member | source | states |
|---|---|---|
| TypedArrays.ToUint8 | grafi.js:498-510 | a Uint8Array store: NaN gives 0, a value in [0, 256) gives its floor, and any finite value gives its truncation modulo 256 |
| TypedArrays.JsRound | grafi.js:505 | `Math.round` gives the integer within half of x, with halves going up |
| TypedArrays.SetClamped | grafi.js:701-713 | a store into a Uint8ClampedArray changes only index i, to ToUint8Clamp(v); an index outside the array changes nothing |
| TypedArrays.SetUint8 | grafi.js:655-659 | a store into a Uint8Array changes only index i, to ToUint8(v); an index outside the array changes nothing |
| TypedArrays.ClampRoundsToNearest | grafi.js:222-229 | a clamped store gives 0 for NaN and for values at or below 0, and 255 at or above 255; in between it gives a byte within 1/2 of the value, and an even one on a tie |
| TypedArrays.ClampOfByte | grafi.js:229 | storing a byte into a clamped array keeps it |
| TypedArrays.ClampAddCompose | grafi.js:226-228 | two non-negative integer offsets, each stored through a clamped array, give the same byte as one offset by their sum |
| TypedArrays.ClampSubCompose | grafi.js:226-228 | likewise for two non-positive integer offsets |
| ImageData.RealOr | grafi.js:217 | `x \|\| d` on a number: an explicit or missing 0 gives the default d, any other x is kept; the result is 0 only if the default is 0 |
| ImageData.IntOr | grafi.js:493 | `x \|\| d` on an integer level: an explicit or missing 0 gives the default d, any other x is kept; the result is 0 only if the default is 0 |
| ImageData.Depth | grafi.js:252-259 | a buffer accepted by the depth check has 1 or 4 bytes per pixel |
| ImageData.Formatter | grafi.js:47-61 | formatter returns the image exactly when the buffer has 4 bytes per pixel, with the data, width and height unchanged; otherwise it throws the size error; a `width * height` (monochrome) buffer is always refused |
| ImageData.FormatterShape | grafi.js:19-32 | every image formatter returns has exactly 4 bytes per pixel and at least one pixel |
| DefaultSort.Decimal | grafi.js:121 | the decimal string of a byte is non-empty, and has one digit exactly below 10 |
| DefaultSort.Insert | grafi.js:121 | insertion adds x to the multiset of the sequence |
| DefaultSort.SortBy | grafi.js:121 | the sorted sequence is a permutation of its input |
| DefaultSort.InsertSorted | grafi.js:121 | under a total order, insertion keeps a sorted sequence sorted |
| DefaultSort.SortBySorted | grafi.js:121 | under a total order, the sort returns a sorted sequence |
| DefaultSort.DefaultOrder | grafi.js:121 | the default comparison, code-unit order on decimal strings, is a total order on bytes |
| DefaultSort.CodeUnitTotal | grafi.js:121 | any two strings are comparable in code-unit order |
| DefaultSort.CodeUnitTransitive | grafi.js:121 | code-unit order is transitive |
| DefaultSort.CodeUnitAntisymmetric | grafi.js:121 | code-unit order is antisymmetric |
| DefaultSort.DecimalInjective | grafi.js:121 | different numbers have different decimal strings |
| DefaultSort.SortedUnique | grafi.js:121 | two sorted permutations of the same values are equal, so the median does not depend on the engine's sort algorithm |
| DefaultSort.Median | grafi.js:121 | the median is one of the window's values |
| DefaultSort.MedianOfSorted | grafi.js:121 | the median is element floor(n / 2) of any arrangement of the window in string order |
| DefaultSort.MedianOfUniform | grafi.js:121 | a window of one repeated value has that value as its median |
| DefaultSort.StringOrderExample | grafi.js:121 | in the default order 10 comes before 100, and 100 before 9 |
| DefaultSort.MedianExample | grafi.js:121 | a window of 9, 10 and 100 in any order has median 100, not the numeric median 10 |
| Grayscale.LumaOf | grafi.js:420-422 | luma lies in [0, 255], and a pixel of three equal bytes v has luma v |
| Grayscale.SimpleOf | grafi.js:423-426 | simple mode gives a number exactly for channel r, g or b, and it is one of the three bytes; any other channel gives undefined |
| Grayscale.AverageOf | grafi.js:427-429 | the average lies in [0, 255], and three equal bytes v average to v |
| Grayscale.GrayPixels | grafi.js:437-444 | the gray buffer has the length of the input |
| Grayscale.GrayPixelsAt | grafi.js:440-443 | in pixel p, the three color bytes hold the clamped gray value and alpha is the input's |
| Grayscale.Grayscale | grafi.js:409-446 | the loop returns the size error for a buffer without 4 bytes per pixel and the mode error for an unknown mode; otherwise it returns the buffer whose color bytes are each pixel's clamped gray value and whose alpha is copied |
| Grayscale.GrayLoop | grafi.js:437-444 | the loop fills a fresh array with exactly that gray buffer |
| Grayscale.GrayscaleOutcome | grafi.js:409-446 | grayscale throws the size error first, then the mode error exactly for a mode other than luma, simple or average (empty means luma); a result has the input's size and 4 bytes per pixel |
| Grayscale.AverageExample | grafi.js:404-405 | average mode on [30, 60, 90, 255] gives [60, 60, 60, 255] |
| Grayscale.GrayValueOfGray | grafi.js:419-430 | every mode maps a gray pixel v to v, except simple mode on an unknown channel, which gives 0 |
| Grayscale.GrayOfUnknownChannel | grafi.js:423-426 | simple mode on an unknown channel turns every pixel to 0 |
| Grayscale.GrayscaleIdempotent | grafi.js:409-446 | grayscale applied to its own output changes nothing |
| Grayscale.GrayTwice | grafi.js:437-444 | the gray buffer of a gray buffer is itself |
| Grayscale.GrayscaleGrayAndAlpha | grafi.js:440-443 | every output pixel has three equal color bytes and keeps the input's alpha |
| Convolution.EffectiveDivisor | grafi.js:78 | `divisor \|\| 1` is never 0 and keeps a nonzero divisor |
| Convolution.Window | grafi.js:113-118 | the gathered neighbourhood has nine bytes |
| Convolution.ConvolvedPixels | grafi.js:91 | the output buffer always has 4 bytes per pixel, whatever the input's depth |
| Convolution.KernelOf | grafi.js:76-79 | the kernel read from validated options has a nonzero divisor |
| Convolution.Convolution | grafi.js:74-161 | convolution returns the missing-options, depth or size error in the source's order; otherwise it returns the buffer in which interior color bytes are filtered, border and alpha bytes are copied, and the rest is 0 |
| Convolution.Convolve | grafi.js:100-158 | the channel loop fills the output array with exactly that buffer |
| Convolution.InteriorPass | grafi.js:101-130 | the interior loops write the expected byte at every interior pixel of channel ch, and nothing else |
| Convolution.InteriorRow | grafi.js:102-129 | one interior row writes the expected byte at each of its interior pixels |
| Convolution.BorderPass | grafi.js:132-158 | the border loops write the expected byte at every border pixel of channel ch, and nothing else |
| Convolution.BorderRow | grafi.js:133-157 | one row of the border loops writes the expected byte at each of its border pixels |
| Convolution.InteriorByte | grafi.js:104-128 | the byte stored for an interior pixel is the input's alpha, the window's median, or its clamped weighted sum |
| Convolution.GatherWindow | grafi.js:113-118 | the `fy`/`fx` loops push the 3 x 3 neighbourhood in row-major order |
| Convolution.Store | grafi.js:128 | storing the expected byte of a pixel adds its index to the written set and keeps every other byte |
| Convolution.ConvolutionOutcome | grafi.js:76-91 | convolution succeeds exactly with a filter, radius 1, depth 1 or 4 and no monochrome request; it throws the missing-options error, then the depth error, then the size error; a result keeps the size and has 4 bytes per pixel |
| Convolution.BorderCopied | grafi.js:132-157 | every byte of a border pixel, and every alpha byte, is the input's |
| Convolution.InteriorFiltered | grafi.js:120-128 | an interior color byte is the filter applied to its nine neighbours and clamped |
| Convolution.MedianFromNeighbourhood | grafi.js:120-121 | in median mode every interior byte is one of its nine neighbours |
| Convolution.Padded | grafi.js:91 | the unchanged result is the input followed by zeros up to 4 bytes per pixel |
| Convolution.OneChannelPadding | grafi.js:91 | with a 1-byte-per-pixel input, every byte past the first width * height is 0 |
| Convolution.SmallImageUnchanged | grafi.js:100-158 | an image narrower or shorter than 3 pixels has no interior, so it comes back unchanged (padded when it has 1 byte per pixel) |
| Convolution.UniformUnchanged | grafi.js:120-128 | a uniform image is unchanged by the median and by any kernel whose weights sum to its divisor |
| Convolution.IdentityUnchanged | grafi.js:120-128 | the identity kernel with divisor 1 returns the input |
| Convolution.ShortFilterBlack | grafi.js:120-128 | a filter with fewer than nine weights (the empty array included) passes the options check, and every interior color byte comes out 0 |
| Convolution.FilteredBetween | grafi.js:122 | with non-negative weights summing to the divisor, a filtered byte lies between the smallest and the largest of its neighbours |
| Convolution.FilteredOfUniform | grafi.js:120-122 | nine copies of v filter to v under the median or under weights summing to the divisor, and to 0 under weights that cancel |
| Convolution.UniformFiltered | grafi.js:120-122 | nine copies of v filter to v (median) or to v times the weight sum over the divisor, clamped |
| Convolution.WeightedOfUniform | grafi.js:122 | the weighted sum of n copies of v is v times the total weight |
| Convolution.WeightedOneHot | grafi.js:122 | under a weight of 1 at m and 0 elsewhere, the weighted sum is the byte at m |
| Convolution.WeightedBetween | grafi.js:122 | with non-negative weights, the weighted sum lies between lo and hi times the total weight |
| Filters.Blur | grafi.js:174-194 | blur throws on an unknown type, and otherwise convolves with the average or gaussian kernel divided by its weight sum |
| Filters.Despeckle | grafi.js:302-323 | despeckle throws on an unknown type, and otherwise convolves with nine ones, by median for type median and by mean for type mean |
| Filters.Edge | grafi.js:357-390 | edge throws on a bad depth, then on an unknown type; otherwise it convolves the luma grayscale of an RGBA image (or a 1-byte image as it is) with the Laplacian divided by 9 / level |
| Filters.Sharpen | grafi.js:535-546 | sharpen convolves with centre 4 level + 1, its four edge neighbours at -level, and divisor 1 |
| Filters.BlurUnknownType | grafi.js:178-186 | blur throws the type error exactly for a type other than average or gaussian (empty means gaussian) |
| Filters.BlurUniformUnchanged | grafi.js:180-193 | both blur kernels leave a uniform image unchanged |
| Filters.BlurWithinNeighbourhood | grafi.js:180-193 | a blurred byte lies within the range of the nine bytes it averages |
| Filters.DespeckleUnknownType | grafi.js:306-314 | despeckle throws exactly for a type other than median or mean (empty means median) |
| Filters.DespeckleFromNeighbourhood | grafi.js:316-322 | median despeckle gives each interior byte one of its nine neighbours |
| Filters.DespeckleUniformUnchanged | grafi.js:308-322 | both despeckle types leave a uniform image unchanged |
| Filters.EdgeUnknownType | grafi.js:365-381 | edge throws the depth error first, then the type error exactly for a type other than laplacian |
| Filters.EdgeOfFlatIsBlack | grafi.js:376-389 | the Laplacian's weights cancel, so on a flat image every interior color byte is 0 |
| Filters.SharpenUniformUnchanged | grafi.js:541-545 | sharpen's weights sum to 1 at every level, so a uniform image is unchanged |
| Filters.EdgeIsGray | grafi.js:372-389 | on RGBA input every output pixel has three equal color bytes and keeps the input's alpha |
| Filters.EdgeData | grafi.js:372-389 | on RGBA input, edge is the convolution of the luma grayscale with the Laplacian over 9 / level |
| LookupTables.ThresholdTable | grafi.js:655-659 | the threshold table has 256 entries |
| LookupTables.BuildThresholdTable | grafi.js:655-659 | the loop builds exactly the table that is 255 from the level up and 0 below, for any integer level |
| LookupTables.ThresholdBinary | grafi.js:655-659 | every threshold entry is 0 or 255, and 255 exactly from the level up |
| LookupTables.ThresholdTableFixed | grafi.js:655-659 | at any level the table maps each of its own entries to itself |
| LookupTables.RampTable | grafi.js:701-736 | each pseudocolor table has 256 entries |
| LookupTables.BuildRampTable | grafi.js:705-736 | the forEach loop builds exactly the clamped ramp |
| LookupTables.RampClosedForms | grafi.js:705-736 | the red, green and blue ramps entry by entry, with steps of 4 and negatives clamped to 0 |
| LookupTables.RampShapes | grafi.js:705-736 | red never decreases, blue never increases, and green rises up to 192 and falls from 64 |
| LookupTables.SolarizeTable | grafi.js:573-593 | the solarize table has 256 entries |
| LookupTables.BuildSolarizeTable | grafi.js:573-593 | the band loops build exactly 3v on [0, 85), 255 - 3(v - 85) on [85, 171) and 3(v - 171) on [171, 256); the last band's store at 256 is dropped |
| LookupTables.SolarizeBand | grafi.js:579-592 | one band's inner loop brings the table to the state after that band |
| LookupTables.SolarizeStepSize | grafi.js:575-591 | with step size 256 / 3, a band has 86 steps and the `l + 1 >= stepSize` branch is never taken; step s of band l stores at its start plus s, with the value of the closed form |
| LookupTables.SolarizeShape | grafi.js:578-593 | dark and bright values rise with the input and middle ones fall; the bands meet at 255 (entry 85) and at 0 (entries 170 and 171), and entry 255 is 252 |
| LookupTables.PosterizeIndex | grafi.js:505 | `Math.round(level * 256 / L + step)` is the band's integer start plus step |
| LookupTables.PosterizeStepTest | grafi.js:504 | the test `step < 256 / L` holds for exactly the first ceil(256 / L) steps |
| LookupTables.PosterizeStore | grafi.js:510 | `level * (256 / (L - 1))` through the Uint8Array store is floor(256 level / (L - 1)) |
| LookupTables.StartIff | grafi.js:503-505 | band l has started by index v exactly when l is at most v's band |
| LookupTables.StartGap | grafi.js:503-505 | bands start in order, and each starts no later than the end of the one before |
| LookupTables.StartCover | grafi.js:503-505 | the last band reaches the end of the table |
| LookupTables.PosterizeTable | grafi.js:498-512 | the posterize table has 256 entries |
| LookupTables.BuildPosterizeTable | grafi.js:498-512 | the band loops build exactly the closed form: each entry holds the value of the last band starting at or below it; a negative level leaves the table all 0 |
| LookupTables.FillPosterizeBand | grafi.js:504-511 | one band's inner loop brings the table to the state after that band |
| LookupTables.PosterizeExtremes | grafi.js:503-512 | with at least two levels, entry 0 is 0 and entry 255 is 255 |
| LookupTables.PosterizeDegenerate | grafi.js:498-512 | a single level makes every entry 255, and a negative level count every entry 0 |
| LookupTables.PosterizeTwoLevels | grafi.js:498-512 | two levels map values below 128 to 0 and the rest to 255 |
| LookupTables.PosterizeMonotone | grafi.js:498-512 | the posterize table never decreases |
| PointTransforms.DefaultGrayscale | grafi.js:650-653 | grayscale with no options succeeds on an RGBA image and gives its luma buffer |
| PointTransforms.GraySource | grafi.js:650-653 | the gray source has the length of the input |
| PointTransforms.MapLoop | grafi.js:224-230 | the pixel loop fills a fresh array with the mapped color bytes and the copied alpha |
| PointTransforms.MappedAt | grafi.js:514-520 | byte c of pixel p of the output is the map of input byte c, and alpha comes from the alpha source |
| PointTransforms.Brightness | grafi.js:211-233 | brightness throws on a buffer without 4 bytes per pixel; otherwise each color byte becomes v + level, clamped |
| PointTransforms.Contrast | grafi.js:246-290 | contrast throws on depth other than 1 or 4, and on monochrome; a gray input gives all zeros; otherwise each color byte becomes (v - 128) level + 128, clamped |
| PointTransforms.Invert | grafi.js:458-472 | invert throws on a buffer without 4 bytes per pixel; otherwise each byte but the fourth becomes 255 - v |
| PointTransforms.Posterize | grafi.js:487-523 | posterize throws on a buffer without 4 bytes per pixel; otherwise each color byte goes through the posterize table for level `\|\| 4` |
| PointTransforms.Solarize | grafi.js:558-622 | solarize throws on depth other than 1 or 4, and on monochrome; a gray input gives all zeros; otherwise each color byte goes through the solarize table |
| PointTransforms.Threshold | grafi.js:640-669 | threshold throws on a buffer without 4 bytes per pixel; otherwise each color byte of the gray source goes through the threshold table for level `\|\| 127`, with alpha from the input |
| PointTransforms.Pseudocolor | grafi.js:687-748 | pseudocolor throws on a buffer without 4 bytes per pixel; otherwise the red, green and blue bytes of the gray source go through the three ramps, with alpha from the input |
| PointTransforms.CheckedOutcomes | grafi.js:19-32 | brightness, invert, posterize, threshold and pseudocolor succeed exactly on 4 bytes per pixel, and otherwise throw the size error |
| PointTransforms.DepthOutcomes | grafi.js:252-261 | contrast and solarize succeed exactly on depth 1 or 4 without monochrome; they throw the depth error first, then the size error |
| PointTransforms.GrayInputBlank | grafi.js:262-278 | a 1-byte-per-pixel input to contrast or solarize comes back as an all-zero RGBA image |
| PointTransforms.AlphaKept | grafi.js:224-230 | every point transform keeps the length of an RGBA image and each alpha byte |
| PointTransforms.BrightnessZero | grafi.js:217-229 | level 0, which is also the default, returns the image unchanged |
| PointTransforms.BrightnessDirection | grafi.js:226-228 | a positive level never darkens a byte, and a negative level never brightens one |
| PointTransforms.BrightnessCompose | grafi.js:226-228 | two integer brightness steps in the same direction equal one step by their sum |
| PointTransforms.ContrastIdentity | grafi.js:250-286 | level 1, which is also the default, returns an RGBA image unchanged |
| PointTransforms.ContrastSpreads | grafi.js:283-285 | a level above 1 pushes each color byte away from 128, and a level in (0, 1] pulls it towards 128 without crossing; 128 stays put |
| PointTransforms.ContrastData | grafi.js:281-286 | on an RGBA image at a nonzero level, contrast is the stretch at that level |
| PointTransforms.StretchSpreads | grafi.js:283 | the clamped stretch of one byte moves it away from or towards 128 as the level says |
| PointTransforms.InvertInvolution | grafi.js:458-472 | inverting twice gives the image back |
| PointTransforms.InvertWhite | grafi.js:458-472 | [255, 255, 255, 255] inverts to [0, 0, 0, 255] |
| PointTransforms.ThresholdBlackOrWhite | grafi.js:650-666 | each output color byte is 0 or 255, and 255 exactly when the gray source byte reaches the level; without the grayscaled flag each pixel is gray |
| PointTransforms.ThresholdData | grafi.js:650-668 | on an RGBA image, threshold is the table lookup on the gray source |
| PointTransforms.ThresholdPixel | grafi.js:661-666 | one pixel through the threshold table: each color byte is 0 or 255, 255 exactly from the level up, and a gray pixel stays gray |
| PointTransforms.ThresholdIdempotent | grafi.js:640-669 | thresholding the output again at the same level changes nothing, at every level (a level at or below 0 makes every color byte 255, one above 255 makes it 0) |
| PointTransforms.ThresholdTwice | grafi.js:661-666 | the buffer-level form of that idempotence, for any level |
| PointTransforms.LumaAllGray | grafi.js:437-444 | every pixel of a luma buffer is gray |
| PointTransforms.PseudocolorOfGray | grafi.js:739-745 | a gray pixel v is colored by the three ramps at v: black becomes blue, 128 green and white red |

## Left out

- `dither` (grafi.js:335-345) is a stub that refers to undefined names and always throws.
- server.js, module.test.js and src/_blueprint.js hold no image logic and are not part of this model.
- formatter's `window.ImageData` branch and its `instanceof Uint8ClampedArray` check are host API checks; every buffer the filters build is a Uint8ClampedArray, and the result is modelled as a plain record.
- `console.log` calls in solarize and the implicit global `s` they loop over have no effect on the result.
- IEEE-754 doubles are modelled as exact rationals: luma is (299 r + 587 g + 114 b) / 1000, and posterize's `256 / L`, `256 / (L - 1)` and edge's `9 / level` are exact. Double rounding can differ from exact arithmetic. For posterize the band value `level * (256 / (L - 1))` (grafi.js:510) goes through the truncating Uint8Array store. For some levels the double product lands just below an integer, and the store then gives one less than the exact value (PosterizeStore). For example, at L = 99 level 49 stores 127, not 128. At L = 197, levels 49, 98 and 147 store 63, 127 and 191.
- Convolution.Convolution: requires radius at most 1. Every caller passes radius 1, and the window and border loops are only meaningful at that radius.
- The bytes a monochrome request writes before formatter throws are unobservable; those calls are modelled as the error alone.
- Option values are modelled by type: levels are numbers (integers for posterize and threshold), types and modes are strings, and flags are booleans. Non-integer posterize and threshold levels, strings that are keys of `Object.prototype` (such as `toString`) and other JavaScript coercions are not modelled.
- Every filter writes its `||` defaults back into the caller's option object (grafi.js:76-79, 177-178, 216-217, 248-250, 414-416, 492-493, 537-539, 560-561, 645-647, 692-693). For example, after `threshold(img, {level: 0})` the caller's object holds `level: 127`. The model takes options by value and returns only the image, so it does not capture this change to the caller's object.
- Image sizes are natural numbers. A negative or fractional width or height is not modelled.
- Grayscale.Grayscale: an unknown mode is the `UnknownMode` error, standing for the TypeError thrown when the missing mode function is called on the first pixel.
