# Object tracking image analysis, modelled in Dafny

This project models the image-analysis core of two sample applications:

- **VideoEffect** (`ImageAnalyzer.cpp`). It measures the labelled objects of a binary image and keeps the large ones, ordered by size. It then computes the bounding box of each object's convex hull. Finally it scores each hull by how far it strays from a circle and picks the hull closest to a circle.
- **ObjectTrackingDemo** (`ImageProcessingUtils.cs`). It converts between RGB and YUV colours and expands NV12 and YUY2 camera frames into RGB(A) pixel arrays. It also reads a colour's brightness and walks a colour towards a target brightness.

Each routine is written in the form its source takes:

- Loops that update variables become methods with `while` or `for` loops and their invariants. Examples are the object measurement pass, the hull extent pass, the error aggregation, the selection loop and the pixel-array fill.
- The in-place sort of the object records becomes a method on an `array`. The pixel buffer is filled as an `array` too.
- Where a routine computes a value, its method is proved equal to a specification function, and the properties the source promises are proved about that function as lemmas. This holds for the object measurement, the hull extents, the error score, the selection loop, the large-id filter and the pixel-array fill.
- The other methods carry the promised properties directly in their postconditions. These are the sort, the brightness walk, the bounds test, the choice of the best hull, `resolveLargeObjectIds` and `extractConvexHullsOfLargestObjects`.

The modules are:

| file | module | models |
|---|---|---|
| `arithmetic.dfy` | `Arithmetic` | monotonicity of products of naturals, shared by the index calculations |
| `wrappers.dfy` | `Wrappers` | the `Option` datatype (a null pointer or a missing object map) |
| `colour_conversion.dfy` | `ColourConversion` | `RGBToYUV`, `YUVToRGB` and the two `Clip` overloads |
| `brightness.dfy` | `Brightness` | `BrightnessFromColor` and `ApplyBrightnessToColor` |
| `pixel_arrays.dfy` | `PixelArrayConversion` | `NV12PixelArrayToRGBPixelArray` and `YUY2PixelArrayToRGBPixelArray` |
| `object_details.dfy` | `ObjectDetailsExtractor` | `extractObjectDetails` |
| `object_filter.dfy` | `ObjectFilter` | `sortObjectDetailsBySize` and `resolveLargeObjectIds` |
| `hull_geometry.dfy` | `ConvexHullGeometry` | `calculateConvexHullDimensions`, `convexHullDimensionsAsObjectDetails` and `objectIsWithinConvexHullBounds` |
| `circularity.dfy` | `CircularityScorer` | the integer aggregation of `circleCircumferenceError` |
| `candidate_selection.dfy` | `BestCandidateSelector` | `convexHullClosestToCircle` |
| `hull_collection.dfy` | `ConvexHullCollector` | the collection loop of `extractConvexHullsOfLargestObjects` |

## Model

| member | source | states |
|---|---|---|
| ColourConversion.ToByte | ObjectTrackingDemo/ObjectTrackingDemo.Shared/ImageProcessingUtils.cs:28-35 | The `(byte)` cast: the result is a byte congruent to its argument modulo 256, and a value already in 0..255 is unchanged. |
| ColourConversion.Clip | ObjectTrackingDemo/ObjectTrackingDemo.Shared/ImageProcessingUtils.cs:281-294 | The int overload: the result lies in min..max when min <= max. A value inside the range is returned unchanged. A value below min gives min, and a value above max gives max. |
| ColourConversion.ClipByte | ObjectTrackingDemo/ObjectTrackingDemo.Shared/ImageProcessingUtils.cs:266-279 | The byte overload states the same four facts: bounds, identity inside the range, below gives min, above gives max. |
| ColourConversion.RGBToYUV | ObjectTrackingDemo/ObjectTrackingDemo.Shared/ImageProcessingUtils.cs:28-35 | Y lies in 16..235, and U and V lie in 16..240 (studio range). Each component is the byte of its fixed-point formula. |
| ColourConversion.GreyHasNeutralChroma | ObjectTrackingDemo/ObjectTrackingDemo.Shared/ImageProcessingUtils.cs:28-35 | For every grey input r = g = b = k, both U and V are 128. |
| ColourConversion.YUVToRGB | ObjectTrackingDemo/ObjectTrackingDemo.Shared/ImageProcessingUtils.cs:44-56 | Each channel is its fixed-point formula clipped to 0..255: 0 below, 255 above, the formula inside the range. |
| ColourConversion.GreyRoundTrip | ObjectTrackingDemo/ObjectTrackingDemo.Shared/ImageProcessingUtils.cs:28-56 | For every grey k, converting to YUV and back gives equal R, G and B, each within 1 of k. |
| Brightness.BrightnessFromColor | ObjectTrackingDemo/ObjectTrackingDemo.Shared/ImageProcessingUtils.cs:230-233 | The level is the floor of the mean of R, G and B: 3·level <= R+G+B < 3·level+3, so it is at most 255. |
| Brightness.Step | ObjectTrackingDemo/ObjectTrackingDemo.Shared/ImageProcessingUtils.cs:243-259 | One channel's guarded step by ±1: it moves when not already at 255 (up) or at 0 (down), and otherwise stays. |
| Brightness.ApplyBrightnessToColor | ObjectTrackingDemo/ObjectTrackingDemo.Shared/ImageProcessingUtils.cs:235-264 | Alpha never changes. A target in 0..255 is reached exactly. For a target out of range or already met, the colour is returned unchanged. When brightening, no channel decreases; when darkening, no channel increases. The loop terminates. |
| PixelArrayConversion.ReadIndices | ObjectTrackingDemo/ObjectTrackingDemo.Shared/ImageProcessingUtils.cs:83-99 | The buffer positions one NV12 pixel pair reads: six (four luma, then U and V at uvPlaneStartIndex = w·h − 1 plus the row offset). For YUY2 (lines 155-158) it reads four: luma at +0 and +2, U at +3, V at +1. |
| PixelArrayConversion.PixelBytes | ObjectTrackingDemo/ObjectTrackingDemo.Shared/ImageProcessingUtils.cs:103-114 | A stored pixel is 3 bytes, or 4 with a trailing 0xff when alpha is kept. |
| PixelArrayConversion.PixelArray | ObjectTrackingDemo/ObjectTrackingDemo.Shared/ImageProcessingUtils.cs:76-118 | The completed output array has length w·h·bytesPerPixel. |
| PixelArrayConversion.FrameFits | ObjectTrackingDemo/ObjectTrackingDemo.Shared/ImageProcessingUtils.cs:76-118 | The bytes written for every pair of every row never exceed the allocated array. |
| PixelArrayConversion.ReadsInBoundsExact | ObjectTrackingDemo/ObjectTrackingDemo.Shared/ImageProcessingUtils.cs:88-99 | The closed-form bound used by the model holds if and only if every read of every visited pair lies inside the buffer. |
| PixelArrayConversion.LastPairOverruns | ObjectTrackingDemo/ObjectTrackingDemo.Shared/ImageProcessingUtils.cs:88-99 | When the bound fails, the last pair of the last row reads outside the buffer. That read is where the IndexOutOfRangeException comes from. |
| PixelArrayConversion.YUY2GuardSuffices | ObjectTrackingDemo/ObjectTrackingDemo.Shared/ImageProcessingUtils.cs:132-158 | A YUY2 buffer that passes the length guard (at least 2·w·h bytes) is never read past its end. |
| PixelArrayConversion.NV12EvenHeightGuardSuffices | ObjectTrackingDemo/ObjectTrackingDemo.Shared/ImageProcessingUtils.cs:68-99 | For an even height, an NV12 buffer that passes the guard (at least 1.5·w·h bytes) is never read past its end. |
| PixelArrayConversion.NV12OddHeightOverruns | ObjectTrackingDemo/ObjectTrackingDemo.Shared/ImageProcessingUtils.cs:68-99 | Concrete odd-height frames (2×1 with 3 bytes, 4×3 with 18 bytes) pass the NV12 guard yet end in IndexOutOfRange. |
| PixelArrayConversion.FillPixelArray | ObjectTrackingDemo/ObjectTrackingDemo.Shared/ImageProcessingUtils.cs:76-118 | The nested loops over rows and even columns fill the zeroed array to exactly the specified PixelArray. |
| PixelArrayConversion.NV12PixelArrayToRGBPixelArray | ObjectTrackingDemo/ObjectTrackingDemo.Shared/ImageProcessingUtils.cs:66-120 | A buffer shorter than 1.5·w·h gives TooFewBytes. A read past the end gives IndexOutOfRange. Otherwise the result is the converted array. |
| PixelArrayConversion.YUY2PixelArrayToRGBPixelArray | ObjectTrackingDemo/ObjectTrackingDemo.Shared/ImageProcessingUtils.cs:130-179 | A buffer shorter than 2·w·h gives TooFewBytes. Otherwise the result is the converted array; IndexOutOfRange never occurs. |
| PixelArrayConversion.PairStoredTwice | ObjectTrackingDemo/ObjectTrackingDemo.Shared/ImageProcessingUtils.cs:103-115 | The colour of the pair at row y, column x is stored twice in a row, at that pair's packed offset in the output. |
| PixelArrayConversion.ColourOfPair | ObjectTrackingDemo/ObjectTrackingDemo.Shared/ImageProcessingUtils.cs:88-101 | The colour laid out for pair x/2 of row y is YUVToRGB of the samples that pair reads. |
| PixelArrayConversion.AlphaIsOpaque | ObjectTrackingDemo/ObjectTrackingDemo.Shared/ImageProcessingUtils.cs:103-115 | When alpha is kept, every fourth byte of the written part of the array is 255. |
| PixelArrayConversion.UnwrittenTailIsZero | ObjectTrackingDemo/ObjectTrackingDemo.Shared/ImageProcessingUtils.cs:76-118 | Every byte after the packed rows stays zero. |
| PixelArrayConversion.TailLength | ObjectTrackingDemo/ObjectTrackingDemo.Shared/ImageProcessingUtils.cs:76-118 | The unwritten tail holds h pixels when the width is odd and none when it is even. |
| ObjectDetailsExtractor.RowScan | VideoEffect/VideoEffect.Shared/ImageAnalyzer.cpp:51-71 | The row pass returns the object's widest row count, no row is wider, and the row index is the first row attaining it (0 when the object is absent). |
| ObjectDetailsExtractor.ColumnScan | VideoEffect/VideoEffect.Shared/ImageAnalyzer.cpp:73-80 | The column pass returns the tallest column count, no column is taller, and the column index is the first column attaining it (0 when the object is absent). |
| ObjectDetailsExtractor.ObjectDetailsOf | VideoEffect/VideoEffect.Shared/ImageAnalyzer.cpp:30-87 | The record carries the object's id, and its width and height never exceed the image's. |
| ObjectDetailsExtractor.AreaIsCellCount | VideoEffect/VideoEffect.Shared/ImageAnalyzer.cpp:51-71 | The area summed row by row equals the number of cells of the map labelled with the id. |
| ObjectDetailsExtractor.MeasureObject | VideoEffect/VideoEffect.Shared/ImageAnalyzer.cpp:42-84 | The per-object pass (row loop, then column loop) computes exactly the specified record: area, widest row, tallest column and their first positions as centre. |
| ObjectDetailsExtractor.ExtractObjectDetails | VideoEffect/VideoEffect.Shared/ImageAnalyzer.cpp:30-87 | One record per object id 1..n, in id order, each the specified record of its object. |
| ObjectFilter.InsertDescending | VideoEffect/VideoEffect.Shared/ImageAnalyzer.cpp:455-467 | Given a sorted prefix a[..i], one insertion step leaves a[..i+1] sorted. It makes a[..i+1] a permutation of its old contents and leaves a[i+1..] unchanged. |
| ObjectFilter.SortDescendingBy | VideoEffect/VideoEffect.Shared/ImageAnalyzer.cpp:455-467 | After the sort, the array is in non-increasing key order and is a permutation of the input. |
| ObjectFilter.SortObjectDetailsBySize | VideoEffect/VideoEffect.Shared/ImageAnalyzer.cpp:455-467 | The records end up ordered by width·height, largest first, as a permutation of the input. |
| ObjectFilter.PermutedRecords | VideoEffect/VideoEffect.Shared/ImageAnalyzer.cpp:96-106 | A permutation of the extracted records holds each object's record exactly once and nothing else. |
| ObjectFilter.CollectLargeIds | VideoEffect/VideoEffect.Shared/ImageAnalyzer.cpp:107-117 | The filter loop collects, in sorted order, the ids of exactly the records whose width is at least the minimum size. |
| ObjectFilter.SortedLargeIds | VideoEffect/VideoEffect.Shared/ImageAnalyzer.cpp:96-120 | The ids taken from the sorted records satisfy LargeIdsBySize. They are distinct, pass the filter, include every object that passes it, and come in non-increasing size order. |
| ObjectFilter.ResolveLargeObjectIds | VideoEffect/VideoEffect.Shared/ImageAnalyzer.cpp:96-120 | LargeIdsBySize: the returned ids are exactly the objects 1..n whose width is at least minSize. Each appears once, largest width·height first. |
| ConvexHullGeometry.HullBox | VideoEffect/VideoEffect.Shared/ImageAnalyzer.cpp:214-257 | A hull of fewer than two points leaves the prior dimensions. Otherwise width and height are the extents of the hull's bounding box and the centre is its floor midpoint. |
| ConvexHullGeometry.HullInsideItsBox | VideoEffect/VideoEffect.Shared/ImageAnalyzer.cpp:214-257 | Every point of the hull lies within the box described by the computed centre and extents. |
| ConvexHullGeometry.TrackExtremes | VideoEffect/VideoEffect.Shared/ImageAnalyzer.cpp:232-250 | One step of the pass updates the running minimum and maximum of a prefix to those of the prefix one longer, even though the maximum is checked only when no new minimum is found. |
| ConvexHullGeometry.ScanExtremes | VideoEffect/VideoEffect.Shared/ImageAnalyzer.cpp:224-251 | The loop, seeded with the first point, ends with the true minimum and maximum of each coordinate. |
| ConvexHullGeometry.CalculateConvexHullDimensions | VideoEffect/VideoEffect.Shared/ImageAnalyzer.cpp:214-257 | The routine leaves exactly the hull's dimensions, which HullBox characterises. |
| ConvexHullGeometry.ConvexHullDimensionsAsObjectDetails | VideoEffect/VideoEffect.Shared/ImageAnalyzer.cpp:265-274 | The record has a zero id and area and carries the hull's width, height and centre. |
| ConvexHullGeometry.ObjectIsWithinConvexHullBounds | VideoEffect/VideoEffect.Shared/ImageAnalyzer.cpp:416-431 | True if and only if, on both axes, the object's centre lies in center − extent/2 .. center + extent/2 of the hull's box. |
| ConvexHullGeometry.CornersOfTheWindow | VideoEffect/VideoEffect.Shared/ImageAnalyzer.cpp:416-431 | The hull's smallest corner is always within bounds. Its largest corner is within bounds exactly when both extents are even. |
| ConvexHullGeometry.WindowExample | VideoEffect/VideoEffect.Shared/ImageAnalyzer.cpp:416-431 | For a hull centred at 50 with extent 10, an object at 55 is inside and one at 56 is not. |
| ConvexHullGeometry.RectangleDimensions | VideoEffect/VideoEffect.Shared/ImageAnalyzer.cpp:214-257 | A 10 × 20 rectangle gives width 10, height 20 and centre (5, 10). |
| CircularityScorer.Radius | VideoEffect/VideoEffect.Shared/ImageAnalyzer.cpp:293 | The radius (w + h) / 4 is within half a unit of the mean half-extent. |
| CircularityScorer.PointError | VideoEffect/VideoEffect.Shared/ImageAnalyzer.cpp:304-328 | The error for one circle point is −1 exactly for an empty hull, and otherwise non-negative. |
| CircularityScorer.PointErrorIsLargestDistance | VideoEffect/VideoEffect.Shared/ImageAnalyzer.cpp:304-328 | For a non-empty hull, that error is the largest normalised Manhattan distance (divided by (w + h) / 2, then scaled by w / h when h is not zero) from the circle point to any hull point, and some hull point attains it. |
| CircularityScorer.LargestDistance | VideoEffect/VideoEffect.Shared/ImageAnalyzer.cpp:304-328 | The inner loop over the hull's points computes exactly PointError. |
| CircularityScorer.TotalError | VideoEffect/VideoEffect.Shared/ImageAnalyzer.cpp:289-334 | Summing over n circle points gives −n for an empty hull and a non-negative total otherwise. |
| CircularityScorer.CircleCircumferenceError | VideoEffect/VideoEffect.Shared/ImageAnalyzer.cpp:289-334 | The outer loop over the 12 circle points computes exactly TotalError. |
| BestCandidateSelector.Errors | VideoEffect/VideoEffect.Shared/ImageAnalyzer.cpp:171-205 | One entry per candidate, present exactly when the candidate is. A present empty hull scores −12, minus one per circle point. Every other present hull scores at least 0. |
| BestCandidateSelector.FirstMinimumIsUnique | VideoEffect/VideoEffect.Shared/ImageAnalyzer.cpp:191-195 | At most one position is the first minimum. |
| BestCandidateSelector.FirstMinimumExample | VideoEffect/VideoEffect.Shared/ImageAnalyzer.cpp:191-195 | On a tie, the earlier candidate is the first minimum and the later one is not. |
| BestCandidateSelector.ShortHullReusesDimensions | VideoEffect/VideoEffect.Shared/ImageAnalyzer.cpp:186-189 | A hull of fewer than two points is scored with the width, height and centre left by the previous candidate. |
| BestCandidateSelector.NonEmptyHullsScoreNonNegative | VideoEffect/VideoEffect.Shared/ImageAnalyzer.cpp:171-205 | When every candidate present is non-empty, no error is negative. |
| BestCandidateSelector.SelectionPicksFirstMinimum | VideoEffect/VideoEffect.Shared/ImageAnalyzer.cpp:179-204 | The selection fold picks no index exactly when every entry is null, and then reports error −1. Otherwise the chosen entry's error is the one reported, and with no negative error it is the first minimum. |
| BestCandidateSelector.ScoreCandidates | VideoEffect/VideoEffect.Shared/ImageAnalyzer.cpp:179-197 | The scoring loop computes exactly the selection fold over the candidates' errors. |
| BestCandidateSelector.ConvexHullClosestToCircle | VideoEffect/VideoEffect.Shared/ImageAnalyzer.cpp:171-205 | Null exactly when every candidate is null, with error −1. Otherwise the winner is a present candidate reported with its own error and, when no error is negative, it is the first candidate with the smallest error. |
| ConvexHullCollector.PresentAppend | VideoEffect/VideoEffect.Shared/ImageAnalyzer.cpp:146-158 | Keeping the hulls that exist commutes with concatenation. |
| ConvexHullCollector.PresentComesFromResults | VideoEffect/VideoEffect.Shared/ImageAnalyzer.cpp:146-158 | Every hull kept is one of the extraction results. |
| ConvexHullCollector.CollectConvexHulls | VideoEffect/VideoEffect.Shared/ImageAnalyzer.cpp:146-158 | The loop keeps the first min(available, max + 1) hulls that exist, in id order. |
| ConvexHullCollector.ExtractConvexHullsOfLargestObjects | VideoEffect/VideoEffect.Shared/ImageAnalyzer.cpp:128-163 | Without an object map there are no hulls. Otherwise some id list satisfying LargeIdsBySize (the large objects, each once, largest first) yields exactly the first min(available, max + 1) hulls that exist for those ids, in that order. Each hull is built for an object that passes the size filter. |

## Left out

- `createObjectMap`, `organizeObjectMap`, `extractSortedObjectPoints`, `createConvexHull` are not part of this model. The object map and object count are inputs, and the hull built for an object id is a function parameter (`hullFor`).
- `getPointOnCircumference` (`ImageAnalyzer.cpp:440-447`) uses `cos` and `sin` on doubles, so it is not modelled. The circle point for a step is a function parameter (`pointAt`); the model keeps the 12 steps and the integer aggregation.
- Integer widths are not modelled. The UINT16, UINT32 and `int` counters and products (area, Manhattan distances, the error sum) are unbounded integers, so wrap-around on huge images is not captured.
- CircleCircumferenceError and the members around it demand a non-zero divisor for a non-empty hull: (w + h) / 2 > 0, that is w + h >= 2. The source divides by that value at `ImageAnalyzer.cpp:317` and faults whenever w + h < 2, for example on a box 1 wide and 0 tall. The requirement sits on `CircularityScorer.NormalisedDistance`, `CircularityScorer.PointError`, `CircularityScorer.LargestDistance`, `CircularityScorer.TotalError` and `CircularityScorer.CircleCircumferenceError`. It also sits on `BestCandidateSelector.ConvexHullClosestToCircle`, `BestCandidateSelector.Errors` and `BestCandidateSelector.ScoreCandidates` through `Scorable`. That excludes, among others, a one-point first candidate, which the source scores with the initial w = h = 0 (`ImageAnalyzer.cpp:175-176`) and so divides by zero.
- `ObjectFilter.SortObjectDetailsBySize`: `std::sort` is unstable and its order among records of equal size is unspecified. The model proves the ordering and the permutation but leaves the order of equal-size records open; it sorts by insertion.
- `Brightness.ApplyBrightnessToColor`: the target brightness is an integer, but the source takes a `double`. For a fractional target in 0..255 the source loop never ends, because `BrightnessFromColor` always returns a whole number.
- `Brightness.BrightnessFromColor`: the result is the integer quotient, which the source then widens to `double`.
- `PixelArrayConversion.NV12PixelArrayToRGBPixelArray` and `PixelArrayConversion.YUY2PixelArrayToRGBPixelArray` do not model the exceptions as exceptions. The `null` the length guard returns is the `TooFewBytes` outcome, and the `IndexOutOfRangeException` a read past the buffer raises is the `IndexOutOfRange` outcome. The NV12 guard compares against `w * h * 1.5f` in single precision; it is modelled exactly as 2·length < 3·w·h.
- `PixelArrayConversion.NV12PixelArrayToRGBPixelArray`, `PixelArrayConversion.YUY2PixelArrayToRGBPixelArray`: `pixelWidth` and `pixelHeight` are naturals in the model, while the source takes C# `int` (`ImageProcessingUtils.cs:66`, `:130`). Negative dimensions are not modelled. With one negative dimension the guard passes and `new byte[...]` (`:77`, `:142`) throws. With both negative, the guard is checked against a positive product and, when it passes, a zeroed array is returned.
- `ObjectDetailsExtractor.ObjectDetails`: the record produced by `new ObjectDetails()` (`ImageAnalyzer.cpp:38`, `:267`) is assumed to start with every field zero. ObjectDetails.h is not part of this model, so its constructor is not seen.
- `Debug.WriteLine` diagnostics and the bitmap helpers around the conversions (`GetColorAtPoint` and similar) are left out as I/O.
- Convex hulls are sequences of points with natural-number coordinates. The model does not check that they are convex; no routine here depends on it.

## Notes on the source

These are behaviours of the code as written. Where a comment or the description of the program says otherwise, the model follows the code.

- `circleCircumferenceError` keeps, for each circle point, the largest normalised distance to the hull, although its comment speaks of the closest point.
- `convexHullClosestToCircle` keeps width, height and centre in variables shared across candidates. A hull of fewer than two points leaves them unchanged, so it is scored with the previous candidate's box (`BestCandidateSelector.ShortHullReusesDimensions`).
- `extractConvexHullsOfLargestObjects` tests `<=` against the maximum, so it collects up to one hull more than the maximum.
- `resolveLargeObjectIds` compares only the width with the minimum size; the height comparison is commented out.
- NV12: the chroma plane is addressed from `w * h - 1`, one byte before the plane, so U and V are read from shifted positions. For an odd height, the length guard admits buffers that the last row pair reads past (`PixelArrayConversion.NV12OddHeightOverruns`).
- YUY2: U is taken from offset +3 and V from offset +1 of each four-byte group.
- Both conversions store the three converted bytes in the slots commented B, G, R in that order. They write one pixel pair per two input columns, packed, so for an odd width the last h pixels of the array stay zero.
