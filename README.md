# Solid-brush compositing and pixel-buffer test helpers, in Dafny

This project models two small pieces of ImageSharp.Drawing that work in place on
pixel buffers, and proves what they do.

1. **The solid-brush applicator** (`SolidBrush.SolidBrushApplicator`). It is bound
   to one image frame. At construction it allocates a colour buffer one row wide
   and fills it with the brush colour, converted once to the frame's pixel type.
   `Apply(scanline, x, y)` takes row `y` from column `x` on and clips that row and
   the coverage scanline to the shorter of the two. It then blends the colour
   into the row in place. The blend amount is the coverage itself when the blend
   percentage is exactly 1, and otherwise a scratch buffer of
   `coverage[i] * BlendPercentage`. `Dispose(disposing)` is guarded by an
   `isDisposed` flag.
2. **The "make opaque" row operation** of the test utilities
   (`MakeOpaqueProcessor<TPixel>.RowIntervalOperation.Invoke`). For each row of a
   half-open row interval it converts the bounds' slice of the row to canonical
   vectors, sets every alpha (`W`) to 1 and writes the row back. The same file's
   buffer comparisons (`CompareBuffers` and the two frame overloads of
   `ComparePixelBufferTo`) are modelled as index loops that report the first
   failing assertion.

Layout:

- `pixel_formats.dfy` (module `PixelFormats`): the canonical `Vector4`, the
  pixel conversions and the pixel blender as caller-supplied functions over a
  pixel type `P`. It also holds the per-element meaning of the library row
  operations the core calls (`ToVector4`, `FromVector4Destructive`, `Blend`),
  with the length guards those calls enforce.
- `memory.dfy` (module `Memory`): a memory owner (allocate, dispose) and
  `Span.Fill`.
- `solid_brush.dfy` (module `Processing`): the brush, its applicator as a class
  with the fields the source updates, and the row-level specification
  `ApplyToRow` with lemmas about it.
- `test_image_extensions.dfy` (module `TestImageExtensions`): the row operation
  as a class, the comparisons, and the row-major layout of a frame's contiguous
  memory.

A frame's pixel buffer is an `array2<P>` indexed `[row, column]`. Its single
contiguous memory is that buffer read row by row (`FlatPixel`). A failed
`Assert.True` is the result `Fail(...)` of type `Outcome`, with the position the
failure message reports.

Two details of the applicator that the model keeps as the code has them:

- `Dispose(true)` hands the colour buffer back to the allocator; `Dispose(false)`,
  the finalizer path, only drops the reference (SolidBrush.cs:76-81).
- The colour buffer is exactly `source.Width` pixels wide (SolidBrush.cs:59).

## Model

| member | source | states |
|---|---|---|
| `Processing.SolidBrush.CreateApplicator` | src/ImageSharp.Drawing/Processing/SolidBrush.cs:28-34 | returns a fresh, valid, undisposed applicator for the given frame and options whose colour is the brush colour converted once to the pixel type |
| `Processing.SolidBrushApplicator.constructor` | src/ImageSharp.Drawing/Processing/SolidBrush.cs:52-61 | the colour buffer is freshly allocated, live, exactly as wide as the frame, and every element equals the converted colour |
| `Processing.SolidBrushApplicator.Dispose` | src/ImageSharp.Drawing/Processing/SolidBrush.cs:69-83 | afterwards the applicator is disposed and `Colors` is null; a call on a disposed applicator changes nothing; the first call hands the buffer back exactly when `disposing` is true |
| `Processing.SolidBrushApplicator.Apply` | src/ImageSharp.Drawing/Processing/SolidBrush.cs:86-123 | requires a valid row `y` and `0 <= x <= width`; row `y` becomes `ApplyToRow` of its old value with the amounts `coverage[i] * BlendPercentage`, in both branches; every other row is unchanged; the colour buffer is not written (`modifies target` only) and stays valid |
| `Processing.Constrain` | src/ImageSharp.Drawing/Processing/SolidBrush.cs:90-98 | the clipped length is at most both the row length from `x` and the scanline length, and equals one of them (it is their minimum) |
| `Processing.ApplyToRow` | src/ImageSharp.Drawing/Processing/SolidBrush.cs:101-121 | the row keeps its length; exactly the clipped columns `[x, x+n)` are blended with the colour by their amount; every column outside them keeps its pixel |
| `Processing.UnitPercentageKeepsCoverage` | src/ImageSharp.Drawing/Processing/SolidBrush.cs:101-114 | at blend percentage 1 the scaled amounts are the coverage itself, so the shortcut branch blends by the same amounts as the scratch-buffer branch |
| `Processing.ScalingFactorsCommute` | src/ImageSharp.Drawing/Processing/SolidBrush.cs:108-121 | uniform coverage `c` at blend percentage `p` leaves the same row as uniform coverage `p` at percentage `c` |
| `Processing.ZeroCoverageKeepsRow` | src/ImageSharp.Drawing/Processing/SolidBrush.cs:108-121 | for a blender that keeps the background at amount 0, zero coverage leaves the row unchanged at any blend percentage |
| `Processing.FullCoverageFillsRow` | src/ImageSharp.Drawing/Processing/SolidBrush.cs:101-103 | for a blender that gives the source at amount 1, full coverage at percentage 1 turns every clipped pixel into the brush colour |
| `Processing.ScaleInto` | src/ImageSharp.Drawing/Processing/SolidBrush.cs:111-114 | every element of the scratch buffer is the coverage value at that position times the blend percentage |
| `Memory.MemoryOwner.Allocate` | src/ImageSharp.Drawing/Processing/SolidBrush.cs:59 | the allocated memory is fresh, has the requested length and is live |
| `Memory.MemoryOwner.Dispose` | src/ImageSharp.Drawing/Processing/SolidBrush.cs:78 | the buffer is handed back to the allocator |
| `Memory.Fill` | src/ImageSharp.Drawing/Processing/SolidBrush.cs:60 | every element of the span equals the fill value |
| `PixelFormats.Blend` | src/ImageSharp.Drawing/Processing/SolidBrush.cs:116-121 | requires the colour source and the amounts to cover the destination; each of the `count` pixels from column `x` of row `y` becomes the blend of its old value with `source[i]` by `amount[i]`; every other pixel is unchanged |
| `PixelFormats.ToVector4` | tests/ImageSharp.Drawing.Tests/TestUtilities/TestImageExtensions.cs:677 | requires the vector span to be at least as long as the row slice; each vector of the slice's length is the converted pixel; the rest of the span is unchanged |
| `PixelFormats.FromVector4Destructive` | tests/ImageSharp.Drawing.Tests/TestUtilities/TestImageExtensions.cs:684 | requires the row slice to be at least as long as the vector span; the slice's first pixels become the converted vectors; every other pixel is unchanged |
| `TestImageExtensions.RowIntervalOperation.constructor` | tests/ImageSharp.Drawing.Tests/TestUtilities/TestImageExtensions.cs:663-668 | the operation holds the given bounds and pixel buffer |
| `TestImageExtensions.RowIntervalOperation.Invoke` | tests/ImageSharp.Drawing.Tests/TestUtilities/TestImageExtensions.cs:672-686 | every pixel with `Min <= y < Max` and `Left <= x < Left + Width` becomes its conversion with `W` set to 1 and converted back; every pixel outside that region is unchanged; its loop invariant states this for the rows `[Min, y)` already done |
| `TestImageExtensions.RowIntervalOperation.InvokeRow` | tests/ImageSharp.Drawing.Tests/TestUtilities/TestImageExtensions.cs:676-684 | for one row `y`: the bounds' columns of row `y` become opaque and every other pixel of the buffer is unchanged |
| `TestImageExtensions.SetOpaque` | tests/ImageSharp.Drawing.Tests/TestUtilities/TestImageExtensions.cs:678-682 | every vector of the span gets `W == 1` and keeps its `X`, `Y` and `Z` |
| `TestImageExtensions.MakeOpaquePixelIdempotent` | tests/ImageSharp.Drawing.Tests/TestUtilities/TestImageExtensions.cs:677-684 | when conversions round-trip exactly and opacity survives quantisation, making a pixel opaque twice gives the same pixel as making it opaque once |
| `TestImageExtensions.InvokeIdempotent` | tests/ImageSharp.Drawing.Tests/TestUtilities/TestImageExtensions.cs:674-684 | under the same two conditions, two invocations over the same interval leave every pixel as one invocation does |
| `TestImageExtensions.IntervalSplitInvariant` | tests/ImageSharp.Drawing.Tests/TestUtilities/TestImageExtensions.cs:674 | invoking on `[low, mid)` and then on `[mid, high)` gives every pixel the value one invocation on `[low, high)` gives it, so the result does not depend on how rows are split into intervals |
| `TestImageExtensions.CompareBuffers` | tests/ImageSharp.Drawing.Tests/TestUtilities/TestImageExtensions.cs:399-411 | fails with "sizes differ" exactly when the lengths differ; passes exactly when the buffers are equal; otherwise fails at the first position where they differ |
| `TestImageExtensions.FlatIndex` | tests/ImageSharp.Drawing.Tests/TestUtilities/TestImageExtensions.cs:450-453 | row `r`, column `c` has a position in the frame's contiguous memory, and reading that position back gives `r` and `c` |
| `TestImageExtensions.RowMajorPosition` | tests/ImageSharp.Drawing.Tests/TestUtilities/TestImageExtensions.cs:450-453 | the position `r * width + c` of row `r`, column `c` lies inside the frame's memory, and dividing it by the width gives back `r` with remainder `c` |
| `TestImageExtensions.FlatAllEqual` | tests/ImageSharp.Drawing.Tests/TestUtilities/TestImageExtensions.cs:447-456 | every pixel of the contiguous memory equals `p` exactly when every pixel of the frame, by row and column, does |
| `TestImageExtensions.FlatMatches` | tests/ImageSharp.Drawing.Tests/TestUtilities/TestImageExtensions.cs:466-474 | a sequence of one pixel per position matches the contiguous memory exactly when it holds the pixel of row `r`, column `c` at that pixel's position |
| `TestImageExtensions.ComparePixelBufferToPixel` | tests/ImageSharp.Drawing.Tests/TestUtilities/TestImageExtensions.cs:447-459 | passes exactly when every pixel of the frame equals the expected pixel; otherwise fails at the first position of the contiguous memory whose pixel differs |
| `TestImageExtensions.ComparePixelBufferToPixels` | tests/ImageSharp.Drawing.Tests/TestUtilities/TestImageExtensions.cs:461-477 | fails with "sizes differ" exactly when the expected buffer is not as long as the frame's memory; passes exactly when it equals that memory (position by position, and row and column by row and column); otherwise fails at the first differing position |

## Left out

- Pixel conversion internals (`PixelOperations.ToVector4`, `FromVector4Destructive`, `Color.ToPixel`) and the `Scale` modifier: the conversions are caller-supplied functions. `Color.ToPixel` is modelled with the same vector-to-pixel conversion (`fromVector`) that `FromVector4Destructive` uses; the source's colour conversion is a separate routine that the model identifies with it. Rounding and quantisation appear only as the two hypotheses `RoundTrips` and `KeepsOpaque`, which the idempotence lemmas take as hypotheses.
- PixelFormats.FromVector4Destructive: the library may overwrite its input vectors; the model leaves them as they were, and `Invoke` promises nothing about the scratch span afterwards.
- The pixel blender's formula and the colour-blending and alpha-composition modes that choose it: the blender is a caller-supplied function. The lemmas about zero and full coverage take as hypotheses the blender's laws at amounts 0 and 1. The mid-grey scenarios, which need the formula itself, are not modelled.
- Floating point: coverage, amounts and vector components are `real`. `BlendPercentage == 1f` is modelled as exact equality on reals.
- The memory allocator's pooling and its allocation failures: allocation creates a fresh array of the requested length.
- The `BrushApplicator` base class (its `Target`, `Options`, `Blender`, `Configuration` and public `Dispose()`) is not part of this model. The applicator's constructor takes the frame, options and blender directly, and only `Dispose(bool)` is modelled.
- Processing.SolidBrushApplicator.Apply: a row `y` outside the frame or a start column `x` outside `[0, Width]` is excluded by a precondition. The source throws `ArgumentOutOfRangeException` from `GetPixelRowSpan(y).Slice(x)` there (SolidBrush.cs:88).
- Processing.SolidBrushApplicator.Apply: calling it after disposal is excluded by a precondition. The source would dereference the null `Colors` and throw.
- The `region` argument of `CreateApplicator`, which the solid brush ignores, and the `Configuration` arguments, which only carry the allocator.
- TestImageExtensions.RowIntervalOperation.Invoke: a non-empty interval whose rows or bounds' columns lie outside the buffer, or a scratch span not exactly `bounds.Width` long, is excluded by the precondition `Fits`. The source throws there, from `DangerousGetRowSpan(y).Slice(bounds.Left, bounds.Width)` (TestImageExtensions.cs:676) or from the conversions' length guards (:677, :684), after the earlier rows of the interval have already been written back.
- `ParallelRowIterator.IterateRowIntervals`, `OnFrameApply`, `MakeOpaque` and `ApplyProcessor`: their point is parallel dispatch, and the engine is not shown. Only the sequential `Invoke` on one interval is modelled; `IntervalSplitInvariant` states that splitting the rows into intervals does not change the result.
- `DangerousTryGetSinglePixelMemory` failing on a frame that is not one contiguous block: the model's buffer is always one block, so that assertion always holds.
- The `Image`-level `ComparePixelBufferTo` overloads, which repeat the frame check for every frame: multi-frame images are not modelled.
- The failure messages' text: a failure carries only its kind and position.
- Image I/O and reference-image comparison (`DebugSave`, `CompareToReferenceOutput*`, `GetReferenceOutputImage*`, `CompareToOriginal`, `VerifyEncoder`): they touch the file system, encoders and image comparers.
- tests/ImageSharp.Drawing.Tests/TestUtilities/PolygonFactory.cs: GeoJSON parsing and float coordinate transforms for test fixtures.
