# breizorro mask pipeline in Dafny

breizorro turns a radio-astronomy restored image into a binary source mask.
This project models the core of that tool, `breizorro/breizorro.py`:

1. `make_noise_map` builds a local noise estimate. It takes the minimum over a
   square window (scipy `minimum_filter`, boundary mode 'reflect'), negates it
   and divides it by a calibration ratio. Negative estimates are replaced by
   1e-10, and every estimate below the global median is raised to that median.
2. `main` thresholds the image against `threshold` times the noise map.
3. It clears the outermost ring of the mask.
4. It optionally dilates the mask with the 4-connected cross, `dilate` times.
5. It optionally fills holes: false regions that cannot reach the edge of the
   image through 4-connected false pixels become true.

The model is written as pure functions over immutable grids:

- Images are `seq<seq<real>>` and masks are `seq<seq<bool>>`.
- `Grids` holds shapes, cells, city-block distance and mask inclusion.
- `Order` holds sorting, counting and numpy's median.
- `NoiseMap`, `Masking`, `Dilation` and `HoleFill` follow the stages above.
- `Pipeline` puts the stages together in the order `main` runs them.

Every operation is paired with a reference definition and a lemma that links
the two:

- Dilation by k passes equals the city-block ball of radius k around the true
  pixels (`DilateReach`).
- The flood fill equals the set of pixels joined to the border by a walk
  through false pixels (`OutsideIsEscapes`).
- The median is characterised by how many values lie below and above it
  (`Order.Median`). Its value is the middle element, or the mean of the two
  middle elements, of any ascending arrangement of the values
  (`Order.MedianOfSortedArrangement`). The flattening it is taken over holds
  pixel (i, j) at position i * width + j (`NoiseMap.FlattenRowMajor`).

The calibration ratio of lines 54-58 is a parameter of the model. It is
computed in floating point from an interpolated `erf` curve, and all the
model needs from it is that it is positive. This includes box size 0, where
the curve is flat at 0 and the interpolation returns the last abscissa, 10.

Points where the code behaves differently from what one might expect:

- A threshold of 0 or below is not rejected. With a non-negative noise map, a
  lower threshold only ever marks more pixels (`Pipeline.BuildMaskThresholdAntitone`).
- For an all-zero image, every window minimum is 0 and `-0/ratio` is not
  below 0, so the floor guard never fires. The noise map is therefore all 0,
  not 1e-10, and the mask is empty (`Pipeline.ZeroImage`).
- Dilation and hole filling use the 4-connected cross only. scipy's default
  structuring element in two dimensions is the cross.
- The border is cleared before dilation. The final border is guaranteed to be
  false only when `dilate == 0` (`Pipeline.BuildMask`). One dilation pass can
  set a border pixel again (`Pipeline.DilationCanMarkBorder`).
- No box size is rejected. scipy's minimum filter only filters along axes
  whose size exceeds 1, and copies the input when no axis is left. A box size
  of 1 or less therefore gives the raw estimate -img/ratio at every pixel
  (`NoiseMap.SmallBoxCopies`). The model uses a window of side 1 for every box
  size below 1 (`NoiseMap.WindowSide`).

## Model

| member | source | states |
|---|---|---|
| NoiseMap.Reflect | breizorro/breizorro.py:59 | 'reflect' boundary mode always yields an index inside the axis, and leaves in-range indices unchanged |
| NoiseMap.ReflectSymmetric | breizorro/breizorro.py:59 | mirroring about either edge of the axis (between -1 and 0, between n-1 and n) gives the same pixel, so the edge pixel is repeated |
| NoiseMap.WindowMin | breizorro/breizorro.py:53-59 | the window minimum is at most every sample of the boxsize-by-boxsize window, equals one of them, and is at most the centre pixel |
| NoiseMap.RawNoiseAt | breizorro/breizorro.py:59 | the raw estimate is -min/ratio: at least -sample/ratio for every sample in the window, equal to it for one sample, hence at least -img/ratio |
| NoiseMap.SmallBoxCopies | breizorro/breizorro.py:53-59 | with a box size of 1 or less the filter is a copy, so the raw estimate is -img/ratio at every pixel |
| NoiseMap.RawNoise | breizorro/breizorro.py:59 | the raw noise grid has the image's shape and is at least -img/ratio at every pixel |
| NoiseMap.FloorGuard | breizorro/breizorro.py:60-61 | afterwards every value is non-negative and no smaller than before; non-negative values are unchanged, negative ones become 1e-10 |
| Order.Sort | breizorro/breizorro.py:62 | the result is ascending and a permutation (same multiset) of the input |
| Order.CountIfPermutation | breizorro/breizorro.py:62 | counting values with a property does not depend on their order |
| Order.Median | breizorro/breizorro.py:62 | the median lies between two values of the sequence, and at most half the values lie strictly below it and at most half strictly above |
| Order.SortedUnique | breizorro/breizorro.py:62 | two ascending sequences with the same multiset of values are equal, so the sorted arrangement the median reads is unique |
| Order.MedianOfSortedArrangement | breizorro/breizorro.py:62 | for any ascending arrangement of the values, the median is its middle element for an odd count and the mean of its two middle elements for an even count |
| NoiseMap.Flatten | breizorro/breizorro.py:62 | every element of the flattened sequence is a pixel value of the grid |
| NoiseMap.FlattenRowMajor | breizorro/breizorro.py:62 | the flattening has one entry per pixel, and pixel (i, j) sits at position i * width + j |
| NoiseMap.FlattenHasEveryEntry | breizorro/breizorro.py:62 | every pixel value occurs in the flattened sequence |
| NoiseMap.GridMedian | breizorro/breizorro.py:62 | the grid median lies between two pixel values, and at most half the entries of the flattening lie below it and at most half above (the flattening holds each pixel once, by NoiseMap.FlattenRowMajor) |
| NoiseMap.MedianNoise | breizorro/breizorro.py:60-62 | the median of the floor-guarded estimates is non-negative |
| NoiseMap.MedianClamp | breizorro/breizorro.py:63-64 | afterwards every value is at least the median and at least its old value, and is either its old value or the median |
| NoiseMap.MakeNoiseMap | breizorro/breizorro.py:49-66 | for every box size, the noise map has the image's shape |
| NoiseMap.MakeNoiseMapBounds | breizorro/breizorro.py:59-64 | every noise value is at least the non-negative median and at least -img/ratio, and is either the guarded raw estimate or the median |
| Masking.Threshold | breizorro/breizorro.py:103 | a pixel is true exactly when the image exceeds threshold times the noise there |
| Masking.ThresholdAntitone | breizorro/breizorro.py:103 | with non-negative noise, raising the threshold gives a subset of the mask |
| Masking.SuppressBorder | breizorro/breizorro.py:105-108 | the first and last row and column become false, and every other pixel is unchanged |
| Masking.SuppressBorderProperties | breizorro/breizorro.py:105-108 | suppression only clears pixels, preserves inclusion between masks, and is idempotent |
| Dilation.DilatedAtNear | breizorro/breizorro.py:112 | one pass of the cross sets a pixel exactly when an in-grid true pixel is within city-block distance 1 (border value 0) |
| Dilation.DilateOnce | breizorro/breizorro.py:112 | one pass keeps the shape, applies the cross at every pixel and loses no pixel |
| Dilation.Dilate | breizorro/breizorro.py:110-113 | k passes keep the shape and lose no pixel, and 0 passes change nothing |
| Dilation.DilateReach | breizorro/breizorro.py:112 | after k passes a pixel is true exactly when the input has a true pixel within city-block distance k |
| Dilation.DilateGrows | breizorro/breizorro.py:112 | more passes give a superset |
| Dilation.DilateMonotone | breizorro/breizorro.py:112 | a larger input mask dilates to a larger mask |
| Dilation.SinglePixelDilation | breizorro/breizorro.py:112 | a single true pixel dilates to the city-block ball of radius k around it |
| HoleFill.Flood | breizorro/breizorro.py:117 | the flood keeps its start set, stays within the false pixels and ends closed under flood steps |
| HoleFill.OutsideIsEscapes | breizorro/breizorro.py:117 | the flood from the false border pixels reaches exactly the pixels joined to the border by a 4-connected walk through false pixels |
| HoleFill.FillHoles | breizorro/breizorro.py:115-117 | the result keeps the shape, and a pixel is true when it was true or the flood from outside does not reach it |
| HoleFill.FillHolesSpec | breizorro/breizorro.py:117 | a pixel stays false exactly when it is false and can reach the border through false pixels |
| HoleFill.FillHolesExtensive | breizorro/breizorro.py:117 | filling only adds pixels |
| HoleFill.FillHolesKeepsBorder | breizorro/breizorro.py:117 | a false pixel on the outermost ring is never filled |
| HoleFill.FillHolesIdempotent | breizorro/breizorro.py:117 | filling a filled mask changes nothing |
| HoleFill.FillHolesMonotone | breizorro/breizorro.py:117 | a larger mask fills to a larger mask |
| HoleFill.EnclosedPixelFilled | breizorro/breizorro.py:117 | a false interior pixel whose four neighbours are true is filled |
| HoleFill.AllFalseStaysFalse | breizorro/breizorro.py:117 | an all-false mask stays all false |
| Pipeline.Morphology | breizorro/breizorro.py:110-117 | dilation then filling loses no pixel, and without dilation no false border pixel becomes true |
| Pipeline.MorphologyMonotone | breizorro/breizorro.py:110-117 | dilation then filling preserves inclusion between masks |
| Pipeline.MorphologyOfEmpty | breizorro/breizorro.py:110-117 | dilation then filling of an empty mask is empty |
| Pipeline.MaskFromNoise | breizorro/breizorro.py:103-117 | the final mask holds every pixel of the border-suppressed threshold mask, and when dilate is 0 its border is all false |
| Pipeline.MaskKeepsDetections | breizorro/breizorro.py:103-117 | every interior pixel above threshold times its noise is in the final mask |
| Pipeline.MaskThresholdAntitone | breizorro/breizorro.py:103-117 | with non-negative noise, a higher threshold gives a subset of the final mask |
| Pipeline.BuildMask | breizorro/breizorro.py:97-117 | for every box size it returns the noise map of `make_noise_map` and a mask, both of the image's shape; the mask holds the suppressed threshold mask, and with dilate 0 its border is all false |
| Pipeline.BuildMaskThresholdAntitone | breizorro/breizorro.py:97-117 | the whole pipeline is antitone in the threshold for every other setting |
| Pipeline.DilationCanMarkBorder | breizorro/breizorro.py:105-113 | with dilate 1, a border pixel can be true in the final mask, because suppression runs before dilation |
| Pipeline.ZeroImageNoise | breizorro/breizorro.py:59-64 | for every box size, an all-zero image gives the all-zero noise map, not the floor value |
| Pipeline.ZeroImageMask | breizorro/breizorro.py:103-117 | an all-zero image with an all-zero noise map gives the all-false mask for every setting |
| Pipeline.ZeroImage | breizorro/breizorro.py:97-117 | for an all-zero image the pipeline returns an all-zero noise map and an all-false mask |

## Left out

- Calibration ratio (lines 54-58): computed in floating point from an interpolated `erf` curve. It is a positive parameter here.
- Floating point: the model uses exact reals, with no rounding, NaN or infinity. A NaN pixel compares false in `>` and `<` in numpy, which is not modelled.
- FITS reading and writing (`get_image` and `flush_fits`, lines 24-46, called at lines 95, 101 and 125), option parsing (lines 75-94) and logging: these are I/O, and the noise map and mask are returned instead of written.
- Negative `dilate`: scipy repeats dilation until nothing changes when `iterations` is below 1. `dilate` is a pass count (`nat`) here, and 0 skips the stage as line 110 does.
- Image planes of three or four axes (lines 27-32 and 40-45): only the two-dimensional plane the pipeline works on is modelled.
- Order.Median: follows numpy's definition (the middle element, or the mean of the two middle elements) but not numpy's selection algorithm, which only affects speed.
- NoiseMap.MakeNoiseMap: its own contract states only the shape, which keeps the contexts of callers small. Its value bounds are stated in NoiseMap.MakeNoiseMapBounds.
