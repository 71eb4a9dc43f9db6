# Geometric transform and resampling core, modelled in Dafny

This project models the core of a small image-transformation tool. The tool
reads a list of commands (`S x y` scale, `R θ y` rotate with `y` ignored, `T x y` translate) and
compiles them into one 3×3 matrix. It then fills a destination grid by
backward mapping: each destination cell is mapped to a source coordinate,
and the source is sampled there with nearest-neighbour or bilinear
interpolation.

Files:

- `matrix.dfy` (module `Matrix`): 3×3 real matrices (`Mat3`) and homogeneous row vectors (`Vec3`). `Mul` is numpy's `dot` on two 3×3 arrays and `Apply` is `p · M`. No code in the model maps a point by a matrix. The offset at transform.py:76 translates only a row vector `p · M`, so the model assumes that convention. An affine matrix then has `(0, 0, 1)ᵀ` as its last column.
- `transform.dfy` (module `Transform`): transform.py. It holds the three elementary matrices, `create_matrices` as a loop method (`CreateMatrices`) and its specification function (`MatricesFrom`), `multiple_matrices` as a left fold (`MultipleMatrices`), and `transformation_to_matrices`.
- `interpolate.dfy` (module `Interpolate`): interpolate.py. It holds Python's `round` (ties to even), `fract`, and the nearest and bilinear loops as methods over `array2` that fill the destination in place. Each loop method is specified per cell by a function (`NearestAt`, `BilinearAt`).

Modelling choices:

- `float32` values are modelled as exact `real`s.
- `cos θ` and `sin θ` are function parameters (`cos`, `sin: real -> real`). The rotation command passes its parameter to them unchanged, as transform.py:61-62 does: there is no degree-to-radian conversion.
- `calc_coordinates(inverse_transformation, i, j)` is the parameter `inverseMap: (int, int) -> (real, real)`, already bound to the inverse matrix. It returns `(row, column)`.
- `does_exceed` is taken to be the evident bounds test `DoesExceed`: the index lies outside `[0, rows) × [0, cols)`.
- Python `round` is written out as `Round`: the nearest integer, with ties going to the even one. `RoundUnique` shows that its two contract properties characterise it.
- An unrecognised command tag is modelled as the code behaves, not excluded. The loop re-appends the previous matrix `m`. If no command has assigned `m` yet, appending it raises the NameError modelled as `Err(UnboundMatrix)`. `reduce` over an empty list raises the TypeError modelled as `Err(EmptyReduce)`.

Behaviour of the code that the model keeps as written:

- Rotation angles go to `cos`/`sin` unconverted (transform.py:61-62): there is no degree-to-radian step.
- `multiple_matrices` folds `M_1 · ⋯ · M_n` over row-vector matrices (transform.py:39), so the first command applies first (`ProductAppliesInOrder`).
- An unknown command tag re-appends the previous matrix or raises NameError (transform.py:26-33). It is not rejected.
- Nothing is clamped. Interpolated intensities and bilinear weights are stored and used as computed (interpolate.py:48-53). See Findings.

## Model

| member | source | states |
|---|---|---|
| Matrix.Mul | transform.py:39 | the product of two matrices with last column (0,0,1)ᵀ again has that last column |
| Matrix.ApplyMul | transform.py:38-39 | mapping a row vector by `a` and then by `b` equals mapping it by `a · b` |
| Matrix.MulIdentity | transform.py:38-39 | the identity matrix is neutral on both sides of the product |
| Matrix.AffineKeepsHomogeneous | transform.py:48-77 | an affine matrix maps a point with w = 1 to a point with w = 1 |
| Transform.ScaleMatrix | transform.py:42-52 | the scale matrix is affine and maps (x, y, w) to (x·sx, y·sy, w) |
| Transform.RotateMatrix | transform.py:55-64 | the rotation matrix is affine and maps (x, y, w) to (x·c − y·s, x·s + y·c, w) |
| Transform.TranslateMatrix | transform.py:67-77 | the translation matrix is affine and maps (x, y, w) to (x + w·dx, y + w·dy, w): the offset is in the bottom row |
| Transform.Elementary | transform.py:26-31 | the matrix a recognised tag selects is affine |
| Transform.CreateMatrices | transform.py:12-35 | the loop yields MatricesFrom(cmds); it fails exactly when the first command is unrecognised; on success there is one matrix per command |
| Transform.MatricesFromShape | transform.py:19-35 | per index: a recognised command gives its own matrix, an unrecognised one repeats the previous matrix; failure exactly when no matrix was assigned before an unrecognised command |
| Transform.WellTaggedMatrices | transform.py:21-33 | with only S/R/T tags the result is the list of elementary matrices, one per command, in command order |
| Transform.MatricesAffineAt | transform.py:19-35 | every matrix create_matrices returns has last column (0,0,1)ᵀ |
| Transform.MultipleMatrices | transform.py:38-39 | the fold fails exactly on the empty list, with the reduce error; a one-element list yields its matrix unchanged |
| Transform.ProductAppliesInOrder | transform.py:38-39 | the folded product maps a point as the matrices do one after another, first to last |
| Transform.ProductAffine | transform.py:38-39 | the product of affine matrices is affine |
| Transform.InsertIdentity | transform.py:38-39 | inserting the identity anywhere into a non-empty list leaves the product unchanged |
| Transform.TransformationToMatrices | transform.py:8-9 | the result is the composed matrix of the commands; it is EmptyReduce exactly for no commands and UnboundMatrix exactly for an unrecognised first tag; on success it is affine and maps points as the command matrices do in order |
| Transform.NeutralMatrices | transform.py:42-77 | `S 1 1` and `T 0 0` give the identity matrix |
| Transform.NeutralCommandInsertion | transform.py:8-39 | inserting `S 1 1` or `T 0 0` anywhere into a non-empty list of recognised commands leaves the composed matrix unchanged |
| Transform.ComposeTranslations | transform.py:67-77 | two translations compose, by product and by the fold, to the translation by the summed offsets |
| Transform.ComposeScales | transform.py:42-52 | two scalings compose, by product and by the fold, to the scaling by the per-axis products |
| Transform.ComposeRotations | transform.py:55-64 | two rotation matrices compose by the angle-addition formulas |
| Transform.RotationDeterminant | transform.py:55-64 | with c² + s² = 1 the rotation matrix has determinant 1 |
| Transform.RotationKeepsLength | transform.py:55-64 | with c² + s² = 1 rotation keeps every point's distance from the origin |
| Interpolate.Round | interpolate.py:28-29 | the rounded value is within 1/2 of x, and is even when x lies exactly halfway |
| Interpolate.RoundUnique | interpolate.py:28-29 | any integer with those two properties equals Round(x) |
| Interpolate.Fract | interpolate.py:34-35 | fract(x) lies in [0, 1) and x − fract(x) is an integer |
| Interpolate.FractUnique | interpolate.py:34-35 | if x = k + f with k an integer and f in [0, 1), then k = floor(x) and f = fract(x) |
| Interpolate.NearestAt | interpolate.py:27-31 | the stored value is the source pixel at the rounded coordinate when that passes the bounds test, and the cell's old value when it fails; either way it is the old value or some source pixel |
| Interpolate.InterpolationNearest | interpolate.py:21-31 | each destination cell becomes the source pixel at its rounded coordinate exactly when that passes the bounds test, and otherwise keeps its value; the source is unchanged |
| Interpolate.Neighbours | interpolate.py:44-47 | the first index is one below the rounded coordinate, or 0 when that is 0; both indices lie in [0, size−1]; the second is the first or the next one; they coincide exactly at the last index; the rounded coordinate lies between first and first+1 |
| Interpolate.Weight | interpolate.py:48-49 | the blend weight is the non-negative distance of the coordinate from the centre k + 0.5 of sample k, and is at most 1 when the coordinate lies within one sample of that centre |
| Interpolate.Blend | interpolate.py:51-53 | if all four samples are equal, the blend equals that value |
| Interpolate.BlendCoefficients | interpolate.py:51-53 | the blend is (1−h)(1−w)·bl + (1−h)w·br + h(1−w)·tl + hw·tr, and these four coefficients sum to 1 |
| Interpolate.BlendWithin | interpolate.py:51-53 | with both weights in [0, 1] the blend stays within any range that holds the four samples |
| Interpolate.InterpolationBilinear | interpolate.py:38-53 | every destination cell is overwritten with the bilinear value at its source coordinate, none skipped; the source is unchanged |
| Interpolate.WidthInUnit | interpolate.py:46-48 | the column weight always lies in [0, 1] |
| Interpolate.HeightInUnit | interpolate.py:44-49 | the row weight lies in [0, 1] except on the top edge of a grid with two or more rows |
| Interpolate.HeightAtTopEdge | interpolate.py:44-49 | on the top edge of a grid with two or more rows the row weight lies in [1, 2] |
| Interpolate.BilinearWithinRange | interpolate.py:44-53 | away from the top edge the bilinear value stays within the range of the source pixels |
| Interpolate.BilinearOfUniform | interpolate.py:44-53 | a uniform source is reproduced exactly at every defined coordinate |
| Interpolate.BilinearTopEdgeOvershoots | interpolate.py:44-53 | a 2×1 source holding 0 over 200, sampled at (0, 0), gives −100 |
| Interpolate.CorrectedWithinRange | interpolate.py:44-53 | the corrected bilinear value stays within the range of the source pixels everywhere, the top edge included |
| Interpolate.CorrectedAgreesAwayFromTopEdge | interpolate.py:44-53 | away from the top edge the corrected value equals the value the code computes |
| Interpolate.NearestAtGridPoint | interpolate.py:27-31 | at a whole-number coordinate inside the grid, nearest sampling gives that very pixel |
| Interpolate.BilinearAtGridPoint | interpolate.py:44-53 | at a whole-number coordinate (i, j) with i, j ≥ 1, the bilinear value is the mean of the 2×2 block ending at (i, j), not the pixel (i, j) |
| Interpolate.BilinearIdentityBlurs | interpolate.py:44-53 | on the 2×2 grid [[0, 0], [0, 4]], sampling at the whole-number coordinate (1, 1) gives 1, where the source holds 4 |
| Interpolate.IntendedAtGridPoint | interpolate.py:44-53 | the intended bilinear value at a whole-number coordinate inside the grid is that pixel |
| Interpolate.BilinearAtCentre | interpolate.py:44-53 | at the pixel centre (i + 0.5, j + 0.5) of any in-grid pixel, edges included, the bilinear value as written is that pixel |
| Interpolate.SamplersDisagree | interpolate.py:27-53 | on a 3×1 source holding 0, 4, 9, nearest and bilinear differ both at (1, 0) (4 against 2) and at the centre (1.5, 0.5) of pixel 1 (9 against 4) |
| Interpolate.IntendedWithinRange | interpolate.py:44-53 | the intended bilinear value stays within the range of the source pixels at every coordinate inside the grid |

`BilinearAt`, the per-cell value in `InterpolationBilinear`'s ensures, models interpolate.py:44-53 and has no contract of its own. Its properties are the lemmas above:
- `WidthInUnit`, `HeightInUnit` and `HeightAtTopEdge` for its weights;
- `BilinearWithinRange` and `BilinearOfUniform` for its value;
- `BilinearTopEdgeOvershoots` for the top edge;
- `BilinearAtGridPoint`, `BilinearIdentityBlurs` and `BilinearAtCentre` for whole-number and pixel-centre coordinates.

## Findings

| source | as written | input that shows it | evidently intended | confidence | as-written member | corrected member |
|---|---|---|---|---|---|---|
| interpolate.py:49 | `height` is measured from `bottom_i` and weights the top row. When `round(old_i) == 0` in a grid of two or more rows, `height` lies in [1, 2], so the bottom row gets the weight `1 − height ≤ 0` | a 2×1 source `[[0], [200]]` sampled at source coordinate (0, 0) gives −100, outside [0, 200] | measure `height` from `top_i` and apply it to the bottom row, as `width` is measured from `left_j` and applied to the right column (line 48): a convex blend at every edge | medium, not executed | Interpolate.BilinearTopEdgeOvershoots | Interpolate.BilinearAtCorrected |
| interpolate.py:44-49 | The nearest loop rounds, so it puts pixel `k` at coordinate `k`. The bilinear weights are distances from sample centres `k + 0.5`, so the bilinear loop puts pixel `k` at `k + 0.5`. The two loops place a pixel half a sample apart, so for any one `calc_coordinates` one of them shifts the image. If `calc_coordinates` maps an identity transform to `(i, j)`, bilinear returns the mean of the 2×2 block ending at `(i, j)`: a half-pixel blur, which at row 0 runs into the top-edge overshoot above. If it maps to `(i + 0.5, j + 0.5)`, bilinear copies the source but nearest shifts odd rows (`round(1.5) == 2`) | on a 3×1 source holding 0, 4, 9: at `(1, 0)` nearest gives 4 and bilinear 2; at `(1.5, 0.5)` bilinear gives 4 and nearest 9 | both loops place pixel `k` at the same coordinate. For the convention nearest uses, bilinear takes the coordinate's floor as the upper-left sample and weights the next row and column by its fractional part, which the file's otherwise unused `fract` (interpolate.py:34-35) computes. Whole-number coordinates then reproduce their pixel. The other repair keeps lines 44-49 and samples them at `(i + 0.5, j + 0.5)` (`BilinearAtCentre`) | low: `calc_coordinates` is not part of this model, not executed | Interpolate.SamplersDisagree | Interpolate.BilinearAtIntended |

`InterpolationBilinear` still models the code as written. The corrected value `BilinearAtCorrected` is given beside it. `CorrectedWithinRange` proves that the corrected value stays in the source range at every coordinate. `CorrectedAgreesAwayFromTopEdge` proves that it differs from the written code only on the top edge. `BilinearAtIntended` corrects both rows, using the floor and `Fract` for coordinates inside the grid. `IntendedAtGridPoint` proves that it reproduces the source when `calc_coordinates` maps an identity transform to `(i, j)`, and `IntendedWithinRange` that it stays in the source range everywhere. Under the other convention the code as written already copies the source: `BilinearAtCentre` proves that sampling at `(i + 0.5, j + 0.5)` returns pixel `(i, j)`, on the edges too.

## Left out

- translate.py: reading the image and the command file, writing the output, and command-line handling are I/O. Its dispatch to `interpolate`, `interpolate_n`, `interpolate_b` and `interpolate_c` names functions that interpolate.py does not define.
- `apply_trans_on_img` (translate.py:26), `calc_coordinates` and `does_exceed` are not part of this model. The canvas sizing and destination allocation that the first would do are therefore absent. `calc_coordinates` is the parameter `inverseMap`. Two things follow from its body being absent. The row-vector convention of `Apply`, and with it the first-command-first order of `ProductAppliesInOrder`, is inferred from the bottom-row offset at transform.py:76, not from code that maps a point. And which coordinate a pixel sits at is not known (see the second Findings row). `does_exceed` is assumed to be the evident bounds test `DoesExceed`.
- `float(x)` / `float(y)` parsing (transform.py:23-24): command parameters are already reals. An item that is not a triple raises ValueError at transform.py:22. That includes a rotation line holding only its angle. The `Command` type excludes such items.
- `float32` rounding and the float representation of `cos`, `sin` and `round`: all arithmetic is exact over the reals, and `cos`/`sin` are parameters.
- The element type of the destination array: `apply_trans_on_img` chooses it. If it is `uint8`, numpy would cast each bilinear value on store (truncating, or wrapping a negative value). The model stores the real value.
- Interpolate.InterpolationBilinear: requires every rounded source coordinate to lie in `[0, rows] × [0, cols]` of a non-empty source (`BilinearDefined`). Outside that range Python wraps negative indices or raises IndexError part-way through the loop, and the model does not cover either.
- Interpolate.InterpolationNearest, Interpolate.InterpolationBilinear: require the destination and source arrays to be distinct objects. The model assumes that `apply_trans_on_img`, whose body is not part of this model, returns a fresh destination array (translate.py:26).
- Interpolate.InterpolationBilinear: the ensures states the final grid only. The row-major order of writes cannot be observed there, because each cell is written once from the unchanged source.
- The commented-out `find_nearest_pixel` and cubic variant (interpolate.py:6-18, 55-70) and the circular `from translate import *` (transform.py:1).
