# Mean-squares metric: per-point contribution

This project models the per-point step of ITK's mean-squares
image-to-image metric, `GetValueAndDerivativeProcessPoint`. The threaded
domain driver calls it once for every sampled point of the virtual domain.
It receives the fixed and moving intensities, the moving image's intensity
gradient and the moving transform's Jacobian with respect to its local
parameters. It returns three things:

- the value `-(moving - fixed)^2`, negated because the registration framework
  always maximises;
- one derivative entry per local parameter, `-sum over dim of 2 * diff * J[dim][par] * grad[dim]`;
- the flag `true`, meaning the point was used.

Intensities, gradients and Jacobian entries are Dafny `real`s. The Jacobian is
a `seq<seq<real>>` with one row per moving-image dimension and one column per
local parameter. It is an input: the transform that computes it is not part of
this model.

Files:

- `MeanSquaresMetric.dfy`: the data model (`PointArgs`, `Contribution`), the
  closed-form contribution `PointContribution`, and `ProcessPoint`. The
  `ProcessPoint` method runs the nested `par`/`dim` loops of the source. It
  writes into the caller's derivative buffer, and it is proved to agree with
  the closed form.
- `MeanSquaresProperties.dfy`: the algebraic properties. These are the value's
  sign, vanishing at equal intensities, linearity of the derivative in the
  gradient, antisymmetry under swapping the two intensities, independence from
  the arguments the code never reads, and the derivative as the exact rate of
  change of the value.
- `NarrowPixelDifference.dfy`: the difference as written when the fixed and
  moving pixel types are both 8-bit unsigned (see Findings).

## Model

| member | source | states |
|---|---|---|
| MeanSquaresMetric.PointContribution | include/itkMeanSquaresImageToImageObjectMetric.hxx:63-126 | the closed-form contribution of one point: it always reports the point as used and has exactly one derivative entry per local parameter |
| MeanSquaresMetric.ProcessPoint | include/itkMeanSquaresImageToImageObjectMetric.hxx:108-125 | the nested parameter/dimension loops return the closed-form value. For every `par < nLocal` they write `-2 * diff * sum_dim J[dim][par] * grad[dim]` into the buffer and leave every entry at or beyond `nLocal` untouched. The prefix they write equals the closed-form derivative, and the result flag is `true` |
| MeanSquaresProperties.ValueIsNegatedSquare | include/itkMeanSquaresImageToImageObjectMetric.hxx:79-80 | the value equals `-(moving - fixed)^2` and is never positive |
| MeanSquaresProperties.EqualIntensitiesVanish | include/itkMeanSquaresImageToImageObjectMetric.hxx:79-121 | when the moving intensity equals the fixed one, the value and every derivative entry are zero, whatever the Jacobian and gradient |
| MeanSquaresProperties.ColumnDotScale | include/itkMeanSquaresImageToImageObjectMetric.hxx:112-115 | scaling the gradient by `k` scales the column sum `sum_dim J[dim][par] * grad[dim]` by `k` |
| MeanSquaresProperties.ColumnDotAdd | include/itkMeanSquaresImageToImageObjectMetric.hxx:112-115 | the column sum of a sum of two gradients is the sum of their column sums |
| MeanSquaresProperties.GradientScaling | include/itkMeanSquaresImageToImageObjectMetric.hxx:112-121 | scaling the moving gradient by `k` scales every derivative entry by `k` and leaves the value unchanged |
| MeanSquaresProperties.GradientAdditivity | include/itkMeanSquaresImageToImageObjectMetric.hxx:112-121 | the derivative for the sum of two gradients is the sum of the two derivatives, entry by entry |
| MeanSquaresProperties.SwapIntensities | include/itkMeanSquaresImageToImageObjectMetric.hxx:79-121 | exchanging the fixed and moving intensities leaves the value unchanged and negates every derivative entry |
| MeanSquaresProperties.IgnoresUnreadArguments | include/itkMeanSquaresImageToImageObjectMetric.hxx:66-76 | for a given Jacobian, the fixed point, the fixed gradient and the moving point do not affect the result; the virtual point acts only through the Jacobian, which the moving transform evaluates there (lines 100-102) and which is an input here. No fixed-transform term enters: only the two intensities, the moving gradient and the moving Jacobian count |
| MeanSquaresProperties.ShiftDifference | include/itkMeanSquaresImageToImageObjectMetric.hxx:79-80 | raising the moving intensity by `e` and lowering it by `e` gives values that differ by exactly `-4 * diff * e` |
| MeanSquaresProperties.CentralDifference | include/itkMeanSquaresImageToImageObjectMetric.hxx:79-121 | derivative entry `par` is the exact rate of change of the value. Move the moving intensity by `+t` and by `-t` times its rate of change along `par`. The two values then differ by exactly `2 * t` times that entry |
| MeanSquaresProperties.OneDimensionalExample | include/itkMeanSquaresImageToImageObjectMetric.hxx:79-121 | with one dimension, one parameter, `J = [[1]]`, fixed 2, moving 5 and gradient `[4]`, the value is -9 and the derivative is `[-24]` |
| NarrowPixelDifference.DiffAsWritten | include/itkMeanSquaresImageToImageObjectMetric.hxx:79 | with 8-bit unsigned fixed and moving pixel types, the stored difference is the true difference or the true difference plus 256. It is the latter whenever the moving intensity is below the fixed one |
| NarrowPixelDifference.ValueAsWritten | include/itkMeanSquaresImageToImageObjectMetric.hxx:79-80 | with 8-bit unsigned fixed and moving pixel types, the value as written is `-(moving - fixed)^2` when moving is not below fixed, and `-(moving - fixed + 256)^2` when it is |
| NarrowPixelDifference.AsWrittenSymmetricOnlyAtHalfRange | include/itkMeanSquaresImageToImageObjectMetric.hxx:79-80 | for every pair of distinct 8-bit pixels, the value as written is unchanged by exchanging them if and only if they are exactly 128 apart; for every other gap the symmetry of the squared difference is lost |
| NarrowPixelDifference.AsWrittenBreaksSymmetry | include/itkMeanSquaresImageToImageObjectMetric.hxx:79-80 | with fixed 5 and moving 2 the wrapped difference is 253 and the value is -64009. Swapped, the value is -9 |
| NarrowPixelDifference.CorrectedKeepsSymmetry | include/itkMeanSquaresImageToImageObjectMetric.hxx:79-80 | with the difference formed in the real measure type, the value is `-(moving - fixed)^2` and does not change when the two pixels are exchanged |
| NarrowPixelDifference.CorrectedOnCounterexample | include/itkMeanSquaresImageToImageObjectMetric.hxx:79-80 | the corrected value at fixed 5 and moving 2 is -9 in both orders |

## Left out

- `GetValueAndDerivative` (lines 44-58): it only starts the threaded pass, runs the post-processing step and reads back the result. The routines it calls live in a superclass that is not part of this model. Per-worker accumulation, the merge and averaging over used samples are therefore not modelled.
- `ComputeJacobianWithRespectToParameters` (lines 100-102): this is a call into the moving transform. The Jacobian it produces is a parameter of `PointContribution` and `ProcessPoint`.
- The per-thread Jacobian scratch buffer and the `threadID` argument (lines 90-93): these concern storage and concurrency and do not change the arithmetic, so `ProcessPoint` has no thread argument.
- The constructor, the destructor, `PrintSelf` and `Initialize` (lines 29-39, 131-148): these are empty or delegate to the superclass.
- The commented-out debug output and the commented-out fixed-transform Jacobian term (lines 81-88, 95-97, 103-106, 116-120, 123): these are not executed code. The model keeps the asymmetry: only the moving transform contributes.
- Floating point: everything is exact `real` arithmetic. IEEE double rounding, the order of summation and any tolerance between single-worker and multi-worker results are not modelled.
- Integer pixel types: outside `NarrowPixelDifference`, intensities are reals. The main model does not follow the conversion of the difference to the fixed pixel type (line 79) for integer pixel types (see Findings).
- Size checks: the code does not check dimensions or worker indices. The shapes it relies on are preconditions (`WellShaped`, and a derivative buffer of at least `nLocal` entries), not error outcomes.

## Findings

| source | as written | input that shows it | evidently intended | confidence | as-written member | corrected member |
|---|---|---|---|---|---|---|
| include/itkMeanSquaresImageToImageObjectMetric.hxx:79-80 | `diff` is declared with the fixed image pixel type. For 8-bit unsigned fixed and moving pixel types, `moving - fixed` wraps modulo 256 before it is squared, and for distinct pixels the value is symmetric only when they are 128 apart (`AsWrittenSymmetricOnlyAtHalfRange`) | unsigned 8-bit pixels, fixed 5, moving 2: the difference is 253, the value is -64009, and the value with the two pixels exchanged is -9 | the difference is formed in the measure type, so the value is `-(moving - fixed)^2` and symmetric in the two intensities | medium: it applies only when the metric is instantiated with 8-bit unsigned fixed and moving pixel types (other integer widths wrap differently, and a floating-point moving type converted to an unsigned fixed type is a different conversion); not executed | NarrowPixelDifference.AsWrittenBreaksSymmetry | NarrowPixelDifference.CorrectedKeepsSymmetry |
