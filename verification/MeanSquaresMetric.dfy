/**
  The per-point contribution of the mean-squares image-to-image metric.

  At one sampled point of the virtual domain the metric receives a fixed
  intensity, a moving intensity, the moving image's intensity gradient and
  the moving transform's Jacobian with respect to its local parameters. It
  returns the contribution `-(moving - fixed)^2` to the metric value (negated,
  because the registration framework always maximises), the derivative of that
  contribution with respect to every local parameter, and whether the point
  was used. Intensities and coordinates are modelled as `real`.
 */
module MeanSquaresMetric {

  type Point = seq<real>
  type Vector = seq<real>

  /** A matrix as a sequence of rows. */
  type Matrix = seq<seq<real>>

  /** Everything the sampler hands over for one point of the virtual domain. */
  datatype PointArgs = PointArgs(
    virtualPoint: Point,
    fixedPoint: Point,
    fixedValue: real,
    fixedGradient: Vector,
    movingPoint: Point,
    movingValue: real,
    movingGradient: Vector)

  /** What one point contributes: a metric value, one derivative entry per local
      parameter, and whether the point takes part in the aggregation. */
  datatype Contribution = Contribution(value: real, derivative: Vector, used: bool)

  /** The moving transform's parameter Jacobian at a point: one row per moving
      image dimension, one column per local parameter. */
  predicate IsJacobian(J: Matrix, dims: nat, nLocal: nat)
  {
    && |J| == dims
    && forall d :: 0 <= d < |J| ==> |J[d]| == nLocal
  }

  /** The shapes the per-point evaluation relies on: the moving gradient has one
      component per moving image dimension, and the Jacobian matches it. */
  predicate WellShaped(a: PointArgs, J: Matrix, nLocal: nat)
  {
    IsJacobian(J, |a.movingGradient|, nLocal)
  }

  /** The signed intensity difference the metric is built on. */
  function Diff(a: PointArgs): real
  {
    a.movingValue - a.fixedValue
  }

  /** Sum over the first `n` dimensions of `J[dim][par] * grad[dim]`: the rate at
      which the moving intensity changes with parameter `par`. */
  function ColumnDot(J: Matrix, grad: Vector, par: nat, n: nat): real
    requires n <= |J| && n <= |grad|
    requires forall d :: 0 <= d < n ==> par < |J[d]|
  {
    if n == 0 then 0.0 else ColumnDot(J, grad, par, n - 1) + J[n - 1][par] * grad[n - 1]
  }

  /** The closed-form derivative of the contribution with respect to local
      parameter `par`: `-2 * diff * sum over dim of J[dim][par] * grad[dim]`. */
  function DerivativeEntry(a: PointArgs, J: Matrix, nLocal: nat, par: nat): real
    requires WellShaped(a, J, nLocal) && par < nLocal
  {
    -(2.0 * Diff(a) * ColumnDot(J, a.movingGradient, par, |J|))
  }

  /** The closed-form contribution of one point: the chain rule applied to
      `-(moving - fixed)^2`, with the moving intensity depending on the
      parameters through the moving image gradient and the Jacobian. */
  function PointContribution(a: PointArgs, J: Matrix, nLocal: nat): (c: Contribution)
    requires WellShaped(a, J, nLocal)
    ensures c.used
    ensures |c.derivative| == nLocal
  {
    var diff := Diff(a);
    Contribution(
      -(diff * diff),
      seq(nLocal, par requires 0 <= par < nLocal => DerivativeEntry(a, J, nLocal, par)),
      true)
  }

  /** The evaluation as the nested parameter/dimension loops perform it: the
      metric value, and the derivative written into the first `nLocal` entries
      of the caller's buffer `localDerivative`, every other entry left as it
      was. The point is always reported as used. */
  method ProcessPoint(a: PointArgs, J: Matrix, nLocal: nat, localDerivative: Vector)
    returns (used: bool, metricValue: real, derivative: Vector)
    requires WellShaped(a, J, nLocal)
    requires nLocal <= |localDerivative|
    ensures used
    ensures metricValue == PointContribution(a, J, nLocal).value
    ensures |derivative| == |localDerivative|
    ensures forall par :: 0 <= par < nLocal ==>
      derivative[par] == -(2.0 * (a.movingValue - a.fixedValue) * ColumnDot(J, a.movingGradient, par, |J|))
    ensures forall i :: nLocal <= i < |localDerivative| ==> derivative[i] == localDerivative[i]
    ensures derivative[..nLocal] == PointContribution(a, J, nLocal).derivative
  {
    var diff := a.movingValue - a.fixedValue;
    metricValue := -(diff * diff);
    var grad := a.movingGradient;
    derivative := localDerivative;
    var par := 0;
    while par < nLocal
      invariant par <= nLocal
      invariant |derivative| == |localDerivative|
      invariant forall p :: 0 <= p < par ==> derivative[p] == DerivativeEntry(a, J, nLocal, p)
      invariant forall i :: par <= i < |localDerivative| ==> derivative[i] == localDerivative[i]
    {
      var sum := 0.0;
      var dim := 0;
      while dim < |J|
        invariant dim <= |J|
        invariant sum == 2.0 * diff * ColumnDot(J, grad, par, dim)
      {
        sum := sum + 2.0 * diff * J[dim][par] * grad[dim];
        dim := dim + 1;
      }
      derivative := derivative[par := -sum];
      par := par + 1;
    }
    assert derivative[..nLocal] == PointContribution(a, J, nLocal).derivative;
    used := true;
  }
}
