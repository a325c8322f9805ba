/**
  Algebraic properties of the mean-squares per-point contribution: the sign of
  the value, what happens at equal intensities, linearity of the derivative in
  the moving image gradient, antisymmetry under exchanging the two images'
  intensities, independence from the arguments the evaluation does not read,
  and the derivative as the exact first-order rate of change of the value.
 */
module MeanSquaresProperties {
  import opened MeanSquaresMetric

  /** Every component of `v` multiplied by `k`. */
  function Scale(k: real, v: Vector): Vector
  {
    seq(|v|, i requires 0 <= i < |v| => k * v[i])
  }

  /** Component-wise sum of two vectors of the same length. */
  function Add(u: Vector, v: Vector): Vector
    requires |u| == |v|
  {
    seq(|u|, i requires 0 <= i < |u| => u[i] + v[i])
  }

  /** The column sum is linear in the gradient: scaling the gradient by `k`
      scales the sum by `k`. */
  lemma {:induction false} ColumnDotScale(J: Matrix, grad: Vector, k: real, par: nat, n: nat)
    requires n <= |J| && n <= |grad|
    requires forall d :: 0 <= d < n ==> par < |J[d]|
    ensures ColumnDot(J, Scale(k, grad), par, n) == k * ColumnDot(J, grad, par, n)
  {
    if n > 0 {
      ColumnDotScale(J, grad, k, par, n - 1);
      var prev := ColumnDot(J, grad, par, n - 1);
      var x := J[n - 1][par];
      var y := grad[n - 1];
      assert Scale(k, grad)[n - 1] == k * y;
      assert x * (k * y) == k * (x * y);
      assert k * prev + k * (x * y) == k * (prev + x * y);
    }
  }

  /** The column sum is additive in the gradient. */
  lemma {:induction false} ColumnDotAdd(J: Matrix, g1: Vector, g2: Vector, par: nat, n: nat)
    requires |g1| == |g2|
    requires n <= |J| && n <= |g1|
    requires forall d :: 0 <= d < n ==> par < |J[d]|
    ensures ColumnDot(J, Add(g1, g2), par, n) == ColumnDot(J, g1, par, n) + ColumnDot(J, g2, par, n)
  {
    if n > 0 {
      ColumnDotAdd(J, g1, g2, par, n - 1);
      var x := J[n - 1][par];
      assert Add(g1, g2)[n - 1] == g1[n - 1] + g2[n - 1];
      assert x * (g1[n - 1] + g2[n - 1]) == x * g1[n - 1] + x * g2[n - 1];
    }
  }

  /** The value is the negated squared difference of the two intensities, so
      it is never positive: the metric is maximised, at zero, where the
      intensities agree. */
  lemma ValueIsNegatedSquare(a: PointArgs, J: Matrix, nLocal: nat)
    requires WellShaped(a, J, nLocal)
    ensures PointContribution(a, J, nLocal).value
      == -((a.movingValue - a.fixedValue) * (a.movingValue - a.fixedValue))
    ensures PointContribution(a, J, nLocal).value <= 0.0
  {
  }

  /** At equal intensities the point contributes nothing: the value and every
      derivative entry are zero, whatever the Jacobian and the gradient. */
  lemma EqualIntensitiesVanish(a: PointArgs, J: Matrix, nLocal: nat)
    requires WellShaped(a, J, nLocal)
    requires a.movingValue == a.fixedValue
    ensures PointContribution(a, J, nLocal).value == 0.0
    ensures forall par :: 0 <= par < nLocal ==> PointContribution(a, J, nLocal).derivative[par] == 0.0
  {
  }

  /** Scaling the moving image gradient by `k` scales every derivative entry by
      `k` and leaves the value unchanged. */
  lemma GradientScaling(a: PointArgs, J: Matrix, nLocal: nat, k: real)
    requires WellShaped(a, J, nLocal)
    ensures WellShaped(a.(movingGradient := Scale(k, a.movingGradient)), J, nLocal)
    ensures
      var b := a.(movingGradient := Scale(k, a.movingGradient));
      && PointContribution(b, J, nLocal).value == PointContribution(a, J, nLocal).value
      && forall par :: 0 <= par < nLocal ==>
           PointContribution(b, J, nLocal).derivative[par] == k * PointContribution(a, J, nLocal).derivative[par]
  {
    var b := a.(movingGradient := Scale(k, a.movingGradient));
    forall par | 0 <= par < nLocal
      ensures PointContribution(b, J, nLocal).derivative[par] == k * PointContribution(a, J, nLocal).derivative[par]
    {
      ColumnDotScale(J, a.movingGradient, k, par, |J|);
      var c := 2.0 * Diff(a);
      var s := ColumnDot(J, a.movingGradient, par, |J|);
      assert -(c * (k * s)) == k * -(c * s);
    }
  }

  /** The derivative of the sum of two gradients is the sum of the derivatives. */
  lemma GradientAdditivity(a: PointArgs, g: Vector, J: Matrix, nLocal: nat)
    requires WellShaped(a, J, nLocal)
    requires |g| == |a.movingGradient|
    ensures WellShaped(a.(movingGradient := g), J, nLocal)
    ensures WellShaped(a.(movingGradient := Add(a.movingGradient, g)), J, nLocal)
    ensures
      var b := a.(movingGradient := g);
      var ab := a.(movingGradient := Add(a.movingGradient, g));
      forall par :: 0 <= par < nLocal ==>
        PointContribution(ab, J, nLocal).derivative[par]
          == PointContribution(a, J, nLocal).derivative[par] + PointContribution(b, J, nLocal).derivative[par]
  {
    var b := a.(movingGradient := g);
    var ab := a.(movingGradient := Add(a.movingGradient, g));
    forall par | 0 <= par < nLocal
      ensures PointContribution(ab, J, nLocal).derivative[par]
          == PointContribution(a, J, nLocal).derivative[par] + PointContribution(b, J, nLocal).derivative[par]
    {
      ColumnDotAdd(J, a.movingGradient, g, par, |J|);
      var c := 2.0 * Diff(a);
      var s1 := ColumnDot(J, a.movingGradient, par, |J|);
      var s2 := ColumnDot(J, g, par, |J|);
      assert -(c * (s1 + s2)) == -(c * s1) + -(c * s2);
    }
  }

  /** Exchanging the fixed and moving intensities negates the difference: the
      value is unchanged and every derivative entry changes sign. */
  lemma SwapIntensities(a: PointArgs, J: Matrix, nLocal: nat)
    requires WellShaped(a, J, nLocal)
    ensures
      var b := a.(fixedValue := a.movingValue, movingValue := a.fixedValue);
      && PointContribution(b, J, nLocal).value == PointContribution(a, J, nLocal).value
      && forall par :: 0 <= par < nLocal ==>
           PointContribution(b, J, nLocal).derivative[par] == -PointContribution(a, J, nLocal).derivative[par]
  {
  }

  /** For a given Jacobian, only the two intensities and the moving gradient
      matter: the fixed point, the fixed image gradient and the moving point
      do not change the contribution. The virtual point acts only through the
      Jacobian, which the moving transform evaluates there and which is an
      input of this model, so the `virtualPoint` field itself is never read. */
  lemma IgnoresUnreadArguments(a: PointArgs, b: PointArgs, J: Matrix, nLocal: nat)
    requires WellShaped(a, J, nLocal)
    requires a.fixedValue == b.fixedValue && a.movingValue == b.movingValue
    requires a.movingGradient == b.movingGradient
    ensures WellShaped(b, J, nLocal)
    ensures PointContribution(b, J, nLocal) == PointContribution(a, J, nLocal)
  {
    assert Diff(a) == Diff(b);
    assert forall par :: 0 <= par < nLocal ==>
      PointContribution(b, J, nLocal).derivative[par] == PointContribution(a, J, nLocal).derivative[par];
  }

  /** The sample with its moving intensity raised by `e`. */
  function Moved(a: PointArgs, e: real): PointArgs
  {
    a.(movingValue := a.movingValue + e)
  }

  /** The rate at which the moving intensity changes with local parameter
      `par`: the moving gradient applied to column `par` of the Jacobian. */
  function Rate(a: PointArgs, J: Matrix, nLocal: nat, par: nat): real
    requires WellShaped(a, J, nLocal) && par < nLocal
  {
    ColumnDot(J, a.movingGradient, par, |J|)
  }

  /** The derivative is the exact rate of change of the value: when the moving
      intensity moves along parameter `par` by `t` times its rate of change in
      either direction, the two values differ by exactly `2 * t` times the
      derivative entry (the value is quadratic in the moving intensity, so the
      central difference has no error term). */
  lemma CentralDifference(a: PointArgs, J: Matrix, nLocal: nat, par: nat, t: real)
    requires WellShaped(a, J, nLocal) && par < nLocal
    ensures WellShaped(Moved(a, t * Rate(a, J, nLocal, par)), J, nLocal)
    ensures WellShaped(Moved(a, -(t * Rate(a, J, nLocal, par))), J, nLocal)
    ensures PointContribution(Moved(a, t * Rate(a, J, nLocal, par)), J, nLocal).value
      - PointContribution(Moved(a, -(t * Rate(a, J, nLocal, par))), J, nLocal).value
      == 2.0 * t * PointContribution(a, J, nLocal).derivative[par]
  {
    var e := t * Rate(a, J, nLocal, par);
    var D := PointContribution(a, J, nLocal).derivative[par];
    ShiftDifference(a, J, nLocal, e);
    assert D == -(2.0 * Diff(a) * Rate(a, J, nLocal, par));
    assert 2.0 * t * D == -4.0 * Diff(a) * e;
  }

  /** Moving the moving intensity up by `e` and down by `e` gives values that
      differ by exactly `-4 * diff * e`. */
  lemma ShiftDifference(a: PointArgs, J: Matrix, nLocal: nat, e: real)
    requires WellShaped(a, J, nLocal)
    ensures WellShaped(Moved(a, e), J, nLocal) && WellShaped(Moved(a, -e), J, nLocal)
    ensures PointContribution(Moved(a, e), J, nLocal).value - PointContribution(Moved(a, -e), J, nLocal).value
      == -4.0 * Diff(a) * e
  {
    assert Diff(Moved(a, e)) == Diff(a) + e;
    assert Diff(Moved(a, -e)) == Diff(a) - e;
  }

  /** One dimension, one parameter, J = [[1]], fixed 2, moving 5, gradient [4]:
      the value is -9 and the derivative is [-24]. */
  lemma OneDimensionalExample()
    ensures PointContribution(PointArgs([0.0], [0.0], 2.0, [0.0], [0.0], 5.0, [4.0]), [[1.0]], 1)
      == Contribution(-9.0, [-24.0], true)
  {
  }
}
