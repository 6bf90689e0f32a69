/** Rigid-body poses as an opaque algebra.

    The optimizer only ever composes poses and inverts them; the underlying
    3-D isometry arithmetic is not part of this model, so a pose is an
    opaque value and the two operations are supplied from outside. */
module Poses {

  /** A 6-DoF rigid-body transform (an isometry of 3-space). */
  type Pose(==, !new)

  /** A 6x6 pose covariance. Only stored and handed back, never inspected. */
  type Covariance(==, !new)

  /** The two pose operations the optimizer uses: `compose(a, b)` is a ∘ b
      and `inverse(a)` is a⁻¹. */
  datatype PoseOps = PoseOps(compose: (Pose, Pose) -> Pose, inverse: Pose -> Pose)

  /** Left cancellation, a ∘ (a⁻¹ ∘ b) == b: it holds in every group, in
      particular for exact rigid-body transforms; in floating point it holds
      only up to rounding, so the lemmas that use it take it as a hypothesis. */
  ghost predicate Cancels(ops: PoseOps) {
    forall a, b :: ops.compose(a, ops.compose(ops.inverse(a), b)) == b
  }

  /** The motion that takes pose `from` to pose `to`, from⁻¹ ∘ to: applying
      it after `from` lands exactly on `to`. */
  function RelativeMotion(ops: PoseOps, from: Pose, to: Pose): (delta: Pose)
    ensures Cancels(ops) ==> ops.compose(from, delta) == to
  {
    ops.compose(ops.inverse(from), to)
  }
}
