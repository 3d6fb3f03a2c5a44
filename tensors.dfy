/** Tensors as nested sequences of reals, and the indexing operations of the
    numerical library that the model relies on. Floating-point values are
    abstracted as `real`. */
module Tensors {

  /** A value that may be absent (`None` in the source). */
  datatype Option<T> = None | Some(value: T)

  type Vec = seq<real>
  type Mat = seq<Vec>
  type Tensor3 = seq<Mat>

  /** `m` has shape (rows, cols). */
  predicate IsMat(m: Mat, rows: nat, cols: nat) {
    |m| == rows && forall i :: 0 <= i < rows ==> |m[i]| == cols
  }

  /** `t` has shape (d0, d1, d2). */
  predicate IsTensor3(t: Tensor3, d0: nat, d1: nat, d2: nat) {
    |t| == d0 && forall i :: 0 <= i < d0 ==> IsMat(t[i], d1, d2)
  }

  predicate AllZero3(t: Tensor3) {
    forall i, j, k :: 0 <= i < |t| && 0 <= j < |t[i]| && 0 <= k < |t[i][j]| ==> t[i][j][k] == 0.0
  }

  /** `torch.zeros(d0, d1, d2)`. */
  function Zeros3(d0: nat, d1: nat, d2: nat): (t: Tensor3)
    ensures IsTensor3(t, d0, d1, d2) && AllZero3(t)
  {
    seq(d0, _ => seq(d1, _ => seq(d2, _ => 0.0)))
  }

  /** Every index in `idx` addresses one of `n` entries. */
  predicate InRange(idx: seq<nat>, n: nat) {
    forall i :: 0 <= i < |idx| ==> idx[i] < n
  }

  /** `x[idx]`: indexing the first dimension with an index tensor. */
  function Gather<T>(x: seq<T>, idx: seq<nat>): seq<T>
    requires InRange(idx, |x|)
  {
    seq(|idx|, i requires 0 <= i < |idx| => x[idx[i]])
  }

  /** `t[:, idx, :]`: indexing the second dimension with an index tensor. */
  function GatherDim1<T>(t: seq<seq<T>>, idx: seq<nat>): seq<seq<T>>
    requires forall k :: 0 <= k < |t| ==> InRange(idx, |t[k]|)
  {
    seq(|t|, k requires 0 <= k < |t| => Gather(t[k], idx))
  }

  /** `torch.cat([a, b], dim = 1)` on two matrices with the same number of rows. */
  function CatColumns(a: Mat, b: Mat): Mat
    requires |a| == |b|
  {
    seq(|a|, i requires 0 <= i < |a| => a[i] + b[i])
  }
}
