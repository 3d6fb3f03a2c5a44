/** The masking step of `Attention_Module.forward` (scripts/nnet_models.py):
    the raw scores are multiplied by the transposed sequence mask, and then
    every entry that equals 0 is overwritten in place with a large negative
    sentinel, so that the softmax that follows gives it almost no weight. The
    projections, the dot product, the softmax and the weighted sum are float
    numerics and are not part of this model. */
module AttentionModule {
  import opened Tensors
  import opened SeqMask

  /** The fill value `-1e10`. */
  const SENTINEL: real := -10000000000.0

  /** `m.transpose(0, 1)` on a matrix with `cols` columns. */
  function Transpose(m: Mat, cols: nat): (t: Mat)
    requires IsMat(m, |m|, cols)
    ensures IsMat(t, cols, |m|)
    ensures forall i, j :: 0 <= i < cols && 0 <= j < |m| ==> t[i][j] == m[j][i]
  {
    seq(cols, i requires 0 <= i < cols => seq(|m|, j requires 0 <= j < |m| => m[j][i]))
  }

  /** `masked_att[masked_att == 0] = -1e10`: every zero entry of `m` becomes the
      sentinel, every other entry is left as it was. */
  method FillZerosWithSentinel(m: array2<real>)
    modifies m
    ensures forall t, b :: 0 <= t < m.Length0 && 0 <= b < m.Length1 ==>
      m[t, b] == if old(m[t, b]) == 0.0 then SENTINEL else old(m[t, b])
  {
    var t := 0;
    while t < m.Length0
      invariant 0 <= t <= m.Length0
      invariant forall i, j :: 0 <= i < t && 0 <= j < m.Length1 ==>
        m[i, j] == if old(m[i, j]) == 0.0 then SENTINEL else old(m[i, j])
      invariant forall i, j :: t <= i < m.Length0 && 0 <= j < m.Length1 ==> m[i, j] == old(m[i, j])
    {
      var b := 0;
      while b < m.Length1
        invariant 0 <= b <= m.Length1
        invariant forall i, j :: 0 <= i < t && 0 <= j < m.Length1 ==>
          m[i, j] == if old(m[i, j]) == 0.0 then SENTINEL else old(m[i, j])
        invariant forall j :: 0 <= j < b ==>
          m[t, j] == if old(m[t, j]) == 0.0 then SENTINEL else old(m[t, j])
        invariant forall i, j :: (t < i < m.Length0 && 0 <= j < m.Length1) || (i == t && b <= j < m.Length1) ==>
          m[i, j] == old(m[i, j])
      {
        if m[t, b] == 0.0 {
          m[t, b] := SENTINEL;
        }
        b := b + 1;
      }
      t := t + 1;
    }
  }

  /** Lines 158-160 on the raw scores `attScore` (sq_len x bsz, with sq_len the longest
      source length) and the source lengths: a padding position (t >= src_lens[b])
      ends holding the sentinel, so does a valid position whose raw score is exactly
      0, and every other valid score is kept unchanged. */
  method MaskScores(attScore: Mat, srcLens: seq<nat>) returns (maskedAtt: array2<real>)
    requires |srcLens| > 0
    requires IsMat(attScore, Max(srcLens), |srcLens|)
    ensures fresh(maskedAtt)
    ensures maskedAtt.Length0 == Max(srcLens) && maskedAtt.Length1 == |srcLens|
    ensures forall t, b :: 0 <= t < maskedAtt.Length0 && 0 <= b < maskedAtt.Length1 ==>
      (t >= srcLens[b] ==> maskedAtt[t, b] == SENTINEL)
    ensures forall t, b :: 0 <= t < maskedAtt.Length0 && 0 <= b < maskedAtt.Length1 ==>
      (t < srcLens[b] && attScore[t][b] == 0.0 ==> maskedAtt[t, b] == SENTINEL)
    ensures forall t, b :: 0 <= t < maskedAtt.Length0 && 0 <= b < maskedAtt.Length1 ==>
      (t < srcLens[b] && attScore[t][b] != 0.0 ==> maskedAtt[t, b] == attScore[t][b])
  {
    var maxLen := Max(srcLens);
    var bsz := |srcLens|;
    var seqMask := Transpose(SequenceMask(srcLens, maxLen), maxLen);
    // masked_att = seq_mask * att_score
    maskedAtt := new real[maxLen, bsz];
    var t := 0;
    while t < maxLen
      invariant 0 <= t <= maxLen
      invariant forall i, j :: 0 <= i < t && 0 <= j < bsz ==> maskedAtt[i, j] == seqMask[i][j] * attScore[i][j]
    {
      var b := 0;
      while b < bsz
        invariant 0 <= b <= bsz
        invariant forall i, j :: 0 <= i < t && 0 <= j < bsz ==> maskedAtt[i, j] == seqMask[i][j] * attScore[i][j]
        invariant forall j :: 0 <= j < b ==> maskedAtt[t, j] == seqMask[t][j] * attScore[t][j]
      {
        maskedAtt[t, b] := seqMask[t][b] * attScore[t][b];
        b := b + 1;
      }
      t := t + 1;
    }
    FillZerosWithSentinel(maskedAtt);
  }
}
