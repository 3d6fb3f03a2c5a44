/** `sequence_mask` (scripts/nnet_models.py): the batch x max_len 0/1 mask of
    the positions that lie inside each sequence. */
module SeqMask {
  import opened Tensors

  /** `sequence_length.max().item()`. */
  function Max(s: seq<nat>): (m: nat)
    requires |s| > 0
    ensures forall i :: 0 <= i < |s| ==> s[i] <= m
    ensures exists i :: 0 <= i < |s| && s[i] == m
  {
    if |s| == 1 then s[0]
    else
      var rest := Max(s[1..]);
      if s[0] >= rest then s[0] else rest
  }

  function Min(a: nat, b: nat): nat {
    if a <= b then a else b
  }

  /** `torch.arange(0, n)`. */
  function Arange(n: nat): seq<int> {
    seq(n, i => i)
  }

  /** `row.unsqueeze(0).repeat([count, 1])`. */
  function RepeatRows(row: seq<int>, count: nat): seq<seq<int>> {
    seq(count, _ => row)
  }

  /** `col.unsqueeze(1).expand_as(...)` to `width` columns. */
  function ExpandColumns(col: seq<nat>, width: nat): seq<seq<int>> {
    seq(|col|, b requires 0 <= b < |col| => seq(width, _ => col[b]))
  }

  /** `(a < b).float()` on two matrices of the same shape. */
  function LessAsFloat(a: seq<seq<int>>, b: seq<seq<int>>): Mat
    requires |a| == |b| && forall i :: 0 <= i < |a| ==> |a[i]| == |b[i]|
  {
    seq(|a|, i requires 0 <= i < |a| =>
      seq(|a[i]|, j requires 0 <= j < |a[i]| => if a[i][j] < b[i][j] then 1.0 else 0.0))
  }

  /** `sequence_mask(lengths, max_len)`: entry (b, t) is 1 exactly when t < lengths[b]. */
  function SequenceMask(lengths: seq<nat>, maxLen: nat): (m: Mat)
    ensures IsMat(m, |lengths|, maxLen)
    ensures forall b, t :: 0 <= b < |lengths| && 0 <= t < maxLen ==>
      m[b][t] == if t < lengths[b] then 1.0 else 0.0
  {
    var batchSize := |lengths|;
    var rangeExpand := RepeatRows(Arange(maxLen), batchSize);
    var lengthExpand := ExpandColumns(lengths, maxLen);
    LessAsFloat(rangeExpand, lengthExpand)
  }

  /** `sequence_mask(lengths, max_len = maxLen)` with the optional argument: when it is
      absent the longest length is used, and on an empty batch the library's
      `max()` raises, modelled as `None`. */
  function SequenceMaskOpt(lengths: seq<nat>, maxLen: Option<nat>): (r: Option<Mat>)
    ensures r.None? <==> maxLen.None? && |lengths| == 0
    ensures r.Some? && maxLen.Some? ==> r.value == SequenceMask(lengths, maxLen.value)
    ensures r.Some? && maxLen.None? ==> r.value == SequenceMask(lengths, Max(lengths))
  {
    match maxLen
    case Some(n) => Some(SequenceMask(lengths, n))
    case None => if |lengths| == 0 then None else Some(SequenceMask(lengths, Max(lengths)))
  }

  function Fill(n: nat, v: real): Vec {
    seq(n, _ => v)
  }

  function Sum(v: Vec): real {
    if v == [] then 0.0 else v[0] + Sum(v[1..])
  }

  /** Row b is min(lengths[b], maxLen) ones followed only by zeros. */
  lemma MaskRowIsPrefix(lengths: seq<nat>, maxLen: nat, b: nat)
    requires b < |lengths|
    ensures var k := Min(lengths[b], maxLen);
      SequenceMask(lengths, maxLen)[b] == Fill(k, 1.0) + Fill(maxLen - k, 0.0)
  {
    var k := Min(lengths[b], maxLen);
    var row := SequenceMask(lengths, maxLen)[b];
    var expected := Fill(k, 1.0) + Fill(maxLen - k, 0.0);
    forall t | 0 <= t < maxLen
      ensures row[t] == expected[t]
    {
      if t < k {
        assert expected[t] == Fill(k, 1.0)[t];
      } else {
        assert expected[t] == Fill(maxLen - k, 0.0)[t - k];
      }
    }
  }

  lemma {:induction false} SumConcat(u: Vec, v: Vec)
    ensures Sum(u + v) == Sum(u) + Sum(v)
  {
    if u == [] {
      assert u + v == v;
    } else {
      assert (u + v)[0] == u[0] && (u + v)[1..] == u[1..] + v;
      SumConcat(u[1..], v);
    }
  }

  lemma {:induction false} SumFill(n: nat, v: real)
    ensures Sum(Fill(n, v)) == n as real * v
  {
    if n > 0 {
      assert Fill(n, v)[1..] == Fill(n - 1, v);
      SumFill(n - 1, v);
    }
  }

  /** Row b holds exactly min(lengths[b], maxLen) ones. */
  lemma MaskRowSum(lengths: seq<nat>, maxLen: nat, b: nat)
    requires b < |lengths|
    ensures Sum(SequenceMask(lengths, maxLen)[b]) == Min(lengths[b], maxLen) as real
  {
    var k := Min(lengths[b], maxLen);
    MaskRowIsPrefix(lengths, maxLen, b);
    SumConcat(Fill(k, 1.0), Fill(maxLen - k, 0.0));
    SumFill(k, 1.0);
    SumFill(maxLen - k, 0.0);
  }

  /** When lengths[b] <= maxLen, row b is lengths[b] ones followed by zeros. */
  lemma MaskRowWithin(lengths: seq<nat>, maxLen: nat, b: nat)
    requires b < |lengths| && lengths[b] <= maxLen
    ensures SequenceMask(lengths, maxLen)[b] == Fill(lengths[b], 1.0) + Fill(maxLen - lengths[b], 0.0)
  {
    MaskRowIsPrefix(lengths, maxLen, b);
    assert Min(lengths[b], maxLen) == lengths[b];
  }

  /** With the default length every row b is lengths[b] ones followed by
      (max - lengths[b]) zeros, and the row of a longest sequence is all ones. */
  lemma DefaultMaskRows(lengths: seq<nat>, b: nat)
    requires b < |lengths|
    ensures SequenceMaskOpt(lengths, None).Some?
    ensures var m := Max(lengths);
      SequenceMaskOpt(lengths, None).value[b] == Fill(lengths[b], 1.0) + Fill(m - lengths[b], 0.0)
    ensures lengths[b] == Max(lengths) ==> SequenceMaskOpt(lengths, None).value[b] == Fill(Max(lengths), 1.0)
  {
    var m := Max(lengths);
    var row := SequenceMask(lengths, m)[b];
    assert SequenceMaskOpt(lengths, None).value[b] == row;
    MaskRowWithin(lengths, m, b);
    if lengths[b] == m {
      forall t | 0 <= t < m
        ensures row[t] == Fill(m, 1.0)[t]
      {
      }
      assert row == Fill(m, 1.0);
    }
  }
}
