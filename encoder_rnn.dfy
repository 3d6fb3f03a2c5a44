/** `EncoderRNN` (scripts/nnet_models.py): the zero initial state, the
    sort / restore bookkeeping around the packed bidirectional recurrent
    network, and the reshape that merges the two directions of each layer.
    The recurrent network itself (packing, the LSTM or GRU numerics, padding)
    is a library call and enters the model as a function parameter. */
module EncoderRnn {
  import opened Tensors
  import opened Permutations

  type Tensor4 = seq<Tensor3>

  /** The configuration the constructor stores (`hidden_size`, `n_layers`, `rnn_type`). */
  datatype Encoder = Encoder(inputSize: nat, embedDim: nat, hiddenSize: nat, nLayers: nat, rnnType: string)

  /** What `initHidden` returns: one tensor for "gru", a pair for "lstm", `None` otherwise. */
  datatype InitState = GruInit(h: Tensor3) | LstmInit(h: Tensor3, c: Tensor3) | NoInit

  /** `initHidden(bs)`: zeros of shape (2 * n_layers, bs, hidden_size), one per state. */
  function InitHidden(enc: Encoder, bs: nat): (r: InitState)
    ensures r.GruInit? <==> enc.rnnType == "gru"
    ensures r.LstmInit? <==> enc.rnnType == "lstm"
    ensures !r.NoInit? ==> IsTensor3(r.h, 2 * enc.nLayers, bs, enc.hiddenSize) && AllZero3(r.h)
    ensures r.LstmInit? ==> IsTensor3(r.c, 2 * enc.nLayers, bs, enc.hiddenSize) && AllZero3(r.c)
  {
    assert "gru" != "lstm" by { assert "gru"[0] != "lstm"[0]; }
    if enc.rnnType == "gru" then
      GruInit(Zeros3(2 * enc.nLayers, bs, enc.hiddenSize))
    else if enc.rnnType == "lstm" then
      LstmInit(Zeros3(2 * enc.nLayers, bs, enc.hiddenSize), Zeros3(2 * enc.nLayers, bs, enc.hiddenSize))
    else
      NoInit
  }

  // ---------------------------------------------------------------------
  // The direction merge `view(n_layers, 2, bs, -1).transpose(1, 2).view(n_layers, bs, -1)`

  /** `x.view(nLayers, 2, bs, -1)` on a (2 * nLayers, bs, H) state: entry 2l+d becomes [l][d]. */
  function ViewLayerDirection(x: Tensor3, nLayers: nat): Tensor4
    requires |x| == 2 * nLayers
  {
    seq(nLayers, l requires 0 <= l < nLayers => [x[2 * l], x[2 * l + 1]])
  }

  /** `.transpose(1, 2)`: (nLayers, 2, bs, H) to (nLayers, bs, 2, H). */
  function TransposeDirectionBatch(y: Tensor4, bs: nat): Tensor4
    requires forall l :: 0 <= l < |y| ==> |y[l]| == 2 && |y[l][0]| == bs && |y[l][1]| == bs
  {
    seq(|y|, l requires 0 <= l < |y| => seq(bs, b requires 0 <= b < bs => [y[l][0][b], y[l][1][b]]))
  }

  function Flatten(vs: Mat): Vec {
    if vs == [] then [] else vs[0] + Flatten(vs[1..])
  }

  /** `.view(nLayers, bs, -1)` on a contiguous (nLayers, bs, 2, H) tensor: the last two
      dimensions become one. */
  function FlattenLast(z: Tensor4): Tensor3 {
    seq(|z|, l requires 0 <= l < |z| => seq(|z[l]|, b requires 0 <= b < |z[l]| => Flatten(z[l][b])))
  }

  predicate BatchOf(x: Tensor3, bs: nat) {
    forall k :: 0 <= k < |x| ==> |x[k]| == bs
  }

  /** The whole chain of lines 123-124. */
  function MergeDirections(x: Tensor3, nLayers: nat, bs: nat): Tensor3
    requires |x| == 2 * nLayers && BatchOf(x, bs)
  {
    FlattenLast(TransposeDirectionBatch(ViewLayerDirection(x, nLayers), bs))
  }

  /** The inverse reshape: (nLayers, bs, 2H) back to (2 * nLayers, bs, H). */
  function SplitDirections(y: Tensor3, nLayers: nat, bs: nat, h: nat): (x: Tensor3)
    requires IsTensor3(y, nLayers, bs, 2 * h)
  {
    seq(2 * nLayers, k requires 0 <= k < 2 * nLayers =>
      seq(bs, b requires 0 <= b < bs => if k % 2 == 0 then y[k / 2][b][..h] else y[k / 2][b][h..]))
  }

  lemma FlattenPair(u: Vec, v: Vec)
    ensures Flatten([u, v]) == u + v
  {
    assert [v][1..] == [];
    assert Flatten([v]) == v + [];
    assert [u, v][1..] == [v];
    assert v + [] == v;
  }

  /** Cell (l, b) of the merged state is the forward state followed by the backward state. */
  lemma MergeAt(x: Tensor3, nLayers: nat, bs: nat, l: nat, b: nat)
    requires |x| == 2 * nLayers && BatchOf(x, bs)
    requires l < nLayers && b < bs
    ensures |MergeDirections(x, nLayers, bs)| == nLayers
    ensures |MergeDirections(x, nLayers, bs)[l]| == bs
    ensures MergeDirections(x, nLayers, bs)[l][b] == x[2 * l][b] + x[2 * l + 1][b]
  {
    FlattenPair(x[2 * l][b], x[2 * l + 1][b]);
  }

  /** Merging is the index map result[l][b][d*H + j] == x[2l + d][b][j] for d in {0, 1}. */
  lemma MergeDirectionsIndex(x: Tensor3, nLayers: nat, bs: nat, h: nat)
    requires IsTensor3(x, 2 * nLayers, bs, h)
    ensures IsTensor3(MergeDirections(x, nLayers, bs), nLayers, bs, 2 * h)
    ensures forall l, b, j :: 0 <= l < nLayers && 0 <= b < bs && 0 <= j < h ==>
      MergeDirections(x, nLayers, bs)[l][b][j] == x[2 * l][b][j]
    ensures forall l, b, j :: 0 <= l < nLayers && 0 <= b < bs && h <= j < 2 * h ==>
      MergeDirections(x, nLayers, bs)[l][b][j] == x[2 * l + 1][b][j - h]
  {
    forall l, b | 0 <= l < nLayers && 0 <= b < bs
      ensures MergeDirections(x, nLayers, bs)[l][b] == x[2 * l][b] + x[2 * l + 1][b]
    {
      MergeAt(x, nLayers, bs, l, b);
    }
  }

  /** Splitting undoes merging ... */
  lemma SplitMerge(x: Tensor3, nLayers: nat, bs: nat, h: nat)
    requires IsTensor3(x, 2 * nLayers, bs, h)
    ensures IsTensor3(MergeDirections(x, nLayers, bs), nLayers, bs, 2 * h)
    ensures SplitDirections(MergeDirections(x, nLayers, bs), nLayers, bs, h) == x
  {
    MergeDirectionsIndex(x, nLayers, bs, h);
    var r := MergeDirections(x, nLayers, bs);
    var s := SplitDirections(r, nLayers, bs, h);
    forall k | 0 <= k < 2 * nLayers
      ensures s[k] == x[k]
    {
      var l := k / 2;
      forall b | 0 <= b < bs
        ensures s[k][b] == x[k][b]
      {
        MergeAt(x, nLayers, bs, l, b);
        if k % 2 == 0 {
          assert k == 2 * l;
          assert (x[k][b] + x[k + 1][b])[..h] == x[k][b];
        } else {
          assert k == 2 * l + 1;
          assert (x[k - 1][b] + x[k][b])[h..] == x[k][b];
        }
      }
    }
  }

  /** Rows 2l and 2l + 1 of a (2 * nLayers, bs, H) state belong to layer l. */
  lemma HalveRow(l: nat)
    ensures (2 * l) / 2 == l && (2 * l) % 2 == 0
    ensures (2 * l + 1) / 2 == l && (2 * l + 1) % 2 == 1
  {
  }

  /** ... and merging undoes splitting, so the reshape is a bijection between
      (2 * nLayers, bs, H) and (nLayers, bs, 2H) states. */
  lemma MergeSplit(y: Tensor3, nLayers: nat, bs: nat, h: nat)
    requires IsTensor3(y, nLayers, bs, 2 * h)
    ensures IsTensor3(SplitDirections(y, nLayers, bs, h), 2 * nLayers, bs, h)
    ensures MergeDirections(SplitDirections(y, nLayers, bs, h), nLayers, bs) == y
  {
    var x := SplitDirections(y, nLayers, bs, h);
    assert |x| == 2 * nLayers && BatchOf(x, bs);
    var r := MergeDirections(x, nLayers, bs);
    forall l | 0 <= l < nLayers
      ensures r[l] == y[l]
    {
      forall b | 0 <= b < bs
        ensures r[l][b] == y[l][b]
      {
        MergeAt(x, nLayers, bs, l, b);
        HalveRow(l);
        assert y[l][b][..h] + y[l][b][h..] == y[l][b];
      }
    }
  }

  /** Merging an all-zero state gives an all-zero state. */
  lemma MergeZeros(nLayers: nat, bs: nat, h: nat)
    ensures IsTensor3(MergeDirections(Zeros3(2 * nLayers, bs, h), nLayers, bs), nLayers, bs, 2 * h)
    ensures AllZero3(MergeDirections(Zeros3(2 * nLayers, bs, h), nLayers, bs))
  {
    var x := Zeros3(2 * nLayers, bs, h);
    MergeDirectionsIndex(x, nLayers, bs, h);
    var r := MergeDirections(x, nLayers, bs);
    assert forall l, b, j :: 0 <= l < |r| && 0 <= b < |r[l]| && 0 <= j < |r[l][b]| ==> r[l][b][j] == 0.0;
  }

  // ---------------------------------------------------------------------
  // forward

  /** What `pack_padded_sequence`, the bidirectional `nn.LSTM` and
      `pad_packed_sequence` return together: per-sequence outputs and the final
      (hidden, cell) states, each (2 * n_layers, bs, hidden_size). */
  datatype LstmResult = LstmResult(output: Tensor3, hidden: Tensor3, cell: Tensor3)

  datatype GruResult = GruResult(output: Tensor3, hidden: Tensor3)

  /** The shapes the library guarantees: one output per sequence of the batch, final
      states with as many layer-direction entries and the same batch size as the
      initial ones. */
  predicate LstmShapes(r: LstmResult, x: Tensor3, h0: Tensor3, c0: Tensor3) {
    |r.output| == |x| && |r.hidden| == |h0| && BatchOf(r.hidden, |x|) && |r.cell| == |c0| && BatchOf(r.cell, |x|)
  }

  predicate GruShapes(r: GruResult, x: Tensor3, h0: Tensor3) {
    |r.output| == |x| && |r.hidden| == |h0| && BatchOf(r.hidden, |x|)
  }

  /** A state with `rows` layer-direction entries of `bs` empty vectors each. */
  function BlankState(rows: nat, bs: nat): (t: Tensor3)
    ensures |t| == rows && BatchOf(t, bs)
  {
    seq(rows, _ => seq(bs, _ => []))
  }

  /** Library stand-ins with the right shapes, witnesses for the two types below. */
  function BlankLstm(x: Tensor3, l: seq<nat>, h0: Tensor3, c0: Tensor3): (r: LstmResult)
    ensures LstmShapes(r, x, h0, c0)
  {
    LstmResult(seq(|x|, _ => []), BlankState(|h0|, |x|), BlankState(|c0|, |x|))
  }

  function BlankGru(x: Tensor3, l: seq<nat>, h0: Tensor3): (r: GruResult)
    ensures GruShapes(r, x, h0)
  {
    GruResult(seq(|x|, _ => []), BlankState(|h0|, |x|))
  }

  /** The packed bidirectional LSTM, called as `self.rnn(packed, (hidden, c))`. */
  type PackedLstm = f: (Tensor3, seq<nat>, Tensor3, Tensor3) -> LstmResult
    | forall x, l, h0, c0 :: LstmShapes(f(x, l, h0, c0), x, h0, c0)
    witness BlankLstm

  /** The packed bidirectional GRU, called as `self.rnn(packed, hidden)`. */
  type PackedGru = f: (Tensor3, seq<nat>, Tensor3) -> GruResult
    | forall x, l, h0 :: GruShapes(f(x, l, h0), x, h0)
    witness BlankGru

  /** What `forward` returns on the "lstm" path: `(output, hidden, c)`. */
  datatype EncoderOutput = EncoderOutput(output: Tensor3, hidden: Tensor3, cell: Tensor3)

  /** `sorted_idx = torch.sort(src_len, descending = True)[1]`. */
  function SortedIdx(srcLen: seq<nat>): (p: seq<nat>)
    ensures |p| == |srcLen| && InRange(p, |srcLen|)
  {
    Argsort(srcLen, true)
  }

  /** `orig_idx = torch.sort(sorted_idx)[1]`. */
  function OrigIdx(srcLen: seq<nat>): (q: seq<nat>)
    ensures |q| == |srcLen| && InRange(q, |srcLen|)
  {
    Argsort(SortedIdx(srcLen), false)
  }

  /** The library call of line 118, on the batch gathered by `sorted_idx` and the zero
      initial states. */
  function LstmCall(enc: Encoder, embedded: Tensor3, srcLen: seq<nat>, lstm: PackedLstm): LstmResult
    requires |embedded| == |srcLen|
  {
    var p := SortedIdx(srcLen);
    var h0 := Zeros3(2 * enc.nLayers, |embedded|, enc.hiddenSize);
    lstm(Gather(embedded, p), Gather(srcLen, p), h0, h0)
  }

  /** The value the "lstm" branch of `forward` returns. The final hidden state of the
      library call is bound to a misspelt name (`hiddden`) and dropped, so the
      `hidden` that is reordered and merged is the zero initial state. */
  function LstmForward(enc: Encoder, embedded: Tensor3, srcLen: seq<nat>, lstm: PackedLstm): EncoderOutput
    requires |embedded| == |srcLen|
  {
    var bs := |embedded|;
    var q := OrigIdx(srcLen);
    var h0 := Zeros3(2 * enc.nLayers, bs, enc.hiddenSize);
    var res := LstmCall(enc, embedded, srcLen, lstm);
    EncoderOutput(
      Gather(res.output, q),
      MergeDirections(GatherDim1(h0, q), enc.nLayers, bs),
      MergeDirections(GatherDim1(res.cell, q), enc.nLayers, bs))
  }

  /** `EncoderRNN.forward(enc_inp, src_len)`, from the embedded batch on (the embedding
      lookup and the input dropout are numerics left out of the model). The "gru"
      branch computes its reordered output and state but has no `return`, so the call
      yields `None`, as it does for any other `rnn_type`. */
  method Forward(enc: Encoder, embedded: Tensor3, srcLen: seq<nat>, lstm: PackedLstm, gru: PackedGru)
    returns (r: Option<EncoderOutput>)
    requires |embedded| == |srcLen|
    ensures enc.rnnType == "lstm" ==> r == Some(LstmForward(enc, embedded, srcLen, lstm))
    ensures enc.rnnType != "lstm" ==> r == None
  {
    var sortedIdx := Argsort(srcLen, true);
    var origIdx := Argsort(sortedIdx, false);
    var bs := |embedded|;
    var output := embedded;
    if enc.rnnType == "gru" {
      var init := InitHidden(enc, bs);
      var hidden := init.h;
      var sortedOutput := Gather(output, sortedIdx);
      var sortedLen := Gather(srcLen, sortedIdx);
      var res := gru(sortedOutput, sortedLen, hidden);
      hidden := GatherDim1(res.hidden, origIdx);
      output := Gather(res.output, origIdx);
      r := None;
    } else if enc.rnnType == "lstm" {
      var init := InitHidden(enc, bs);
      var hidden, c := init.h, init.c;
      var sortedOutput := Gather(output, sortedIdx);
      var sortedLen := Gather(srcLen, sortedIdx);
      var res := lstm(sortedOutput, sortedLen, hidden, c);
      var finalHidden := res.hidden;  // `hiddden`: never read again
      c := res.cell;
      hidden := GatherDim1(hidden, origIdx);
      c := GatherDim1(c, origIdx);
      output := Gather(res.output, origIdx);
      c := MergeDirections(c, enc.nLayers, bs);
      hidden := MergeDirections(hidden, enc.nLayers, bs);
      r := Some(EncoderOutput(output, hidden, c));
    } else {
      r := None;
    }
  }

  /** The lengths handed to `pack_padded_sequence` are non-increasing, as packing requires,
      and `sorted_idx` is a permutation of the batch. */
  lemma SortedLengthsNonIncreasing(srcLen: seq<nat>)
    ensures IsPermutation(SortedIdx(srcLen))
    ensures forall i, j :: 0 <= i < j < |srcLen| ==>
      Gather(srcLen, SortedIdx(srcLen))[i] >= Gather(srcLen, SortedIdx(srcLen))[j]
  {
    var p := SortedIdx(srcLen);
    ArgsortSorts(srcLen, true);
    forall i, j | 0 <= i < j < |srcLen|
      ensures Gather(srcLen, p)[i] >= Gather(srcLen, p)[j]
    {
      assert Gather<int>(srcLen, p)[i] == srcLen[p[i]];
      assert Gather<int>(srcLen, p)[j] == srcLen[p[j]];
    }
  }

  /** `orig_idx` is the inverse of `sorted_idx`, however the library orders equal lengths. */
  lemma OrigIdxIsInverse(srcLen: seq<nat>)
    ensures IsPermutation(SortedIdx(srcLen))
    ensures OrigIdx(srcLen) == Inverse(SortedIdx(srcLen))
  {
    ArgsortSorts(srcLen, true);
    ArgsortOfPermutationIsInverse(SortedIdx(srcLen));
  }

  /** Gathering a batch by `sorted_idx` and then by `orig_idx` gives it back in its
      original order (lines 115 and 122, likewise 106 and 112). */
  lemma SortRestoreRoundTrip<T>(x: seq<T>, srcLen: seq<nat>)
    requires |x| == |srcLen|
    ensures Gather(Gather(x, SortedIdx(srcLen)), OrigIdx(srcLen)) == x
  {
    OrigIdxIsInverse(srcLen);
    GatherRoundTrip(x, SortedIdx(srcLen));
  }

  /** The returned `hidden` is all zeros of shape (n_layers, bs, 2 * hidden_size):
      nothing of the recurrent network's final hidden state reaches the caller. */
  lemma LstmHiddenIsZero(enc: Encoder, embedded: Tensor3, srcLen: seq<nat>, lstm: PackedLstm)
    requires |embedded| == |srcLen|
    ensures IsTensor3(LstmForward(enc, embedded, srcLen, lstm).hidden, enc.nLayers, |srcLen|, 2 * enc.hiddenSize)
    ensures AllZero3(LstmForward(enc, embedded, srcLen, lstm).hidden)
  {
    var bs := |embedded|;
    var h0 := Zeros3(2 * enc.nLayers, bs, enc.hiddenSize);
    var q := OrigIdx(srcLen);
    forall k | 0 <= k < |h0|
      ensures Gather(h0[k], q) == h0[k]
    {
    }
    assert GatherDim1(h0, q) == h0;
    MergeZeros(enc.nLayers, bs, enc.hiddenSize);
  }

  /** A library that processes every sequence on its own: output i is `f` of
      sequence i and its length. */
  function PerSequence(f: (Mat, nat) -> Mat, x: Tensor3, lens: seq<nat>): Tensor3
    requires |x| == |lens|
  {
    seq(|x|, i requires 0 <= i < |x| => f(x[i], lens[i]))
  }

  /** When the packed network treats each sequence on its own, output b of `forward`
      belongs to input sequence b: the reordering is undone. */
  lemma LstmOutputsInInputOrder(enc: Encoder, embedded: Tensor3, srcLen: seq<nat>, lstm: PackedLstm,
                                f: (Mat, nat) -> Mat)
    requires |embedded| == |srcLen|
    requires LstmCall(enc, embedded, srcLen, lstm).output
      == PerSequence(f, Gather(embedded, SortedIdx(srcLen)), Gather(srcLen, SortedIdx(srcLen)))
    ensures LstmForward(enc, embedded, srcLen, lstm).output == PerSequence(f, embedded, srcLen)
  {
    var p := SortedIdx(srcLen);
    var all := PerSequence(f, embedded, srcLen);
    assert PerSequence(f, Gather(embedded, p), Gather(srcLen, p)) == Gather(all, p);
    SortRestoreRoundTrip(all, srcLen);
  }

  /** When the final cell state of sorted position i is that of sequence sorted_idx[i]
      (`cell` in the original order), the returned `c` is `cell` merged per layer:
      entry [l][b] is layer l's forward then backward state of sequence b. */
  lemma LstmCellInInputOrder(enc: Encoder, embedded: Tensor3, srcLen: seq<nat>, lstm: PackedLstm,
                             cell: Tensor3)
    requires |embedded| == |srcLen|
    requires IsTensor3(cell, 2 * enc.nLayers, |srcLen|, enc.hiddenSize)
    requires LstmCall(enc, embedded, srcLen, lstm).cell == GatherDim1(cell, SortedIdx(srcLen))
    ensures LstmForward(enc, embedded, srcLen, lstm).cell == MergeDirections(cell, enc.nLayers, |srcLen|)
    ensures IsTensor3(LstmForward(enc, embedded, srcLen, lstm).cell, enc.nLayers, |srcLen|, 2 * enc.hiddenSize)
  {
    var p := SortedIdx(srcLen);
    OrigIdxIsInverse(srcLen);
    GatherDim1RoundTrip(cell, p);
    MergeDirectionsIndex(cell, enc.nLayers, |srcLen|, enc.hiddenSize);
  }
}
