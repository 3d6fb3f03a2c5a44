/** `AttentionDecoderRNN` (scripts/nnet_models.py): the input size of each
    stacked LSTM cell, and one decoding step, which feeds the layers in order
    and collects their new hidden and cell states. The embedding, the cells'
    numerics, the attention module, the output projection and the
    log-softmax enter the model as function parameters; dropout is left out
    (it is the identity in evaluation mode). */
module AttentionDecoder {
  import opened Tensors

  /** The configuration the constructor receives. */
  datatype Decoder = Decoder(outputSize: nat, embedDim: nat, hiddenSize: nat, nLayers: nat, attention: bool)

  /** The `input_size` given to the LSTMCell of each layer, in layer order. */
  function LayerInputSizes(d: Decoder): seq<nat> {
    seq(d.nLayers, layer =>
      if layer == 0 && d.attention then d.hiddenSize + d.embedDim
      else if layer == 0 then d.embedDim
      else d.hiddenSize)
  }

  /** The input of layer 0: `cat([embedded, context_vector], dim = 1)` with attention,
      the embedded token alone without it. */
  function FirstLayerInput(d: Decoder, embedded: Mat, contextVector: Mat): Mat
    requires d.attention ==> |embedded| == |contextVector|
  {
    if d.attention then CatColumns(embedded, contextVector) else embedded
  }

  /** The input each layer receives in `forward` has exactly the width its cell was
      built for: hidden_size + embed_dim (or embed_dim) for layer 0, and hidden_size
      for every later layer, whose input is the previous layer's new hidden state. */
  lemma LayerInputsFit(d: Decoder, embedded: Mat, contextVector: Mat, newHiddens: seq<Mat>, bsz: nat)
    requires bsz > 0
    requires IsMat(embedded, bsz, d.embedDim)
    requires d.attention ==> IsMat(contextVector, bsz, d.hiddenSize)
    requires |newHiddens| == d.nLayers
    requires forall i :: 0 <= i < d.nLayers ==> IsMat(newHiddens[i], bsz, d.hiddenSize)
    ensures |LayerInputSizes(d)| == d.nLayers
    ensures forall i :: 0 <= i < d.nLayers ==>
      IsMat(if i == 0 then FirstLayerInput(d, embedded, contextVector) else newHiddens[i - 1], bsz, LayerInputSizes(d)[i])
  {
    if d.nLayers > 0 && d.attention {
      var x := FirstLayerInput(d, embedded, contextVector);
      assert forall r :: 0 <= r < bsz ==> |x[r]| == |embedded[r]| + |contextVector[r]|;
    }
  }

  /** `self.layers[i](input, (h, c))`: the LSTMCell of layer i. */
  type CellCall = (nat, Mat, Mat, Mat) -> (Mat, Mat)

  /** `self.att_layer(hidden, encoder_outputs, src_len)` for fixed encoder outputs and
      lengths: the new context vector and the attention weights. */
  type AttendCall = Mat -> (Mat, Mat)

  /** `self.softmax(self.fc_out(out))`: the log-probabilities over the vocabulary. */
  type VocabCall = Mat -> Mat

  /** The results of one step: `out_vocab, context_vec, new_hiddens, new_cs, attn_score`. */
  datatype Step = Step(outVocab: Mat, contextVec: Mat, newHiddens: seq<Mat>, newCs: seq<Mat>, attnScore: Option<Mat>)

  /** `forward(dec_input, context_vector, prev_hiddens, prev_cs, encoder_outputs, src_len)`
      from the embedded token on. Layer i is fed layer i-1's new hidden state (layer 0
      the first-layer input) together with prev_hiddens[i] and prev_cs[i], and the new
      states are collected in layer order. With no layers the library's `cat` of an
      empty list raises: `None`. */
  method Forward(d: Decoder, embedded: Mat, contextVector: Mat, prevHiddens: seq<Mat>, prevCs: seq<Mat>,
                 cell: CellCall, attend: AttendCall, vocab: VocabCall)
    returns (r: Option<Step>)
    requires d.attention ==> |embedded| == |contextVector|
    requires |prevHiddens| >= d.nLayers && |prevCs| >= d.nLayers
    ensures r.None? <==> d.nLayers == 0
    ensures r.Some? ==> |r.value.newHiddens| == d.nLayers && |r.value.newCs| == d.nLayers
    ensures r.Some? ==>
      (r.value.newHiddens[0], r.value.newCs[0]) == cell(0, FirstLayerInput(d, embedded, contextVector), prevHiddens[0], prevCs[0])
    ensures r.Some? ==> forall i :: 0 < i < d.nLayers ==>
      (r.value.newHiddens[i], r.value.newCs[i]) == cell(i, r.value.newHiddens[i - 1], prevHiddens[i], prevCs[i])
    ensures r.Some? && d.attention ==>
      (r.value.contextVec, r.value.attnScore) == (attend(r.value.newHiddens[d.nLayers - 1]).0, Some(attend(r.value.newHiddens[d.nLayers - 1]).1))
    ensures r.Some? && !d.attention ==>
      r.value.contextVec == r.value.newHiddens[d.nLayers - 1] && r.value.attnScore == None
    ensures r.Some? ==> r.value.outVocab == vocab(r.value.contextVec)
  {
    var catedInput := FirstLayerInput(d, embedded, contextVector);
    var newHiddens: seq<Mat> := [];
    var newCs: seq<Mat> := [];
    var hidden: Mat := [];
    var i := 0;
    while i < d.nLayers
      invariant 0 <= i <= d.nLayers
      invariant |newHiddens| == i && |newCs| == i
      invariant i == 0 ==> catedInput == FirstLayerInput(d, embedded, contextVector)
      invariant i > 0 ==> catedInput == newHiddens[i - 1] && hidden == newHiddens[i - 1]
      invariant i > 0 ==>
        (newHiddens[0], newCs[0]) == cell(0, FirstLayerInput(d, embedded, contextVector), prevHiddens[0], prevCs[0])
      invariant forall j :: 0 < j < i ==> (newHiddens[j], newCs[j]) == cell(j, newHiddens[j - 1], prevHiddens[j], prevCs[j])
    {
      var state := cell(i, catedInput, prevHiddens[i], prevCs[i]);
      var c: Mat;
      hidden, c := state.0, state.1;
      catedInput := hidden;
      newHiddens := newHiddens + [hidden];
      newCs := newCs + [c];
      i := i + 1;
    }
    if d.nLayers == 0 {
      r := None;
    } else {
      var out: Mat;
      var attnScore: Option<Mat>;
      if d.attention {
        var attended := attend(hidden);
        out, attnScore := attended.0, Some(attended.1);
      } else {
        out, attnScore := hidden, None;
      }
      var contextVec := out;
      r := Some(Step(vocab(out), contextVec, newHiddens, newCs, attnScore));
    }
  }
}
