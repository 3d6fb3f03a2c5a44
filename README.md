# Sequence-to-sequence bookkeeping of `nnet_models.py`, in Dafny

`scripts/nnet_models.py` defines a sequence-to-sequence translation network
with attention: a bidirectional recurrent encoder, an attention module and a
stacked-LSTM attention decoder. Almost all of it is float numerics inside the
tensor library. This project models the exact integer and index logic around
those numerics, and proves what it promises:

- `sequence_mask`: the batch × max_len 0/1 mask of the positions inside each
  sequence, with `max_len` defaulting to the longest length (module `SeqMask`).
- The encoder's batch reordering (`EncoderRnn`, `Permutations`):
  - `sorted_idx` is a descending argsort of the lengths;
  - `orig_idx` is an argsort of `sorted_idx`, which makes it the inverse permutation;
  - before packing, only the embedded batch and its lengths are gathered by
    `sorted_idx` (lines 115-116); the initial states from `initHidden` go into
    the network unsorted (lines 114, 118);
  - after the network, the outputs and the states are gathered by `orig_idx`
    (lines 119-122). The zero `hidden` on line 119 is therefore permuted by
    `orig_idx` without ever having been sorted.
- The reshape `view(n_layers, 2, bs, -1).transpose(1, 2).view(n_layers, bs, -1)`.
  It merges the forward and backward state of each layer.
- `initHidden`, and what `forward` hands back:
  - on the LSTM path the final hidden state is bound to the misspelt `hiddden`,
    so the returned `hidden` is the zero initial state, reordered and merged;
  - the GRU branch has no `return`, so it yields `None`.
- The attention mask step (`AttentionModule`). The scores are multiplied by the
  transposed mask. Then every entry equal to 0 is overwritten in place with
  -1e10. This also hits a valid position whose raw score is exactly 0.
- The decoder (`AttentionDecoder`): the input size of each stacked LSTMCell,
  and the step loop that feeds the layers in order and collects their new
  hidden and cell states.

Tensors are nested sequences (`Tensors`); float entries are modelled as
`real`. The library calls with numerics inside become function parameters:
- the packed bidirectional LSTM / GRU (`EncoderRnn.PackedLstm`, `EncoderRnn.PackedGru`);
- the decoder's LSTMCells, attention module, and output projection with log-softmax.

The encoder's merged states have shape (n_layers, bs, 2 · hidden_size), as
lines 123-124 compute. They are not reduced to hidden_size.

Failures the source leaves to the library are handled as follows:
- Two failures raised on a particular value become a `None` result: the
  `max()` of an empty length tensor in `sequence_mask`, and the `cat` of an
  empty list in a decoder with zero layers. The other value-triggered
  failures are listed under "Left out".
- Agreements between the shapes of a call's arguments become `requires`.
  Examples: the scores against the lengths, the embedded batch against the
  lengths, enough previous states for every layer. The source does not check
  these.
  - Broken agreements usually make the library raise.
  - Some shapes broadcast instead (see `AttentionModule.MaskScores` under
    "Left out"). Those shapes are outside the model.

## Model

| member | source | states |
|---|---|---|
| `SeqMask.SequenceMask` | scripts/nnet_models.py:65-71 | built from the arange grid, the row repeat, the length expand and the `<` comparison; the result has `batch_size` rows of `max_len` entries, and entry (b, t) is 1.0 iff t < sequence_length[b], else 0.0 |
| `SeqMask.SequenceMaskOpt` | scripts/nnet_models.py:62-64 | an explicit `max_len` is used as given; an absent one defaults to the longest length; `None` exactly when it is absent and the batch is empty (the library's `max()` raises) |
| `SeqMask.Max` | scripts/nnet_models.py:64 | the default `max_len` bounds every length and is one of them |
| `SeqMask.MaskRowIsPrefix` | scripts/nnet_models.py:65-71 | each row is min(len[b], max_len) ones followed only by zeros |
| `SeqMask.MaskRowSum` | scripts/nnet_models.py:65-71 | each row holds exactly min(len[b], max_len) ones |
| `SeqMask.DefaultMaskRows` | scripts/nnet_models.py:63-71 | with the default `max_len`, row b is len[b] ones then max − len[b] zeros, and the row of a longest sequence is all ones |
| `Permutations.ArgsortSorts` | scripts/nnet_models.py:89 | the argsort returned by `torch.sort` is a permutation of the batch, and the keys read through it are in the requested order |
| `Permutations.Inverse` | scripts/nnet_models.py:90 | the reference definition of the inverse permutation: `p[Inverse(p)[v]] == v` for every v |
| `Permutations.InverseIsTwoSided` | scripts/nnet_models.py:90 | the inverse is also a left inverse, and it is itself a permutation |
| `Permutations.InverseInvolution` | scripts/nnet_models.py:90 | inverting twice gives back the permutation |
| `Permutations.SortingPermutationIsInverse` | scripts/nnet_models.py:90 | any permutation that sorts a permutation ascending equals its inverse, so the result does not depend on how the library breaks ties |
| `Permutations.ArgsortOfPermutationIsInverse` | scripts/nnet_models.py:90 | `torch.sort(p)[1]` of a permutation p is the inverse of p |
| `Permutations.GatherRoundTrip` | scripts/nnet_models.py:115-122 | gathering by a permutation and then by its inverse restores the batch, and so does the opposite order |
| `Permutations.GatherDim1RoundTrip` | scripts/nnet_models.py:118-120 | the same round trip for `t[:, idx, :]` on state tensors, as used for the final cell state `c`: returned by the network in sorted order on line 118, restored by `orig_idx` on line 120 |
| `EncoderRnn.SortedIdx` | scripts/nnet_models.py:89 | `sorted_idx` has one in-range index per sequence (its order is stated by `SortedLengthsNonIncreasing`) |
| `EncoderRnn.OrigIdx` | scripts/nnet_models.py:90 | `orig_idx` has one in-range index per sequence (`OrigIdxIsInverse` says which) |
| `EncoderRnn.SortedLengthsNonIncreasing` | scripts/nnet_models.py:116-117 | `sorted_idx` is a permutation, and the lengths passed to `pack_padded_sequence` are non-increasing, as packing requires |
| `EncoderRnn.OrigIdxIsInverse` | scripts/nnet_models.py:89-90 | `orig_idx` is exactly the inverse permutation of `sorted_idx` |
| `EncoderRnn.SortRestoreRoundTrip` | scripts/nnet_models.py:115-122 | gathering any batch by `sorted_idx` and then by `orig_idx` returns it in its original order |
| `EncoderRnn.InitHidden` | scripts/nnet_models.py:127-131 | "gru" gives one state and "lstm" gives two; each is all zeros of shape (2·n_layers, bs, hidden_size); any other type gives nothing |
| `EncoderRnn.MergeDirectionsIndex` | scripts/nnet_models.py:123-124 | the reshape maps (2·n_layers, bs, H) to (n_layers, bs, 2H) with result[l][b][j] = x[2l][b][j] and result[l][b][H + j] = x[2l+1][b][j] |
| `EncoderRnn.SplitMerge` | scripts/nnet_models.py:123-124 | splitting the merged state gives back the (2·n_layers, bs, H) state |
| `EncoderRnn.MergeSplit` | scripts/nnet_models.py:123-124 | merging a split state gives it back, so the reshape is a bijection (and preserves the number of elements) |
| `EncoderRnn.MergeZeros` | scripts/nnet_models.py:124 | merging an all-zero state gives an all-zero state of shape (n_layers, bs, 2H) |
| `EncoderRnn.Forward` | scripts/nnet_models.py:88-125 | on "lstm", the step-by-step rebinding of `hidden`, `c` and `output` returns `LstmForward`; on "gru" (no `return`) and on any other type it yields `None` |
| `EncoderRnn.LstmHiddenIsZero` | scripts/nnet_models.py:114-124 | the returned `hidden` is all zeros of shape (n_layers, bs, 2·hidden_size) whatever the network computed; its final hidden state goes to `hiddden` and is dropped |
| `EncoderRnn.LstmOutputsInInputOrder` | scripts/nnet_models.py:115-122 | when the packed network treats each sequence on its own, output b of `forward` is the network's output for input sequence b |
| `EncoderRnn.LstmCellInInputOrder` | scripts/nnet_models.py:118-123 | when the final cell state follows the sorted order, the returned `c` is the cell state in the original batch order, merged per layer, of shape (n_layers, bs, 2·hidden_size) |
| `AttentionModule.FillZerosWithSentinel` | scripts/nnet_models.py:160 | in place: every entry equal to 0 becomes -1e10; every other entry is unchanged |
| `AttentionModule.MaskScores` | scripts/nnet_models.py:158-160 | the result is a new array of shape (max(src_lens), bsz); every position with t ≥ src_lens[b] holds -1e10; a valid position whose raw score is exactly 0 holds -1e10 too; every other valid score is kept unchanged |
| `AttentionDecoder.LayerInputsFit` | scripts/nnet_models.py:180-186 | the built input sizes are hidden_size + embed_dim with attention, embed_dim without, for layer 0, and hidden_size for later layers; for a non-empty batch, each is exactly the width of what `forward` feeds that layer |
| `AttentionDecoder.Forward` | scripts/nnet_models.py:190-225 | one step collects exactly n_layers new hidden and cell entries in layer order; layer 0 gets the first-layer input, layer i gets layer i−1's new hidden, and both get their own previous states; then attention runs on the last hidden, or without attention that hidden is the context and there is no score; zero layers raise (`None`) |

## Left out

- The layer constructors' uniform weight initialisation (lines 30-59) is random and float-valued, so it is not modelled. This includes the zeroed padding row of the embedding.
- The embedding lookup, LSTM/GRU/LSTMCell numerics, `nn.Linear`, `tanh`, softmax and log-softmax are float numerics inside the library. The attention projections, dot product and weighted sum (lines 149-155, 163-168) are too. Where their results pass through the modelled code they are function parameters.
- Dropout (lines 80, 176, 193, 209, 222) is stochastic. It is left out; the model is the evaluation-mode identity.
- `pack_padded_sequence` / `pad_packed_sequence` internals are part of the library parameters. So is the error they raise on a zero length. Only the non-increasing order that packing needs is modelled and proved.
- `torch.sort` does not fix the order of equal keys. The model fixes a stable order, and the inverse-permutation results hold for any sorting permutation.
- Floats are modelled as reals. In IEEE arithmetic a NaN or infinite score at a padding position gives NaN after the mask product, and that entry is not replaced by -1e10. The real-valued model cannot express this.
- `.to(device)` placement, the `global_variables` configuration (device, `PAD_IDX`) and the `bleu_score` import belong to the environment. They hold no logic here.
- Autograd and gradients are library machinery.
- The commented-out block in the GRU branch (lines 95-104) is dead code.
- EncoderRnn.LstmOutputsInInputOrder: the fact that the packed network treats each sequence on its own is a property of the library. It is taken as a precondition about the call on the sorted batch, not proved.
- EncoderRnn.LstmCellInInputOrder: the same kind of assumption, for the final cell state.
- AttentionModule.MaskScores: requires a non-empty batch. The built-in `max` over an empty `src_lens` on line 158 raises, and no result exists to model.
- AttentionModule.MaskScores: also requires the scores to have exactly the shape (max(src_lens), bsz), and so does not model broadcasting.
  - When max(src_lens), sq_len or one of the two batch sizes is 1, the product on line 159 would broadcast shapes that disagree, without raising.
  - The encoder never produces such a mismatch: its padded outputs have length max(src_len).
- The zero-layer or zero-length corner cases that the library rejects inside `nn.LSTM`, packing or `view` are not modelled as errors. The encoder model computes the empty tensors they would denote.
- Dropout inside the decoder's layer loop (line 209) is the identity, so layer i+1 is fed layer i's new hidden state unchanged.
- The constructors' default arguments (`rnn_type='lstm'` on line 75; `n_layers=1` and `attention=True` on line 171) are not modelled. They only pick a configuration, and `EncoderRnn.Encoder` and `AttentionDecoder.Decoder` take every field explicitly.
