# Decoding engine of the torchnmt Transformer, in Dafny

torchnmt's `Transformer` can produce translations at inference time in two
ways. With `beam_width == 1`, `greedy_inference` decodes the whole batch in
lockstep:

- every running sequence grows by the arg-max token of the decoder output;
- a sequence that emits `</s>` moves to a `finished` list;
- the four parallel arrays `running`, `batch_idx`, `mem` and `mem_mask` are
  compacted to the rows still running;
- at the end the outputs are sorted back into batch order.

Any other beam width goes through `beam_search_inference`, which calls
`beam_search_helper` once per example. The helper works on a single example:

- its beam starts as `beam_width` copies of `[<s>]`, scored 0, -inf, ..., -inf;
- each step expands every hypothesis to its own top-k tokens, adds the
  parent's score, keeps the global top-k of the k-by-k grid and recovers
  each parent as `idxs // k`;
- hypotheses that end in `</s>` move to `finished`, so the beam shrinks;
- at the end it returns the best-scoring hypothesis among the finished ones
  and those still active.

The model sees the trained network only as a deterministic scoring function
(`Decoder.Model`). The function gives an integer logit for each vocabulary
token, given one example's encoder memory, its source mask and the target
prefix. `log_softmax` is `row[t] - logSumExp(row)`, with `logSumExp` a
parameter. Scores are integers extended with -inf (`Scores.Score`).

The files:

- `scores.dfy`: scores with -inf, and first-maximum selection (the tie rule
  of `argmax` and of Python's `max`).
- `selection.dfy`: `torch.topk` as a stable descending ranking.
- `decoder.dfy`: the network interface, logits, log-probabilities and arg-max.
- `compaction.dfy`: `nonzero` selection, index gathering, zipping and the
  stable sort by key.
- `greedy.dfy`: the reference definition `GreedyDecode` for one example, and
  the batched loop `GreedyInference`, proved equal to it example by example.
- `beam.dfy`: the reference definition `BeamSearch` for one example, its
  properties, and the loop `BeamSearchHelper`, proved equal to it.
- `transformer.dfy`: `beam_search_inference` and the inference branch of
  `forward`.

Two of the ways a call can raise in PyTorch are modelled, as `Beam.Result` errors:

- `InvalidBeamWidth`: a beam width below 1 (`logps[0] = 0` on an empty
  tensor, or a tensor of negative size);
- `TopKOutOfRange`: `torch.topk` with k above the vocabulary size.

## Model

| member | source | states |
|---|---|---|
| Scores.Add | torchnmt/networks/transformer.py:159 | adding a parent score to a log-probability: the sum is finite iff both are, and is then their sum; -inf absorbs |
| Scores.FirstMax | torchnmt/networks/transformer.py:99 | the index returned is of a maximal element, and every earlier element is strictly smaller (first maximum) |
| Scores.FirstMaxUnique | torchnmt/networks/transformer.py:99 | these two properties determine the index |
| Scores.FirstMaxShift | torchnmt/networks/transformer.py:153 | subtracting one constant from a whole row (the log-softmax normaliser) does not move its first maximum |
| Selection.InsertRanked | torchnmt/networks/transformer.py:156 | inserting an index into a ranked list keeps it ranked (descending score, lower index first among equals) and adds exactly that index |
| Selection.Ranking | torchnmt/networks/transformer.py:156 | a ranking of the first n positions is ranked and holds each of positions 0..n-1 exactly once |
| Selection.TopK | torchnmt/networks/transformer.py:156 | `torch.topk(xs, k)` gives k distinct indices in non-increasing score order, and no index left out scores above any index kept |
| Selection.TopOneIsFirstMax | torchnmt/networks/transformer.py:156 | the single best entry is the first maximum |
| Selection.TopKOfFiniteHead | torchnmt/networks/transformer.py:165 | when exactly the first k entries are finite, the top k are all among them |
| Decoder.Logits | torchnmt/networks/transformer.py:98 | the decoder output has one logit per vocabulary token |
| Decoder.LogProbs | torchnmt/networks/transformer.py:153 | log_softmax keeps the row width |
| Decoder.ArgMax | torchnmt/networks/transformer.py:99 | the token chosen is in the vocabulary and has a maximal logit, and every lower token has a strictly smaller logit |
| Decoder.LogProbsNonPositive | torchnmt/networks/transformer.py:153 | when the normaliser bounds every entry of its row, no log-probability is above 0 |
| Decoder.TopOneIsArgMax | torchnmt/networks/transformer.py:99 | the top-1 token of the log-probabilities is the arg-max of the logits |
| Compaction.Where | torchnmt/networks/transformer.py:102-103 | `(ws == tok).nonzero()` / `(ws != tok).nonzero()`: increasing positions in range, and a position is listed iff its comparison matches |
| Compaction.WhereSplits | torchnmt/networks/transformer.py:172-173 | the finished and running selections together have as many positions as the rows |
| Compaction.GatherIncreasing | torchnmt/networks/transformer.py:109 | indexing an increasing `batch_idx` at increasing positions keeps it increasing |
| Compaction.Gather | torchnmt/networks/transformer.py:108-111 | `s[idx]`: one entry per index, entry a being s[idx[a]] (also lines 177-178) |
| Compaction.Zip | torchnmt/networks/transformer.py:105-106 | `list(zip(xs, ys))`: one pair per position, pairing the entries at that position (also line 116) |
| Compaction.InsertByKeyPermutes | torchnmt/networks/transformer.py:117 | inserting a pair adds exactly that pair |
| Compaction.InsertByKeySorted | torchnmt/networks/transformer.py:117 | inserting into a key-sorted list keeps it sorted |
| Compaction.InsertByKeyStrict | torchnmt/networks/transformer.py:117 | inserting a fresh key into a strictly sorted list keeps it strictly sorted |
| Compaction.SortByKey | torchnmt/networks/transformer.py:117 | `sorted(ps, key=lambda x: x[0])` is sorted by key and a permutation of ps |
| Compaction.InsertFirst | torchnmt/networks/transformer.py:117 | inserting the first pair into a sorted permutation of the rest gives a sorted permutation of the whole |
| Compaction.SortDistinctStrict | torchnmt/networks/transformer.py:117 | with distinct keys the sorted list has strictly increasing keys |
| Compaction.KeysAreIdentity | torchnmt/networks/transformer.py:117 | n strictly increasing keys below n are 0, 1, ..., n-1 |
| Greedy.Extend | torchnmt/networks/transformer.py:96-114 | definition: the greedy continuation of one example's prefix with a number of loop steps left; it appends the arg-max token, stops after `</s>` or when no step is left; ExtendShape states its properties |
| Greedy.GreedyDecode | torchnmt/networks/transformer.py:92-116 | definition: one example's greedy output, Extend from `[<s>]` with max_len - 1 steps; GreedyDecodeShape states its shape and GreedyInference is proved equal to it |
| Greedy.ExtendStep | torchnmt/networks/transformer.py:99-100 | a step that does not emit `</s>` hands the rest of the decoding to the grown prefix |
| Greedy.ExtendNextIteration | torchnmt/networks/transformer.py:96-100 | the same, counted as loop iteration l handing over to iteration l + 1 |
| Greedy.ExtendLength | torchnmt/networks/transformer.py:96-114 | decoding keeps the prefix and adds between 1 and `steps` tokens when a step is left; fewer than `steps` only when the last one is `</s>` |
| Greedy.ExtendTokens | torchnmt/networks/transformer.py:99-103 | every added token is the arg-max after what precedes it, and only the last can be `</s>` |
| Greedy.ExtendShape | torchnmt/networks/transformer.py:96-114 | length bounds, prefix kept, each added token the arg-max, `</s>` only last, and last whenever the decoding ends early |
| Greedy.GreedyDecodeShape | torchnmt/networks/transformer.py:93-116 | every greedy output starts with `<s>` and has length at most max(max_len, 1); `max_len <= 1` gives `[<s>]`; a shorter output ends in `</s>`, which appears nowhere before its end |
| Greedy.PairsAppend | torchnmt/networks/transformer.py:105-106 | appending correct (batch index, output) pairs to correct pairs keeps every pair correct |
| Greedy.RunningRow | torchnmt/networks/transformer.py:99-100 | a row that does not emit `</s>` has length l + 1, starts with `<s>`, has no `</s>`, and still decodes to its example's output |
| Greedy.RunningStep | torchnmt/networks/transformer.py:102-111 | compacting `running`, `batch_idx`, `mem` and `mem_mask` by the running positions keeps them in lockstep and in order, and every kept row consistent |
| Greedy.FinishedRow | torchnmt/networks/transformer.py:103-106 | a row that emits `</s>` ends in `</s>` and is its example's full greedy output |
| Greedy.FinishedStep | torchnmt/networks/transformer.py:105-106 | the rows that emitted `</s>` join `finished` with their own example's output and with keys distinct from each other and from the rows still running |
| Greedy.AddedValues | torchnmt/networks/transformer.py:105-106 | each pair moved to `finished` holds its example's greedy output |
| Greedy.AddedKeys | torchnmt/networks/transformer.py:105-109 | the keys moved to `finished` are distinct, were not in `finished` before, and none of them stays in `batch_idx` |
| Greedy.GreedyStep | torchnmt/networks/transformer.py:99-111 | one loop iteration keeps the lockstep, running-row and finished-pair invariants and the count of examples |
| Greedy.InitialState | torchnmt/networks/transformer.py:92-94 | `batch_idx = arange(n)`, every row `[<s>]` and an empty `finished` satisfy the loop invariants |
| Greedy.AllFinished | torchnmt/networks/transformer.py:116 | after the loop, the rows still running are added unchanged and are complete outputs |
| Greedy.RestoreOrder | torchnmt/networks/transformer.py:117 | sorting the n finished pairs by batch index puts example i's output at position i |
| Greedy.Conclude | torchnmt/networks/transformer.py:116-117 | after the loop, adding the running rows and sorting gives one output per example, in batch order |
| Greedy.GreedyInference | torchnmt/networks/transformer.py:82-119 | one output per example, in batch order, each equal to that example's own greedy decoding, whichever example finishes first |
| Beam.InitialBeam | torchnmt/networks/transformer.py:134-138 | the seeded beam: beam_width hypotheses `[<s>]`, the first scored 0 and the others -inf, and no finished hypothesis |
| Beam.RowTop | torchnmt/networks/transformer.py:156 | each hypothesis's top-k row holds k vocabulary tokens |
| Beam.FlatIndexBounds | torchnmt/networks/transformer.py:168 | every flat index of the k-by-k grid names a row and a column below k |
| Beam.FlatWord | torchnmt/networks/transformer.py:163 | cell q of `tmp_idxs.view(-1)` is the (q % k)-th best token of hypothesis q // k, a vocabulary token |
| Beam.FlatWords | torchnmt/networks/transformer.py:163 | `tmp_idxs.view(-1)`: k * k tokens, cell q being FlatWord q |
| Beam.FlatScore | torchnmt/networks/transformer.py:159-162 | definition: cell q of `tmp_logps.view(-1)`, the score of hypothesis q // k plus its log-probability for the token of cell q; FlatScoreFinite and ExpandSound state its properties |
| Beam.Flat | torchnmt/networks/transformer.py:159-162 | `tmp_logps.view(-1)`: a grid of k * k accumulated scores, one per cell, each cell being FlatScore; ExpandSound states what the selection keeps from it |
| Beam.Parents | torchnmt/networks/transformer.py:168 | `idxs // k` lies in [0, k) |
| Beam.Select | torchnmt/networks/transformer.py:165-168 | the global top-k of the flattened grid, with each kept score, token and parent taken from the chosen cell |
| Beam.Expand | torchnmt/networks/transformer.py:153-168 | one expansion yields k candidates whose parent indices lie in [0, k) |
| Beam.ExpandSound | torchnmt/networks/transformer.py:156-168 | each new token is in its parent's own top-k row, each new score is the parent's score plus that token's log-probability, the scores come best first, and no grid cell left out scores above a kept one |
| Beam.ExpandScoresDecrease | torchnmt/networks/transformer.py:159 | with log-probabilities at most 0, a child never scores above its parent |
| Beam.Grow | torchnmt/networks/transformer.py:170 | each grown hypothesis is its parent's tokens plus the chosen token, one per candidate |
| Beam.Hyps | torchnmt/networks/transformer.py:175 | `list(zip(scores, seqs))`: one hypothesis per position, with that position's score and tokens (also line 183) |
| Beam.Advance | torchnmt/networks/transformer.py:170-178 | the rows kept active plus the rows finished are all rows of the expansion, and `finished` only grows at its end |
| Beam.BeamStep | torchnmt/networks/transformer.py:144-178 | a step raises iff the beam is wider than the vocabulary; otherwise kept plus newly finished hypotheses number exactly the previous k |
| Beam.BeamLoop | torchnmt/networks/transformer.py:143-181 | the loop never widens the beam and ends with at least one candidate answer |
| Beam.Final | torchnmt/networks/transformer.py:183 | the candidates are the finished hypotheses followed by the active ones |
| Beam.Best | torchnmt/networks/transformer.py:185 | `max(finished, key=...)`: no candidate outscores the one chosen, which is the first among equals |
| Beam.BeamSearch | torchnmt/networks/transformer.py:121-187 | definition: one example's search; InvalidBeamWidth below width 1, otherwise the loop from the seeded beam at l = 1 and the tokens of the best final candidate; BeamSearchShape, BeamSearchOutcome, SearchScoresNonPositive and BeamWidthOneIsGreedy state its properties, and BeamSearchHelper is proved equal to it |
| Beam.AdvanceShape | torchnmt/networks/transformer.py:170-178 | after a step, finished hypotheses run from `<s>` to their first `</s>` and active ones have no `</s>` |
| Beam.StepShape | torchnmt/networks/transformer.py:143-178 | one search step keeps that shape, one token longer |
| Beam.LoopShape | torchnmt/networks/transformer.py:143-181 | the whole loop keeps that shape, within max(l, max_len) tokens |
| Beam.InitialShaped | torchnmt/networks/transformer.py:136 | the initial beam consists of beam_width hypotheses `[<s>]` |
| Beam.BestShape | torchnmt/networks/transformer.py:183-185 | the chosen candidate is a finished or an active hypothesis of the final state |
| Beam.BeamSearchShape | torchnmt/networks/transformer.py:121-187 | the answer starts with `<s>`, has at most max(max_len, 1) tokens, either ends at its first `</s>` or has no `</s>` and full length; `max_len <= 1` gives `[<s>]` |
| Beam.LoopSucceeds | torchnmt/networks/transformer.py:156-165 | a beam no wider than the vocabulary never makes `torch.topk` raise |
| Beam.BeamSearchOutcome | torchnmt/networks/transformer.py:134-165 | the search raises iff beam_width < 1, or the loop runs and beam_width exceeds the vocabulary size, and with which error |
| Beam.StepScores | torchnmt/networks/transformer.py:159-178 | with log-probabilities at most 0, a step keeps every score at most 0 |
| Beam.LoopScores | torchnmt/networks/transformer.py:143-181 | the same for the whole loop |
| Beam.SearchScoresNonPositive | torchnmt/networks/transformer.py:159-185 | with log-probabilities at most 0, every candidate answer scores at most 0 |
| Beam.FlatScoreFinite | torchnmt/networks/transformer.py:159-162 | a grid cell is finite exactly when its parent's score is |
| Beam.ExpandFromSingleFinite | torchnmt/networks/transformer.py:159-168 | when only the first hypothesis is finite, every chosen candidate extends it and is finite |
| Beam.FirstStepExtendsFirstSeed | torchnmt/networks/transformer.py:131-136 | seeding with 0 and -inf makes the first step extend only the first hypothesis, with finite scores; its k chosen tokens are pairwise distinct, so the k grown hypotheses are pairwise distinct and the k copies of `[<s>]` do not fill the beam with one hypothesis k times |
| Beam.ExpandSingle | torchnmt/networks/transformer.py:153-168 | a one-row expansion picks the row's greedy arg-max token |
| Beam.SingleStep | torchnmt/networks/transformer.py:143-178 | one step of a one-row beam appends the arg-max token; a `</s>` ends the search and any other token leaves a one-row beam |
| Beam.SingleBeamIsGreedy | torchnmt/networks/transformer.py:143-185 | a beam of one hypothesis ends with the tokens greedy decoding produces from the same prefix |
| Beam.BeamWidthOneIsGreedy | torchnmt/networks/transformer.py:70-74 | with beam_width 1, beam search returns exactly the greedy decoding |
| Beam.BeamSearchHelper | torchnmt/networks/transformer.py:121-187 | the loop as written, with its early break, returns exactly BeamSearch, the raised error included |
| Transformer.Batch | torchnmt/networks/transformer.py:190-194 | a comprehension that may raise gives one result per example in batch order iff no example raises, and otherwise the error of some example that raises first |
| Transformer.BatchFirstError | torchnmt/networks/transformer.py:190-194 | the first example that raises decides the error of the whole batch |
| Transformer.BatchSnoc | torchnmt/networks/transformer.py:190-194 | one more example that succeeds appends its result |
| Transformer.BeamSearchInference | torchnmt/networks/transformer.py:189-194 | definition: Batch of BeamSearch over the examples; BeamSearchInferenceOutcome states when it raises, and BeamSearchBatch is proved equal to it |
| Transformer.BeamSearchInferenceOutcome | torchnmt/networks/transformer.py:189-194 | a batch raises iff it is not empty and beam_width < 1 or the loop runs with beam_width above the vocabulary size; an empty batch gives `[]` |
| Transformer.WidthOneBatchIsGreedy | torchnmt/networks/transformer.py:70-74 | at beam width 1 the batch beam search gives every example its greedy decoding |
| Transformer.BeamSearchBatch | torchnmt/networks/transformer.py:189-194 | calling `beam_search_helper` once per example returns exactly BeamSearchInference |
| Transformer.Forward | torchnmt/networks/transformer.py:67-78 | the inference branch returns BeamSearchInference for the given width, and at width 1 every example's greedy decoding |

## Left out

- The encoder and the decoder network (`self.encoder`, `self.decoder`) are replaced by an uninterpreted deterministic scoring function. Attention, feed-forward layers and embeddings are floating-point layers defined elsewhere. The batched decoder call is modelled row by row, which assumes the decoder treats batch rows independently.
- Floating point: scores are integers with a -inf element. `log_softmax` is `row[t] - logSumExp(row)` for an opaque `logSumExp`. Its real normalisation, exponentials and rounding are not modelled. `Decoder.NonPositiveLogProbs` states the one property of real log-probabilities that is used.
- Selection.TopK: `torch.topk` does not specify how it breaks ties. The model assumes a stable descending ranking, with equal scores ordered by lower index first.
- `padding_mask` and `subsequent_mask` come from the `.utils` module of `torchnmt/networks`, which is not part of this model. The source mask is an opaque value passed to the decoder. The causal mask is determined by the prefix length.
- Memory expansion in `beam_search_helper` (`memory.expand`, lines 140-141): every beam row reads the same memory, so the model passes one memory and one mask to every row.
- The training path of `forward` (lines 38-65) is not modelled: `pad_packed_sequence`, padding masks of the source, the encoder call, device moves, `log_softmax` of the teacher-forced output and the cross-entropy loss. The same goes for the `self.training` flag: the model is the inference branch.
- Network construction (`networks.get`, `vocab_share`, lines 21-26) and the vocabulary registry: `<s>` and `</s>` are the `bos` and `eos` parameters of `Decoder.Model`.
- Greedy.GreedyInference: it requires a vocabulary of at least one token, which the real vocabulary always has through its reserved tokens. An empty decoder output, on which `argmax` would raise, is not modelled.
- Transformer.Forward: it requires a vocabulary of at least one token, as greedy decoding does.
- `beam_width=None` and other non-integer widths are not modelled. The width is an integer parameter.
- `max_len=None`, the default of `forward`, is not modelled: `range(1, None)` at lines 96 and 143 raises a `TypeError`. The length bound is an integer parameter.
- The errors modelled are the two above. Other ways the source raises are not modelled: an `argmax` over an empty decoder row, and `None` or non-integer arguments.
- The model returns token sequences. The tensors and Python lists they are held in, and their devices, are not modelled.
