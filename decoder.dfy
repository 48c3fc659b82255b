/**
 The interface the decoding engine sees of the trained network: a
 deterministic decoder that scores every vocabulary token as the next token
 of a target prefix, given one example's encoder memory and source mask.
 */
module Decoder {
  import opened Scores
  import opened Selection

  /** A vocabulary index. */
  type Token = nat

  /**
   The network as the decoding loops use it.
   - decode(mem, mask, prefix, t): the decoder output (a logit) for token t at
     the last position of prefix; one row of the batched decoder call, which
     treats rows independently.  The causal mask `subsequent_mask([l])` is
     determined by the prefix length l, so it is not a separate argument.
   - logSumExp(row): the normaliser of `log_softmax`, which is row[t] - logSumExp(row).
   - vocabSize: the width of the decoder output.
   - bos, eos: the indices of `<s>` and `</s>`.
   */
  datatype Model<!M, !K> = Model(
    decode: (M, K, seq<Token>, Token) -> int,
    logSumExp: seq<int> -> int,
    vocabSize: nat,
    bos: Token,
    eos: Token)

  /** `decoder(prefix, mem, mem_mask, tgt_mask)[-1]` for one row: a logit per token. */
  function Logits<M, K>(model: Model<M, K>, mem: M, mask: K, prefix: seq<Token>): (r: seq<int>)
    ensures |r| == model.vocabSize
  {
    seq(model.vocabSize, (t: nat) => model.decode(mem, mask, prefix, t))
  }

  /** `log_softmax` of the last-position logits. */
  function LogProbs<M, K>(model: Model<M, K>, mem: M, mask: K, prefix: seq<Token>): (r: seq<int>)
    ensures |r| == model.vocabSize
  {
    var row := Logits(model, mem, mask, prefix);
    seq(|row|, t requires 0 <= t < |row| => row[t] - model.logSumExp(row))
  }

  /**
   `outputs[:, -1].argmax(dim=-1)` for one row: a token whose logit is
   maximal, the first such token when several are.
   */
  function ArgMax<M, K>(model: Model<M, K>, mem: M, mask: K, prefix: seq<Token>): (t: Token)
    requires model.vocabSize > 0
    ensures t < model.vocabSize
    ensures forall u :: 0 <= u < model.vocabSize ==>
              Logits(model, mem, mask, prefix)[u] <= Logits(model, mem, mask, prefix)[t]
    ensures forall u :: 0 <= u < t ==>
              Logits(model, mem, mask, prefix)[u] < Logits(model, mem, mask, prefix)[t]
  {
    FirstMax(Lift(Logits(model, mem, mask, prefix)))
  }

  /** The property real log-probabilities have: none exceeds 0. */
  ghost predicate NonPositiveLogProbs<M, K>(model: Model<M, K>)
  {
    forall row: seq<int>, t :: 0 <= t < |row| ==> row[t] <= model.logSumExp(row)
  }

  lemma LogProbsNonPositive<M, K>(model: Model<M, K>, mem: M, mask: K, prefix: seq<Token>)
    requires NonPositiveLogProbs(model)
    ensures forall t :: 0 <= t < model.vocabSize ==> LogProbs(model, mem, mask, prefix)[t] <= 0
  {
    var row := Logits(model, mem, mask, prefix);
    assert forall t :: 0 <= t < |row| ==> row[t] <= model.logSumExp(row);
  }

  /**
   `log_softmax` keeps the order of a row, so the single best entry of the
   log-probabilities is the greedy arg-max of the logits.
   */
  lemma TopOneIsArgMax<M, K>(model: Model<M, K>, mem: M, mask: K, prefix: seq<Token>)
    requires model.vocabSize > 0
    ensures TopK(Lift(LogProbs(model, mem, mask, prefix)), 1) == [ArgMax(model, mem, mask, prefix)]
  {
    var row := Logits(model, mem, mask, prefix);
    FirstMaxShift(row, LogProbs(model, mem, mask, prefix), model.logSumExp(row));
    TopOneIsFirstMax(Lift(LogProbs(model, mem, mask, prefix)));
  }
}
